/**
 The evidence around a seat: presence beats, the watcher's beat, death certificates on the seat
 row, and the fenced release.
 */
module SeatRelease {
  import opened Common
  import opened SeatLadder
  import opened SeatClaim

  // ----- presence -----

  function Superseded(w: World, name: string): set<string> {
    if name in w.seats then set n | n in w.seats[name].superseded else {}
  }

  /** The nonce map a beat stores: fresh sessions that are not displaced, and the beater unless displaced. */
  function Merged(prior: map<string, int>, now: int, displaced: set<string>, nonce: Option<string>): (r: map<string, int>)
    ensures forall n :: n in r <==> n !in displaced && (nonce == Some(n) || (n in prior && now - prior[n] < COLLISION_WINDOW))
    ensures forall n | n in r :: r[n] == if nonce == Some(n) then now else if n in prior then prior[n] else now
  {
    var live := map n | n in prior && n !in displaced && now - prior[n] < COLLISION_WINDOW :: prior[n];
    if nonce.Some? && nonce.value !in displaced then live[nonce.value := now] else live
  }

  function Sessions(w: World, name: string): map<string, int> {
    if name in w.presence then w.presence[name].sessions else map[]
  }

  function Touched(w: World, name: string): map<string, Seat> {
    if name in w.seats then w.seats[name := w.seats[name].(touched := w.now)] else w.seats
  }

  // `presence_update`: the stored metadata is rebuilt, so a release stamp does not survive a beat.
  function Beaten(w: World, name: string, nonce: Option<string>): World {
    w.(presence := w.presence[name := Presence(w.now, None, None, Merged(Sessions(w, name), w.now, Superseded(w, name), nonce))],
       seats := Touched(w, name))
  }

  predicate ReportsCollision(name: string, sessions: map<string, int>) {
    |sessions| > 1 && name !in EXEMPT
  }

  // `presence_watcher_beat`: refreshes both rows, adds nothing, and never creates a presence row.
  function WatcherBeaten(w: World, name: string): World {
    if name in w.presence
    then w.(presence := w.presence[name := w.presence[name].(touched := w.now)], seats := Touched(w, name))
    else w
  }

  /**
   The watcher's beat is no session: it changes no nonce map, and no later count.  But it is
   newer than a goodbye stamped before it, so after it the name is breathing again for a claimant
   exactly when somebody else's recorded beat is under 600 seconds old.
   */
  lemma WatcherBeatVoidsGoodbye(w: World, name: string, s: string, nonce: string)
    ensures var v := WatcherBeaten(w, name);
            && v.seats.Keys == w.seats.Keys && v.presence.Keys == w.presence.Keys && v.mail == w.mail
            && Sessions(v, s) == Sessions(w, s)
            && (name in w.presence && (w.presence[name].releasedAt.Some? ==> w.presence[name].releasedAt.value < w.now) ==>
                  (Breathing(v, name, nonce) <==>
                     exists n | n in Sessions(w, name) :: n != nonce && w.now - Sessions(w, name)[n] < LIVE))
  {
    if name in w.presence {
      var p := WatcherBeaten(w, name).presence[name];
      assert p.sessions == Sessions(w, name) && p.touched == w.now && p.releasedAt == w.presence[name].releasedAt;
    }
  }

  /**
   A displaced process is never counted: whatever the presence row holds and whoever beats, a
   beat that reads the displacement on the seat row stores, and counts, exactly what it would
   if that process had no entry and had not beaten.
   */
  lemma DisplacedIsNeverCounted(prior: map<string, int>, now: int, displaced: set<string>, beater: Option<string>,
                                gone: string, name: string)
    requires gone in displaced
    ensures gone !in Merged(prior, now, displaced, beater)
    ensures Merged(prior, now, displaced, beater)
            == Merged(prior - {gone}, now, displaced, if beater == Some(gone) then None else beater)
  {
  }

  /** So when everyone recorded there but the successor has been displaced, no beat of any of them reports a collision. */
  lemma SuccessionIsNoCollision(prior: map<string, int>, now: int, displaced: set<string>, beater: Option<string>,
                                successor: string, name: string)
    requires forall n | n in prior || beater == Some(n) :: n in displaced || n == successor
    ensures !ReportsCollision(name, Merged(prior, now, displaced, beater))
  {
    var m := Merged(prior, now, displaced, beater);
    CardinalityBound(m.Keys, successor);
    assert |m| == |m.Keys|;
  }

  /** Without the record of displacement the same two beats do collide: the filter is what prevents it. */
  lemma UnrecordedPredecessorCollides(now: int, gone: string, successor: string, name: string)
    requires gone != successor && name !in EXEMPT
    ensures ReportsCollision(name, Merged(map[gone := now], now, {}, Some(successor)))
  {
    var m := Merged(map[gone := now], now, {}, Some(successor));
    assert {gone, successor} <= m.Keys;
    assert |{gone, successor}| == 2;
    TwoKeys(m.Keys, gone, successor);
    assert |m| == |m.Keys|;
  }

  lemma TwoKeys(s: set<string>, a: string, b: string)
    requires a in s && b in s && a != b
    ensures |s| >= 2
  {
    assert s == {a, b} + (s - {a, b});
  }

  // ----- certificates -----

  // `death_certify`'s mark on the seat row, if there is one.
  function Certified(w: World, seat: string, cert: Cert): World {
    if seat in w.seats then w.(seats := w.seats[seat := w.seats[seat].(cert := Some(cert))]) else w
  }

  // About another process, or about a death before the row began.
  predicate Stray(row: Seat, cert: Cert) {
    (cert.nonce.Some? && cert.nonce.value != row.nonce) || cert.at < row.created
  }

  /** On a row not certified dead a stray certificate changes no allocation answer and opens no takeover, for anyone. */
  lemma StrayCertificateIsInert(c: Config, w: World, q: Request, seat: string, cert: Cert, s: string)
    requires seat in w.seats && !CertifiedDead(w.seats[seat]) && Stray(w.seats[seat], cert)
    ensures Allocation(c, Certified(w, seat, cert), q, s) == Allocation(c, w, q, s)
    ensures WriteSucceeds(Certified(w, seat, cert), s) == WriteSucceeds(w, s)
  {
    var v := Certified(w, seat, cert);
    assert s in v.seats <==> s in w.seats;
    assert s in w.seats ==> v.seats[s].touched == w.seats[s].touched && CertifiedDead(v.seats[s]) == CertifiedDead(w.seats[s]);
    assert Gathered(v, q, s) == Gathered(w, q, s);
    assert forall reason :: HolderGone(v, q, s, reason) == HolderGone(w, q, s, reason);
  }

  // The name would be granted, or refused, without any certificate.
  predicate Settled(c: Config, w: World, seat: string)
    requires seat in w.seats
  {
    || Reserved(c, seat) || w.seats[seat].touched >= w.now
    || (w.now - w.seats[seat].touched >= GRACE && !IsFresh(w, seat))
  }

  // A recorded beat is no younger than its row.
  predicate BeatsAreRecorded(w: World, seat: string) {
    seat in w.presence ==> forall n | n in w.presence[seat].sessions :: w.presence[seat].sessions[n] <= w.presence[seat].touched
  }

  // A launch that names the seat itself.
  function Naming(seat: string): Request {
    Request("", "", seat, None, Some(seat), false)
  }

  lemma NamingIsDistinct(c: Config, seat: string)
    requires !Reserved(c, seat)
    ensures Distinct(c, Naming(seat)) == Some(seat)
  {
    assert |Base(c, seat)| > |seat|;
  }

  /**
   In general: a stray certificate leaves who may be granted what unchanged if and only if the
   row was not certified dead before, or its name is settled without any certificate.  Otherwise
   it takes back what the occupant's own certificate had given, since the mark is overwritten.
   */
  lemma StrayCertificateIsInertIff(c: Config, w: World, seat: string, cert: Cert)
    requires seat in w.seats && Stray(w.seats[seat], cert) && BeatsAreRecorded(w, seat)
    ensures (forall q, s :: Grantable(c, Certified(w, seat, cert), q, s) == Grantable(c, w, q, s))
            <==> !CertifiedDead(w.seats[seat]) || Settled(c, w, seat)
  {
    var v := Certified(w, seat, cert);
    if !CertifiedDead(w.seats[seat]) {
      forall q, s ensures Grantable(c, v, q, s) == Grantable(c, w, q, s) {
        StrayCertificateIsInert(c, w, q, seat, cert, s);
      }
    } else if Settled(c, w, seat) {
      forall q, s ensures Grantable(c, v, q, s) == Grantable(c, w, q, s) {
        if s == seat { SettledStays(c, w, q, seat, cert); } else { ElsewhereStays(c, w, q, seat, cert, s); }
      }
    } else {
      var q := Naming(seat);
      NamingIsDistinct(c, seat);
      assert Grantable(c, w, q, seat);
      assert !CertifiedDead(v.seats[seat]);
      assert !Grantable(c, v, q, seat);
    }
  }

  lemma ElsewhereStays(c: Config, w: World, q: Request, seat: string, cert: Cert, s: string)
    requires seat in w.seats && s != seat
    ensures Grantable(c, Certified(w, seat, cert), q, s) == Grantable(c, w, q, s)
  {
    var v := Certified(w, seat, cert);
    assert Gathered(v, q, s) == Gathered(w, q, s);
    assert forall reason :: HolderGone(v, q, s, reason) == HolderGone(w, q, s, reason);
  }

  lemma SettledStays(c: Config, w: World, q: Request, seat: string, cert: Cert)
    requires seat in w.seats && Stray(w.seats[seat], cert) && BeatsAreRecorded(w, seat)
    requires CertifiedDead(w.seats[seat]) && Settled(c, w, seat)
    ensures Grantable(c, Certified(w, seat, cert), q, seat) == Grantable(c, w, q, seat)
  {
    var v := Certified(w, seat, cert);
    assert !CertifiedDead(v.seats[seat]);
    if !IsFresh(w, seat) {
      assert !Breathing(w, seat, q.nonce) && !Breathing(v, seat, q.nonce);
    }
  }

  /** A certificate about the occupant frees its unreserved name at once, however lately it beat, unless mail is open there. */
  lemma OwnCertificateFrees(c: Config, w: World, q: Request, seat: string, cert: Cert)
    requires seat in w.seats && !Reserved(c, seat) && seat !in w.mail
    requires cert.nonce == Some(w.seats[seat].nonce) && cert.at >= w.seats[seat].created
    requires w.seats[seat].touched < w.now
    ensures Grantable(c, Certified(w, seat, cert), q, seat)
  {
    var v := Certified(w, seat, cert);
    assert CertifiedDead(v.seats[seat]);
    assert Decide(Gathered(v, q, seat)).Free?;
  }

  // ----- release -----

  predicate NamesAlone(p: Presence, nonce: string) {
    && (nonce in p.sessions || p.topNonce == Some(nonce))
    && (p.topNonce.Some? ==> p.topNonce.value == nonce)
    && p.sessions.Keys <= {nonce}
  }

  function Stamped(w: World, seat: string, nonce: string): World {
    if seat in w.presence && seat !in w.seats && NamesAlone(w.presence[seat], nonce)
    then w.(presence := w.presence[seat := w.presence[seat].(releasedAt := Some(w.now))])
    else w
  }

  // `seat_release` with a nonce: every row of (key, nonce) goes, one of them is reported (`shown`).
  function Released(w: World, key: string, nonce: string, certain: bool, shown: Option<string>): World {
    var freed := w.(seats := w.seats - Mine(w, key, nonce));
    if certain && shown.Some? && shown.value in Mine(w, key, nonce) then Stamped(freed, shown.value, nonce) else freed
  }

  predicate Shows(w: World, key: string, nonce: string, shown: Option<string>) {
    if Mine(w, key, nonce) == {} then shown == None
    else shown.Some? && shown.value in Mine(w, key, nonce)
  }

  /**
   The release is fenced: it removes exactly the rows of that key and that process, and stamps
   at most the one name it reports, only when the caller was certain and presence there names
   that process and nobody else.
   */
  lemma ReleaseIsFenced(w: World, key: string, nonce: string, certain: bool, shown: Option<string>, s: string)
    requires Shows(w, key, nonce, shown)
    ensures var after := Released(w, key, nonce, certain, shown);
            && after.mail == w.mail && after.now == w.now
            && (s in after.seats <==> s in w.seats && !(w.seats[s].key == key && w.seats[s].nonce == nonce))
            && (s in after.seats ==> after.seats[s] == w.seats[s])
            && (s in after.presence <==> s in w.presence)
            && (s in w.presence ==>
                  var p := w.presence[s];
                  var alone := (forall n | n in p.sessions :: n == nonce) && (p.topNonce == None || p.topNonce == Some(nonce))
                               && (nonce in p.sessions || p.topNonce == Some(nonce));
                  after.presence[s] == if certain && shown == Some(s) && alone then p.(releasedAt := Some(w.now)) else p)
  {
  }

  /** A stale process's release, after a newer one took the row, changes nothing at all. */
  lemma StaleReleaseIsANoOp(w: World, key: string, nonce: string, certain: bool, shown: Option<string>)
    requires Shows(w, key, nonce, shown)
    requires forall s | s in w.seats && w.seats[s].key == key :: w.seats[s].nonce != nonce
    ensures Released(w, key, nonce, certain, shown) == w
  {
    assert Mine(w, key, nonce) == {};
    assert w.seats - {} == w.seats;
  }
}
