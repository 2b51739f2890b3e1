/**
 The watch lease of server/services/watch_claim.py: its table, its four statements,
 and what every interleaving of them keeps.

 Times are microseconds of one clock.  Seats, addresses and nonces are taken as
 already trimmed and lower-cased.
 */
module WatchClaim {
  import opened Common

  const EXPIRY: int := 150 * SECOND
  const MUTE_GRACE: int := 600 * SECOND
  const MUTE_LOOKBACK: int := 6 * 3600 * SECOND

  datatype Row = Row(
    nonce: string,
    seatNonce: Option<string>,   // the register's nonce of the session this watcher serves
    listenSet: seq<string>,
    claimedAt: int,
    lastBeat: int,
    fetchedThrough: Option<int>)

  datatype Mail = Mail(to: string, createdAt: int, archived: bool)

  datatype SeatRow = SeatRow(project: string, name: string, nonce: Option<string>)

  datatype World = World(claims: map<string, Row>, seats: set<SeatRow>, mail: set<Mail>, now: int)

  // What a holder has provably delivered, else when it claimed.
  function Watermark(r: Row): int {
    match r.fetchedThrough
    case Some(t) => t
    case None => r.claimedAt
  }

  // ----- keys -----

  function MachineHost(listen: seq<string>): Option<string> {
    if listen == [] then None
    else if StartsWith(listen[0], "machine:") && |listen[0]| > 8 then Some(listen[0][8..])
    else MachineHost(listen[1..])
  }

  function AtHost(seat: string, listen: seq<string>): Option<string> {
    if listen == [] then None
    else
      var p := seat + "@";
      if StartsWith(listen[0], p) && listen[0][|p|..] !in {"", "fleet"} then Some(listen[0][|p|..])
      else AtHost(seat, listen[1..])
  }

  // The box a shared-role watcher serves, read from what it listens on.
  function HostOf(seat: string, listen: seq<string>, host: Option<string>): Option<string> {
    if MachineHost(listen).Some? then MachineHost(listen)
    else if AtHost(seat, listen).Some? then AtHost(seat, listen)
    else if host.Some? && Before(host.value, '.') != "" then Some(Before(host.value, '.'))
    else None
  }

  function ClaimKey(seat: string, listen: seq<string>, host: Option<string>): string {
    if seat in EXEMPT && HostOf(seat, listen, host).Some?
    then "watch/" + seat + "@" + HostOf(seat, listen, host).value
    else "watch/" + seat
  }

  // The rows a beat or release for `seat` may match.
  predicate KeyMatches(seat: string, key: string) {
    key == "watch/" + seat || (seat in EXEMPT && StartsWith(key, "watch/" + seat + "@"))
  }

  // A watcher finds its own row again under whatever key the claim filed it.
  lemma OwnKeyMatches(seat: string, listen: seq<string>, host: Option<string>)
    ensures KeyMatches(seat, ClaimKey(seat, listen, host))
  {
    var p := "watch/" + seat + "@";
    if seat in EXEMPT && HostOf(seat, listen, host).Some? {
      assert ClaimKey(seat, listen, host)[..|p|] == p;
    }
  }

  // The watcher's box, as its listen set names it: by the machine address, else by the seat at a host.
  ghost predicate FirstMachine(listen: seq<string>, host: string) {
    host != "" && exists i :: 0 <= i < |listen| && listen[i] == "machine:" + host
                               && forall j :: 0 <= j < i ==> !(StartsWith(listen[j], "machine:") && |listen[j]| > 8)
  }

  lemma {:induction false} MachineHostMeans(listen: seq<string>, host: string)
    ensures MachineHost(listen) == Some(host) <==> FirstMachine(listen, host)
  {
    assert |"machine:"| == 8;
    if listen != [] {
      MachineHostMeans(listen[1..], host);
      var first := StartsWith(listen[0], "machine:") && |listen[0]| > 8;
      assert ("machine:" + host)[8..] == host && ("machine:" + host)[..8] == "machine:";
      if first {
        assert listen[0] == "machine:" + listen[0][8..];
        if FirstMachine(listen, host) {
          var i :| 0 <= i < |listen| && listen[i] == "machine:" + host
                   && forall j :: 0 <= j < i ==> !(StartsWith(listen[j], "machine:") && |listen[j]| > 8);
          assert i == 0;
        } else {
          assert listen[0][8..] != host;
        }
      } else {
        if FirstMachine(listen[1..], host) {
          var i :| 0 <= i < |listen| - 1 && listen[1..][i] == "machine:" + host
                   && forall j :: 0 <= j < i ==> !(StartsWith(listen[1..][j], "machine:") && |listen[1..][j]| > 8);
          assert listen[i + 1] == "machine:" + host;
          forall j | 0 <= j < i + 1 ensures !(StartsWith(listen[j], "machine:") && |listen[j]| > 8) {
            if j > 0 { assert listen[j] == listen[1..][j - 1]; }
          }
        }
        if FirstMachine(listen, host) {
          var i :| 0 <= i < |listen| && listen[i] == "machine:" + host
                   && forall j :: 0 <= j < i ==> !(StartsWith(listen[j], "machine:") && |listen[j]| > 8);
          assert i > 0 && listen[1..][i - 1] == "machine:" + host;
          forall j | 0 <= j < i - 1 ensures !(StartsWith(listen[1..][j], "machine:") && |listen[1..][j]| > 8) {
            assert listen[1..][j] == listen[j + 1];
          }
        }
      }
    }
  }

  // An address of the seat at one host, not at none and not at all of them.
  predicate AtOneHost(seat: string, addr: string) {
    StartsWith(addr, seat + "@") && addr != seat + "@" && addr != seat + "@fleet"
  }

  lemma {:induction false} AtHostMeans(seat: string, listen: seq<string>, i: nat)
    requires i < |listen| && AtOneHost(seat, listen[i]) && forall j | 0 <= j < i :: !AtOneHost(seat, listen[j])
    ensures AtHost(seat, listen).Some? && listen[i] == seat + "@" + AtHost(seat, listen).value
  {
    AtOneHostMeans(seat, listen[0]);
    if i > 0 {
      forall j | 0 <= j < i - 1 ensures !AtOneHost(seat, listen[1..][j]) { assert listen[1..][j] == listen[j + 1]; }
      AtHostMeans(seat, listen[1..], i - 1);
    }
  }

  lemma AtOneHostMeans(seat: string, addr: string)
    ensures var p := seat + "@";
            AtOneHost(seat, addr) <==> StartsWith(addr, p) && addr[|p|..] !in {"", "fleet"}
    ensures var p := seat + "@"; StartsWith(addr, p) ==> addr == p + addr[|p|..]
  {
    var p := seat + "@";
    assert (p + "fleet")[|p|..] == "fleet" && seat + "@fleet" == p + "fleet";
    if StartsWith(addr, p) {
      assert addr == addr[..|p|] + addr[|p|..];
    }
  }

  lemma {:induction false} NoHostMeans(seat: string, listen: seq<string>)
    requires forall j | 0 <= j < |listen| :: !AtOneHost(seat, listen[j])
    ensures AtHost(seat, listen).None?
  {
    if listen != [] {
      AtOneHostMeans(seat, listen[0]);
      forall j | 0 <= j < |listen| - 1 ensures !AtOneHost(seat, listen[1..][j]) { assert listen[1..][j] == listen[j + 1]; }
      NoHostMeans(seat, listen[1..]);
    }
  }

  lemma {:induction false} NoMachine(listen: seq<string>)
    requires forall a | a in listen :: !StartsWith(a, "machine:")
    ensures MachineHost(listen).None?
  {
    if listen != [] { NoMachine(listen[1..]); }
  }

  /** A shared role's box when it listens on no machine address: its own name at the first host, else the short name of the host it gives, else none. */
  lemma BoxWithoutMachine(listen: seq<string>, host: Option<string>, i: nat)
    requires forall a | a in listen :: !StartsWith(a, "machine:")
    requires i <= |listen| && forall j | 0 <= j < i :: !AtOneHost("admin", listen[j])
    ensures i < |listen| && AtOneHost("admin", listen[i]) ==> ClaimKey("admin", listen, host) == "watch/" + listen[i]
    ensures i == |listen| ==>
              ClaimKey("admin", listen, host)
              == if host.Some? && Before(host.value, '.') != "" then "watch/admin@" + Before(host.value, '.') else "watch/admin"
  {
    NoMachine(listen);
    assert "watch/" + "admin" + "@" == "watch/admin@" && "watch/" + "admin" == "watch/admin";
    if i < |listen| && AtOneHost("admin", listen[i]) {
      AtHostMeans("admin", listen, i);
      var h := AtHost("admin", listen).value;
      assert "watch/" + "admin" + "@" + h == "watch/" + ("admin" + "@" + h);
    }
    if i == |listen| { NoHostMeans("admin", listen); }
  }

  /**
   Under which key a watch is filed: an ordinary seat has one key wherever it is watched from; a
   shared role has one for each box, so watchers of two boxes never contend and two of one box do.
   */
  lemma OneKeyPerBox(seat: string, listen: seq<string>, host: Option<string>, listen2: seq<string>, host2: Option<string>, box: string, box2: string)
    requires FirstMachine(listen, box) && FirstMachine(listen2, box2)
    ensures seat != "admin" ==> ClaimKey(seat, listen, host) == ClaimKey(seat, listen2, host2) == "watch/" + seat
    ensures seat == "admin" ==> ClaimKey(seat, listen, host) == "watch/admin@" + box
    ensures seat == "admin" ==> (ClaimKey(seat, listen, host) == ClaimKey(seat, listen2, host2) <==> box == box2)
  {
    MachineHostMeans(listen, box);
    MachineHostMeans(listen2, box2);
    if seat == "admin" {
      var p := "watch/" + "admin" + "@";
      assert p == "watch/admin@";
      assert ClaimKey(seat, listen, host) == p + box && ClaimKey(seat, listen2, host2) == p + box2;
      assert (p + box)[|p|..] == box && (p + box2)[|p|..] == box2;
    }
  }

  // ----- the steal guard -----

  predicate Expired(w: World, r: Row) {
    r.lastBeat < w.now - EXPIRY
  }

  // The register seats the claimant's process at this name and not the incumbent's.
  predicate FollowsSeat(w: World, r: Row, seat: string, seatNonce: Option<string>) {
    && seatNonce.Some?
    && r.seatNonce != seatNonce
    && exists s | s in w.seats :: s.name == seat && s.nonce == seatNonce
  }

  function Max(a: int, b: int): int {
    if a > b then a else b
  }

  // Mail the holder listens for has outwaited the grace beyond its watermark.
  predicate Mute(w: World, r: Row) {
    exists m | m in w.mail ::
      && m.to in r.listenSet
      && !m.archived
      && m.createdAt < w.now - MUTE_GRACE
      && m.createdAt > Max(Watermark(r), w.now - MUTE_LOOKBACK)
  }

  predicate Stealable(w: World, r: Row, seat: string, seatNonce: Option<string>) {
    Expired(w, r) || FollowsSeat(w, r, seat, seatNonce) || Mute(w, r)
  }

  // ----- the statements -----

  datatype Stmt =
    | Insert(key: string, row: Row)
    | Steal(key: string, seat: string, row: Row)
    | Beat(seat: string, nonce: string, fetched: Option<int>)
    | Release(seat: string, nonce: string)
    | Other(seats: set<SeatRow>, mail: set<Mail>, elapsed: nat)   // the rest of the system, and time

  function Beaten(r: Row, now: int, fetched: Option<int>): Row {
    r.(lastBeat := now, fetchedThrough := if fetched.Some? then fetched else r.fetchedThrough)
  }

  // The statement matched a row.
  predicate Hits(w: World, s: Stmt) {
    match s
    case Insert(key, row) => key !in w.claims
    case Steal(key, seat, row) => key in w.claims && Stealable(w, w.claims[key], seat, row.seatNonce)
    case Beat(seat, nonce, _) => exists k | k in w.claims :: KeyMatches(seat, k) && w.claims[k].nonce == nonce
    case Release(seat, nonce) => exists k | k in w.claims :: KeyMatches(seat, k) && w.claims[k].nonce == nonce
    case Other(_, _, _) => true
  }

  function Exec(w: World, s: Stmt): World {
    match s
    case Insert(key, row) => if Hits(w, s) then w.(claims := w.claims[key := row]) else w
    case Steal(key, seat, row) => if Hits(w, s) then w.(claims := w.claims[key := row]) else w
    case Beat(seat, nonce, fetched) =>
      w.(claims := map k | k in w.claims ::
           if KeyMatches(seat, k) && w.claims[k].nonce == nonce then Beaten(w.claims[k], w.now, fetched) else w.claims[k])
    case Release(seat, nonce) =>
      w.(claims := map k | k in w.claims && !(KeyMatches(seat, k) && w.claims[k].nonce == nonce) :: w.claims[k])
    case Other(seats, mail, elapsed) => w.(seats := seats, mail := mail, now := w.now + elapsed)
  }

  // The state before statement i of a run; the last one is the outcome.
  function At(w: World, run: seq<Stmt>, i: nat): World
    requires i <= |run|
  {
    if i == 0 then w else Exec(At(w, run, i - 1), run[i - 1])
  }

  predicate Grants(w: World, s: Stmt, key: string) {
    (s.Insert? || s.Steal?) && s.key == key && Hits(w, s)
  }

  // Beats change these two columns and nothing else.
  predicate SameLease(a: Row, b: Row) {
    a.(lastBeat := 0, fetchedThrough := None) == b.(lastBeat := 0, fetchedThrough := None)
  }

  predicate ReleasedAt(w: World, run: seq<Stmt>, i: nat, key: string, nonce: string)
    requires i < |run|
  {
    && run[i].Release? && run[i].nonce == nonce && KeyMatches(run[i].seat, key)
    && key in At(w, run, i).claims && key !in At(w, run, i + 1).claims
  }

  // From statement `from` on, until a release by its own nonce or another grant, the lease stays as it was.
  lemma {:induction false} LeaseStays(w: World, run: seq<Stmt>, key: string, from: nat, n: nat)
    requires from <= n <= |run| && key in At(w, run, from).claims
    requires forall i | from <= i < n :: !Grants(At(w, run, i), run[i], key)
    requires forall i | from <= i < n :: !ReleasedAt(w, run, i, key, At(w, run, from).claims[key].nonce)
    ensures key in At(w, run, n).claims && SameLease(At(w, run, from).claims[key], At(w, run, n).claims[key])
    decreases n
  {
    if n > from {
      LeaseStays(w, run, key, from, n - 1);
      assert !Grants(At(w, run, n - 1), run[n - 1], key);
      assert !ReleasedAt(w, run, n - 1, key, At(w, run, from).claims[key].nonce);
    }
  }

  /** Two successive grants of one key are separated by a release by the first holder's own nonce,
      or the second is a steal whose guard held against the first holder's row at that instant. */
  lemma GrantsAreSeparated(w: World, run: seq<Stmt>, key: string, i: nat, j: nat)
    requires i < j < |run|
    requires Grants(At(w, run, i), run[i], key) && Grants(At(w, run, j), run[j], key)
    requires forall m | i < m < j :: !Grants(At(w, run, m), run[m], key)
    ensures || (exists m | i < m < j :: ReleasedAt(w, run, m, key, run[i].row.nonce))
            || (&& run[j].Steal?
                && key in At(w, run, j).claims && SameLease(run[i].row, At(w, run, j).claims[key])
                && Stealable(At(w, run, j), At(w, run, j).claims[key], run[j].seat, run[j].row.seatNonce))
  {
    assert At(w, run, i + 1) == Exec(At(w, run, i), run[i]);
    assert At(w, run, i + 1).claims[key] == run[i].row;
    if forall m | i < m < j :: !ReleasedAt(w, run, m, key, run[i].row.nonce) {
      LeaseStays(w, run, key, i + 1, j);
    }
  }

  // ----- after losing the row -----

  ghost predicate HoldsNone(w: World, nonce: string) {
    forall k | k in w.claims :: w.claims[k].nonce != nonce
  }

  predicate ClaimsWith(s: Stmt, nonce: string) {
    (s.Insert? || s.Steal?) && s.row.nonce == nonce
  }

  /** A nonce that has lost its row, and does not claim again, never has one again: each of its later
      beats and releases matches nothing and changes nothing. */
  lemma {:induction false} LostStaysLost(w: World, run: seq<Stmt>, nonce: string, n: nat)
    requires n < |run| && HoldsNone(w, nonce)
    requires forall i | 0 <= i < n :: !ClaimsWith(run[i], nonce)
    ensures HoldsNone(At(w, run, n), nonce)
    ensures (run[n].Beat? || run[n].Release?) && run[n].nonce == nonce ==>
              !Hits(At(w, run, n), run[n]) && At(w, run, n + 1) == At(w, run, n)
  {
    if n > 0 {
      LostStaysLost(w, run, nonce, n - 1);
      assert !ClaimsWith(run[n - 1], nonce);
    }
    var here := At(w, run, n);
    assert At(w, run, n + 1) == Exec(here, run[n]);
    if (run[n].Beat? || run[n].Release?) && run[n].nonce == nonce {
      assert Exec(here, run[n]).claims == here.claims;
    }
  }

  /**
   When mail unseats a holder that beats in time and whose session is the register's: exactly when
   an unarchived letter it listens for, newer than its watermark, is between ten minutes and six
   hours old.
   */
  lemma OverdueMailIff(w: World, r: Row, seat: string, seatNonce: Option<string>)
    requires w.now <= r.lastBeat + 150 * SECOND
    requires forall s | s in w.seats && s.name == seat && s.nonce.Some? :: s.nonce == r.seatNonce
    ensures Stealable(w, r, seat, seatNonce) <==>
              exists m | m in w.mail :: m.to in r.listenSet && !m.archived
                && 600 * SECOND < w.now - m.createdAt < 6 * 3600 * SECOND
                && m.createdAt > (if r.fetchedThrough.Some? then r.fetchedThrough.value else r.claimedAt)
  {
  }

  // ----- tenure -----

  /** The three things a holder does to stay safe. */
  ghost predicate Diligent(w: World, r: Row, seat: string) {
    // its beats are at most EXPIRY apart
    && w.now <= r.lastBeat + EXPIRY
    // every seat row of the name that names a process names the one it serves
    && (forall s | s in w.seats && s.name == seat && s.nonce.Some? :: s.nonce == r.seatNonce)
    // its watermark covers the listened mail older than the grace that the mute check looks at
    && (forall m | m in w.mail && m.to in r.listenSet && !m.archived && m.createdAt < w.now - MUTE_GRACE ::
         m.createdAt <= Max(Watermark(r), w.now - MUTE_LOOKBACK))
  }

  /** No claimant whatever can steal from a holder exactly when the holder is diligent. */
  lemma DiligentIffSafe(w: World, r: Row, seat: string)
    ensures Diligent(w, r, seat) <==> forall seatNonce :: !Stealable(w, r, seat, seatNonce)
  {
    if !Diligent(w, r, seat) && !Stealable(w, r, seat, None) {
      var s :| s in w.seats && s.name == seat && s.nonce.Some? && s.nonce != r.seatNonce;
      assert FollowsSeat(w, r, seat, s.nonce) && Stealable(w, r, seat, s.nonce);
    }
  }

  predicate OwnBeat(s: Stmt, key: string, nonce: string) {
    s.Beat? && s.nonce == nonce && KeyMatches(s.seat, key)
  }

  // When the nonce last beat, given when it did at first.
  function LastBeat(w: World, run: seq<Stmt>, key: string, nonce: string, first: int, i: nat): int
    requires i <= |run|
    decreases i
  {
    if i == 0 then first
    else if OwnBeat(run[i - 1], key, nonce) then At(w, run, i - 1).now
    else LastBeat(w, run, key, nonce, first, i - 1)
  }

  /** A beat at least every 150 seconds. */
  ghost predicate Punctual(w: World, run: seq<Stmt>, key: string, nonce: string, first: int) {
    forall i | 0 <= i <= |run| :: At(w, run, i).now <= LastBeat(w, run, key, nonce, first, i) + EXPIRY
  }

  // The watermark covers what is listened to and already 450 seconds old: 600 less the time to the next beat.
  predicate Covers(mail: set<Mail>, listen: seq<string>, now: int, mark: int) {
    forall m | m in mail && m.to in listen && !m.archived && m.createdAt < now - (MUTE_GRACE - EXPIRY) :: m.createdAt <= mark
  }

  /** Each of its beats reports a watermark that covers. */
  ghost predicate Reports(w: World, run: seq<Stmt>, key: string, nonce: string, listen: seq<string>) {
    forall i | 0 <= i < |run| && OwnBeat(run[i], key, nonce) ::
      run[i].fetched.Some? && Covers(At(w, run, i).mail, listen, At(w, run, i).now, run[i].fetched.value)
  }

  // What the others do: mail is stamped when it arrives, every seat row of the name that names a
  // process names this one, claims of this key are for this seat, nobody releases in its name.
  ghost predicate Undisturbed(w: World, run: seq<Stmt>, key: string, seat: string, nonce: string, seatNonce: Option<string>) {
    && (forall i | 0 <= i < |run| && run[i].Other? ::
          forall m | m in run[i].mail && !m.archived :: m in At(w, run, i).mail || m.createdAt >= At(w, run, i).now)
    && (forall i | 0 <= i <= |run| :: SeatsAgree(At(w, run, i), seat, seatNonce))
    && (forall i | 0 <= i < |run| && run[i].Steal? && run[i].key == key :: run[i].seat == seat)
    && (forall i | 0 <= i < |run| :: !(run[i].Release? && run[i].nonce == nonce))
  }

  predicate SeatsAgree(w: World, seat: string, seatNonce: Option<string>) {
    forall s | s in w.seats && s.name == seat && s.nonce.Some? :: s.nonce == seatNonce
  }

  // What the beats have achieved so far.
  ghost predicate Tended(w: World, key: string, lease: Row, last: int) {
    && key in w.claims && SameLease(lease, w.claims[key]) && w.claims[key].lastBeat == last <= w.now
    && Covers(w.mail, lease.listenSet, last, Watermark(w.claims[key]))
  }

  lemma TendedIsDiligent(w: World, key: string, seat: string, lease: Row, last: int)
    requires Tended(w, key, lease, last) && w.now <= last + EXPIRY && SeatsAgree(w, seat, lease.seatNonce)
    ensures Diligent(w, w.claims[key], seat)
  {
    assert w.claims[key].listenSet == lease.listenSet && w.claims[key].seatNonce == lease.seatNonce;
  }

  lemma TendedStep(w: World, s: Stmt, key: string, seat: string, lease: Row, last: int)
    requires Tended(w, key, lease, last) && Diligent(w, w.claims[key], seat)
    requires s.Steal? && s.key == key ==> s.seat == seat
    requires !(s.Release? && s.nonce == lease.nonce)
    requires OwnBeat(s, key, lease.nonce) ==> s.fetched.Some? && Covers(w.mail, lease.listenSet, w.now, s.fetched.value)
    requires s.Other? ==> forall m | m in s.mail && !m.archived :: m in w.mail || m.createdAt >= w.now
    ensures Tended(Exec(w, s), key, lease, if OwnBeat(s, key, lease.nonce) then w.now else last)
    ensures OwnBeat(s, key, lease.nonce) ==> Hits(w, s)
  {
    assert w.claims[key].nonce == lease.nonce;
    DiligentIffSafe(w, w.claims[key], seat);
    hide Diligent, Stealable;
    match s
    case Beat(_, _, _) =>
    case Other(_, mail, _) =>
    case _ =>
  }

  lemma {:induction false} TendedRun(w: World, run: seq<Stmt>, key: string, seat: string, lease: Row, i: nat)
    requires i <= |run| && Tended(w, key, lease, lease.lastBeat)
    requires Punctual(w, run, key, lease.nonce, lease.lastBeat) && Reports(w, run, key, lease.nonce, lease.listenSet)
    requires Undisturbed(w, run, key, seat, lease.nonce, lease.seatNonce)
    ensures Tended(At(w, run, i), key, lease, LastBeat(w, run, key, lease.nonce, lease.lastBeat, i))
    ensures i > 0 && OwnBeat(run[i - 1], key, lease.nonce) ==> Hits(At(w, run, i - 1), run[i - 1])
    decreases i
  {
    if i > 0 {
      TendedRun(w, run, key, seat, lease, i - 1);
      var here := At(w, run, i - 1);
      var last := LastBeat(w, run, key, lease.nonce, lease.lastBeat, i - 1);
      assert here.now <= last + EXPIRY && SeatsAgree(here, seat, lease.seatNonce);
      TendedIsDiligent(here, key, seat, lease, last);
      assert !(run[i - 1].Release? && run[i - 1].nonce == lease.nonce);
      assert OwnBeat(run[i - 1], key, lease.nonce) ==>
               run[i - 1].fetched.Some? && Covers(here.mail, lease.listenSet, here.now, run[i - 1].fetched.value);
      hide Exec, Diligent, Covers, Tended;
      TendedStep(here, run[i - 1], key, seat, lease, last);
    }
  }

  /**
   A holder keeps the lease by its own beats: granted at some instant, beating at least every 150
   seconds, each beat reporting a watermark that covers the listened mail older than 450 seconds,
   it is displaced by nobody through any run, and every one of its beats is answered `holder`.
   */
  lemma BeatsKeepTheLease(w: World, run: seq<Stmt>, key: string, seat: string, lease: Row, i: nat)
    requires i <= |run| && key in w.claims && w.claims[key] == lease
    requires lease.fetchedThrough.None? && lease.claimedAt == lease.lastBeat <= w.now
    requires Punctual(w, run, key, lease.nonce, lease.lastBeat) && Reports(w, run, key, lease.nonce, lease.listenSet)
    requires Undisturbed(w, run, key, seat, lease.nonce, lease.seatNonce)
    ensures key in At(w, run, i).claims && SameLease(lease, At(w, run, i).claims[key])
    ensures i < |run| && OwnBeat(run[i], key, lease.nonce) ==> Hits(At(w, run, i), run[i])
  {
    assert Tended(w, key, lease, lease.lastBeat);
    TendedRun(w, run, key, seat, lease, i);
    if i < |run| {
      TendedRun(w, run, key, seat, lease, i + 1);
    }
  }

  // ----- the takeover bound -----

  // Rounding to a tenth of a second.
  function RoundTenth(t: int): int {
    (t + SECOND / 20) / (SECOND / 10) * (SECOND / 10)
  }

  lemma RoundKeeps(t: int)
    requires 5 * SECOND <= t <= EXPIRY
    ensures 5 * SECOND <= RoundTenth(t) <= EXPIRY
  {
    assert EXPIRY == 1500 * (SECOND / 10) && 5 * SECOND == 50 * (SECOND / 10);
  }

  // What a refused claimant is told, from the row it could not take.
  function RetryAfter(w: World, r: Row): (t: int)
    ensures 5 * SECOND <= t <= EXPIRY
  {
    var remaining := r.lastBeat + EXPIRY - w.now;
    var t := remaining + 2 * SECOND;
    var clamped := if t > EXPIRY then EXPIRY else if t < 5 * SECOND then 5 * SECOND else t;
    RoundKeeps(clamped);
    RoundTenth(clamped)
  }

  /** If the holder has gone silent, a claimant that retries exactly when told is refused at most twice,
      and its third attempt comes at most 155 seconds after the first refusal. */
  lemma TakeoverBound(w0: World, w1: World, w2: World, key: string, seat: string, seatNonce: Option<string>)
    requires key in w0.claims && key in w1.claims && key in w2.claims
    requires w0.claims[key] == w1.claims[key] == w2.claims[key]     // silent, and no rival
    requires w0.claims[key].lastBeat <= w0.now                      // beats are stamped by the same clock
    requires !Stealable(w0, w0.claims[key], seat, seatNonce)
    requires w1.now == w0.now + RetryAfter(w0, w0.claims[key])
    requires w2.now == w1.now + RetryAfter(w1, w1.claims[key])
    ensures || Stealable(w1, w1.claims[key], seat, seatNonce)
            || (Stealable(w2, w2.claims[key], seat, seatNonce) && w2.now <= w0.now + 155 * SECOND)
    ensures w1.now <= w0.now + EXPIRY
  {
    hide FollowsSeat, Mute, RetryAfter;
    var r := w0.claims[key];
    assert !Expired(w0, r);
    RetryOutlasts(w0, r);
    RetryOutlasts(w1, r);
  }

  // A retry comes after the expiry, unless the row was beaten at this very instant; then the next one is short.
  lemma RetryOutlasts(w: World, r: Row)
    ensures var remaining := r.lastBeat + EXPIRY - w.now;
            && (0 <= remaining < EXPIRY ==> remaining < RetryAfter(w, r))
            && (remaining == EXPIRY ==> RetryAfter(w, r) == EXPIRY)
            && (remaining <= 0 ==> RetryAfter(w, r) == 5 * SECOND)
  {
    RoundClose(r.lastBeat + EXPIRY - w.now + 2 * SECOND);
    RoundEnds();
    hide RoundTenth;
  }

  lemma RoundClose(t: int)
    ensures RoundTenth(t) > t - SECOND
  {
  }

  lemma RoundEnds()
    ensures RoundTenth(EXPIRY) == EXPIRY && RoundTenth(5 * SECOND) == 5 * SECOND
  {
    assert SECOND / 20 == 50000 && SECOND / 10 == 100000 && EXPIRY == 150000000;
    assert (150000000 + 50000) / 100000 == 1500;
    assert (5000000 + 50000) / 100000 == 50;
  }

  /** The bound is reached when the first attempt lands at the instant of a beat. */
  lemma TakeoverBoundIsTight(r: Row, w0: World, w1: World)
    requires r.lastBeat == w0.now && w1.now == w0.now + RetryAfter(w0, r)
    ensures !Expired(w1, r) && w1.now + RetryAfter(w1, r) == w0.now + 155 * SECOND
  {
    RoundEnds();
    hide RoundTenth;
    assert RetryAfter(w0, r) == EXPIRY;
  }

  // ----- what the register says -----

  datatype Status = Covered | Silent | Unheld

  function StatusOf(w: World, rows: set<Row>): Status {
    if rows == {} then Unheld
    else if exists r | r in rows :: r.lastBeat >= w.now - EXPIRY then Covered
    else Silent
  }

  /** `watch_status` and the lease agree: a seat reads covered exactly when its one claim has not expired,
      and a seat that reads silent is granted to whoever claims next. */
  lemma StatusAgrees(w: World, seat: string, seatNonce: Option<string>)
    requires seat !in EXEMPT
    ensures var rows := set k | k in w.claims && KeyMatches(seat, k) :: w.claims[k];
            var key := "watch/" + seat;
            && (StatusOf(w, rows) == Unheld <==> key !in w.claims)
            && (StatusOf(w, rows) == Covered <==> key in w.claims && !Expired(w, w.claims[key]))
            && (StatusOf(w, rows) == Silent ==> Stealable(w, w.claims[key], seat, seatNonce))
  {
    var rows := set k | k in w.claims && KeyMatches(seat, k) :: w.claims[k];
    var key := "watch/" + seat;
    if key in w.claims {
      assert rows == {w.claims[key]};
    } else {
      assert rows == {};
    }
  }

  lemma {:induction false} ClockRuns(w: World, run: seq<Stmt>, i: nat)
    requires i <= |run|
    ensures At(w, run, i).now >= w.now
    decreases i
  {
    if i > 0 { ClockRuns(w, run, i - 1); }
  }

  // A row as a claim at some time leaves it.
  ghost predicate NewLease(row: Row, nonce: string, seatNonce: Option<string>, listen: seq<string>, at: int) {
    && row.nonce == nonce && row.seatNonce == seatNonce && row.claimedAt == at && row.lastBeat == at && row.fetchedThrough == None
    && forall a :: a in row.listenSet <==> a in listen && a != ""
  }

  /**
   A new lease holds: until 150 seconds after the claim, while no letter it listens for that is
   newer than the claim has waited 600 seconds and every seat row of the name that names a process
   names its own, no claim of anybody steals it.
   */
  lemma NewLeaseHolds(w: World, key: string, seat: string, nonce: string, seatNonce: Option<string>, listen: seq<string>, at: int, rival: Row)
    requires key in w.claims && NewLease(w.claims[key], nonce, seatNonce, listen, at)
    requires w.now <= at + 150 * SECOND
    requires forall m | m in w.mail && m.to in listen && m.to != "" && !m.archived :: m.createdAt <= at || w.now - m.createdAt <= 600 * SECOND
    requires forall s | s in w.seats && s.name == seat && s.nonce.Some? :: s.nonce == seatNonce
    ensures !Hits(w, Steal(key, seat, rival)) && !Hits(w, Insert(key, rival))
  {
  }
}
