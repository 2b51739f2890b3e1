/**
 `seat_claim` as one call: continuity by session key, newest-wins behind a one-way door, the
 deliberate re-seat, and lowest-ordinal allocation.
 */
module SeatClaim {
  import opened Common
  import opened SeatLadder

  datatype Reply =
    | Granted(seat: string, isNew: bool, reclaimedFrom: Option<string>, renamedFrom: Option<string>, parked: Option<Reason>)
    | Exhausted

  // ----- the total order of continuity -----

  function Digits(s: string): (n: nat)
    requires forall i | 0 <= i < |s| :: IsDigit(s[i])
  {
    if s == "" then 0 else assert IsDigit(s[|s| - 1]); 10 * Digits(s[..|s| - 1]) + (s[|s| - 1] as int - '0' as int) as nat
  }

  function Ordinal(seat: string, base: string): nat {
    if seat == base then 1
    else if StartsWith(seat, base + "-") && AllDigits(seat[|base| + 1..]) then Digits(seat[|base| + 1..])
    else MAX_ORDINAL + 1
  }

  predicate LexLe(a: string, b: string) {
    a == "" || (b != "" && (a[0] < b[0] || (a[0] == b[0] && LexLe(a[1..], b[1..]))))
  }

  lemma {:induction false} LexTotal(a: string, b: string)
    ensures LexLe(a, b) || LexLe(b, a)
  {
    if a != "" && b != "" { LexTotal(a[1..], b[1..]); }
  }

  lemma {:induction false} LexAntisymmetric(a: string, b: string)
    requires LexLe(a, b) && LexLe(b, a)
    ensures a == b
  {
    if a != "" && b != "" {
      LexAntisymmetric(a[1..], b[1..]);
      assert a == [a[0]] + a[1..] && b == [b[0]] + b[1..];
    }
  }

  lemma {:induction false} LexTransitive(a: string, b: string, c: string)
    requires LexLe(a, b) && LexLe(b, c)
    ensures LexLe(a, c)
  {
    if a != "" && b != "" && c != "" && a[0] == b[0] == c[0] { LexTransitive(a[1..], b[1..], c[1..]); }
  }

  // Deliberately taken seats first, then by ordinal, then by name.
  predicate RankLe(seats: map<string, Seat>, base: string, s: string, t: string)
    requires s in seats && t in seats
  {
    if seats[s].runtime != seats[t].runtime then seats[s].runtime
    else if Ordinal(s, base) != Ordinal(t, base) then Ordinal(s, base) < Ordinal(t, base)
    else LexLe(s, t)
  }

  lemma RankTotal(seats: map<string, Seat>, base: string, s: string, t: string)
    requires s in seats && t in seats
    ensures RankLe(seats, base, s, t) || RankLe(seats, base, t, s)
    ensures RankLe(seats, base, s, t) && RankLe(seats, base, t, s) ==> s == t
  {
    LexTotal(s, t);
    if LexLe(s, t) && LexLe(t, s) { LexAntisymmetric(s, t); }
  }

  lemma RankTransitive(seats: map<string, Seat>, base: string, s: string, t: string, u: string)
    requires s in seats && t in seats && u in seats
    requires RankLe(seats, base, s, t) && RankLe(seats, base, t, u)
    ensures RankLe(seats, base, s, u)
  {
    if LexLe(s, t) && LexLe(t, u) { LexTransitive(s, t, u); }
  }

  ghost predicate IsFirst(seats: map<string, Seat>, base: string, among: set<string>, s: string) {
    && among <= seats.Keys && s in among
    && forall t | t in among :: RankLe(seats, base, s, t)
  }

  lemma FirstIsUnique(seats: map<string, Seat>, base: string, among: set<string>, s: string, t: string)
    requires IsFirst(seats, base, among, s) && IsFirst(seats, base, among, t)
    ensures s == t
  {
    RankTotal(seats, base, s, t);
  }

  lemma {:induction false} FirstExists(seats: map<string, Seat>, base: string, among: set<string>)
    requires among <= seats.Keys && among != {}
    ensures exists s :: IsFirst(seats, base, among, s)
    decreases |among|
  {
    var x :| x in among;
    var rest := among - {x};
    if rest == {} {
      RankTotal(seats, base, x, x);
      assert among == {x};
      assert IsFirst(seats, base, among, x);
    } else {
      FirstExists(seats, base, rest);
      var s :| IsFirst(seats, base, rest, s);
      RankTotal(seats, base, x, s);
      RankTotal(seats, base, x, x);
      if RankLe(seats, base, s, x) {
        assert IsFirst(seats, base, among, s);
      } else {
        forall t | t in among ensures RankLe(seats, base, x, t) {
          if t != x { RankTransitive(seats, base, x, s, t); }
        }
        assert IsFirst(seats, base, among, x);
      }
    }
  }

  ghost function First(seats: map<string, Seat>, base: string, among: set<string>): (s: string)
    requires among <= seats.Keys && among != {}
    ensures IsFirst(seats, base, among, s)
  {
    FirstExists(seats, base, among);
    var s :| IsFirst(seats, base, among, s);
    s
  }

  // ----- the rows a claimant can call its own -----

  function HeldBy(w: World, key: string): set<string> {
    set s | s in w.seats && w.seats[s].key == key
  }

  function Mine(w: World, key: string, nonce: string): set<string> {
    set s | s in w.seats && w.seats[s].key == key && w.seats[s].nonce == nonce
  }

  function LastEight(ns: seq<string>): (r: seq<string>)
    ensures |r| <= MAX_SUPERSEDED
  {
    if |ns| <= MAX_SUPERSEDED then ns else ns[|ns| - MAX_SUPERSEDED..]
  }

  // The row a claim writes: fresh metadata, so no certificate survives it.
  function Written(q: Request, superseded: seq<string>, runtime: bool, preferred: Option<string>, now: int, created: int): Seat {
    Seat(q.key, q.nonce, q.provider, q.host, preferred, LastEight(superseded), runtime, now, created, None)
  }

  // ----- continuity -----

  // The continuity row the claim is about.
  ghost function Holding(c: Config, w: World, q: Request): string
    requires HeldBy(w, q.key) != {}
    ensures Holding(c, w, q) in HeldBy(w, q.key)
  {
    First(w.seats, Base(c, q.provider),
          if Mine(w, q.key, q.nonce) != {} then Mine(w, q.key, q.nonce) else HeldBy(w, q.key))
  }

  /** A displaced process finds the door closed; one that still has a row of its own does not. */
  ghost predicate DoorClosed(c: Config, w: World, q: Request)
    requires HeldBy(w, q.key) != {}
  {
    Mine(w, q.key, q.nonce) == {} && q.nonce in w.seats[Holding(c, w, q)].superseded
  }

  // Newest wins: the row passes to the claimant and remembers whom it displaced.
  function Heir(c: Config, q: Request, row: Seat, seat: string, now: int): Seat {
    Written(q, if row.nonce != q.nonce then row.superseded + [row.nonce] else row.superseded,
            row.runtime || (q.runtime && Asked(c, q) == Some(seat)),
            if row.preferred.Some? then row.preferred
            else if Asked(c, q) == Some(Base(c, q.provider)) then None else Asked(c, q),
            now, row.created)
  }

  // Refresh the row, and free the claimant's own duplicates that hold no mail.
  function Refreshed(c: Config, w: World, q: Request, seat: string): World
    requires seat in w.seats
  {
    var dupes := set t | t in Mine(w, q.key, q.nonce) && t != seat && t !in w.mail;
    w.(seats := w.seats[seat := Heir(c, q, w.seats[seat], seat, w.now)] - dupes)
  }

  predicate WantsMove(c: Config, w: World, q: Request, seat: string) {
    q.runtime && q.preferred.Some? && q.preferred.value != seat && Mine(w, q.key, q.nonce) != {}
  }

  predicate CanMove(w: World, q: Request, target: string) {
    target in w.seats ==> w.seats[target].key == q.key
  }

  // Take the new name; free the old one unless mail waits there.
  function Moved(w: World, q: Request, seat: string, target: string): World
    requires seat in w.seats
  {
    var row := Written(q, w.seats[seat].superseded, true, Some(target), w.now,
                       if target in w.seats then w.seats[target].created else w.now);
    var seats := w.seats[target := row];
    w.(seats := if seat in w.mail then seats else seats - {seat})
  }

  function Kept(seat: string): Reply {
    Granted(seat, false, None, None, None)
  }

  ghost function Continued(c: Config, w: World, q: Request, seat: string): (World, Reply)
    requires seat in w.seats
  {
    if WantsMove(c, w, q, seat) && Reserved(c, q.preferred.value) then (w, Kept(seat))
    else if WantsMove(c, w, q, seat) && CanMove(w, q, q.preferred.value) then
      (Moved(w, q, seat, q.preferred.value), Granted(q.preferred.value, false, None, Some(seat), None))
    else (Refreshed(c, w, q, seat), Kept(seat))
  }

  // ----- allocation -----

  /** The first candidate that may be granted, in candidate order. */
  function FindGrant(c: Config, w: World, q: Request, names: seq<string>): (r: Option<string>)
    ensures r.None? <==> forall i :: 0 <= i < |names| ==> !Grantable(c, w, q, names[i])
    ensures r.Some? ==> exists i :: 0 <= i < |names| && names[i] == r.value && Grantable(c, w, q, names[i])
                                    && forall j :: 0 <= j < i ==> !Grantable(c, w, q, names[j])
  {
    if names == [] then None
    else if Grantable(c, w, q, names[0]) then
      assert names[0] == names[0];
      Some(names[0])
    else
      var rest := FindGrant(c, w, q, names[1..]);
      assert rest.None? ==> forall i :: 1 <= i < |names| ==> names[i] == names[1..][i - 1];
      assert rest.Some? ==> exists i :: 1 <= i < |names| && names[i] == rest.value && Grantable(c, w, q, names[i])
                                        && forall j :: 0 <= j < i ==> !Grantable(c, w, q, names[j]) by {
        if rest.Some? {
          var i :| 0 <= i < |names| - 1 && names[1..][i] == rest.value && Grantable(c, w, q, names[1..][i])
                   && forall j :: 0 <= j < i ==> !Grantable(c, w, q, names[1..][j]);
          assert names[i + 1] == rest.value;
          forall j | 0 <= j < i + 1 ensures !Grantable(c, w, q, names[j]) {
            if j > 0 { assert names[j] == names[1..][j - 1]; }
          }
        }
      }
      rest
  }

  function Occupied(c: Config, w: World, q: Request, seat: string): World {
    w.(seats := w.seats[seat := Written(q, [], q.runtime && Asked(c, q) == Some(seat), Distinct(c, q), w.now,
                                        if seat in w.seats then w.seats[seat].created else w.now)])
  }

  // Why the name asked for was passed over.
  function Parked(c: Config, w: World, q: Request, granted: string): Option<Reason> {
    if Distinct(c, q).Some? && Distinct(c, q).value != granted && Allocation(c, w, q, Distinct(c, q).value).Skip?
    then Some(Allocation(c, w, q, Distinct(c, q).value).reason) else None
  }

  function Allocated(c: Config, w: World, q: Request): (World, Reply) {
    var found := FindGrant(c, w, q, Candidates(c, q));
    if found.None? then (w, Exhausted)
    else
      var seat := found.value;
      (Occupied(c, w, q, seat),
       Granted(seat, true, if seat in w.seats then Some(w.seats[seat].key) else None, None, Parked(c, w, q, seat)))
  }

  ghost function Claimed(c: Config, w: World, q: Request): (World, Reply) {
    if (q.preferred.Some? && q.preferred.value in EXEMPT) || c.project in EXEMPT then
      (w, Kept(if q.preferred.Some? then q.preferred.value else c.project))
    else if HeldBy(w, q.key) != {} && !DoorClosed(c, w, q) then
      Continued(c, w, q, Holding(c, w, q))
    else Allocated(c, w, q)
  }

  ghost predicate Shared(c: Config, q: Request) {
    (q.preferred.Some? && q.preferred.value in EXEMPT) || c.project in EXEMPT
  }

  // ----- what one claim means -----

  /** A claim that is answered leaves the claimant's process holding the seat it was told. */
  lemma ClaimIsHeld(c: Config, w: World, q: Request)
    requires !Shared(c, q)
    ensures var (after, reply) := Claimed(c, w, q);
            && (reply.Granted? ==>
                  && reply.seat in Mine(after, q.key, q.nonce)
                  && (reply.isNew || reply.renamedFrom.Some? || HeldBy(w, q.key) != {}))
            && (reply.Exhausted? ==> after == w)
            && after.presence == w.presence && after.mail == w.mail && after.now == w.now
  {
  }

  /** One claim adds at most one row, and none when the process already has a seat and is not moving. */
  lemma ClaimAddsAtMostOne(c: Config, w: World, q: Request)
    ensures var (after, reply) := Claimed(c, w, q);
            && |after.seats.Keys - w.seats.Keys| <= 1
            && (HeldBy(w, q.key) != {} && !q.runtime && Mine(w, q.key, q.nonce) != {} ==> after.seats.Keys <= w.seats.Keys)
            && forall s | s in after.seats.Keys - w.seats.Keys :: reply.Granted? && reply.seat == s
  {
    var (after, reply) := Claimed(c, w, q);
    NewRowIsTheAnswer(c, w, q);
    hide Claimed;
    var added := after.seats.Keys - w.seats.Keys;
    CardinalityBound(added, if reply.Granted? then reply.seat else "");
  }

  lemma NewRowIsTheAnswer(c: Config, w: World, q: Request)
    ensures var (after, reply) := Claimed(c, w, q);
            && (forall s | s in after.seats && s !in w.seats :: reply.Granted? && reply.seat == s)
            && (HeldBy(w, q.key) != {} && !q.runtime && Mine(w, q.key, q.nonce) != {} ==> after.seats.Keys <= w.seats.Keys)
  {
  }

  lemma CardinalityBound(s: set<string>, x: string)
    requires s <= {x}
    ensures |s| <= 1
  {
    if x in s { assert s == {x}; } else { assert s == {}; }
  }

  /**
   A new seat is the lowest candidate that could be granted: it is no lane and no root, whatever
   stood there was certified dead or silent for seven days, and if mail is open there it went to
   the launch that named it.
   */
  lemma NewSeatIsLawful(c: Config, w: World, q: Request)
    requires var reply := Claimed(c, w, q).1; reply.Granted? && reply.isNew
    ensures var seat := Claimed(c, w, q).1.seat;
            var names := Candidates(c, q);
            && (exists k :: 0 <= k < |names| && names[k] == seat && forall j :: 0 <= j < k ==> !Grantable(c, w, q, names[j]))
            && !Reserved(c, seat)
            && (seat in w.seats ==> CertifiedDead(w.seats[seat]) || w.now - w.seats[seat].touched >= GRACE)
            && (seat !in w.seats ==> !Breathing(w, seat, q.nonce))
            && (seat in w.mail ==> Distinct(c, q) == Some(seat) && !q.runtime)
  {
    var names := Candidates(c, q);
    assert Claimed(c, w, q) == Allocated(c, w, q);
    hide Grantable, Candidates;
    var found := FindGrant(c, w, q, names);
    var k :| 0 <= k < |names| && names[k] == found.value && Grantable(c, w, q, names[k])
             && forall j :: 0 <= j < k ==> !Grantable(c, w, q, names[j]);
    GrantableIsLawful(c, w, q, names[k]);
  }

  lemma GrantableIsLawful(c: Config, w: World, q: Request, seat: string)
    requires Grantable(c, w, q, seat)
    ensures !Reserved(c, seat)
    ensures seat in w.seats ==> CertifiedDead(w.seats[seat]) || w.now - w.seats[seat].touched >= GRACE
    ensures seat !in w.seats ==> !Breathing(w, seat, q.nonce)
    ensures seat in w.mail ==> Distinct(c, q) == Some(seat) && !q.runtime
  {
    if seat in w.mail { OpenMailGoesToTheNamedHeir(c, w, q, seat); }
    if seat !in w.seats { NoRowAllocation(c, w, q, seat); }
  }

  /** One process, one seat: an ordinary claim leaves it the seat it is told and at most old rows that still hold mail. */
  lemma OneSeatPerProcess(c: Config, w: World, q: Request, s: string)
    requires !Shared(c, q) && !q.runtime && Claimed(c, w, q).1.Granted?
    ensures var (after, reply) := Claimed(c, w, q);
            s in Mine(after, q.key, q.nonce) <==> s == reply.seat || (s in Mine(w, q.key, q.nonce) && s in w.mail)
  {
    var (after, reply) := Claimed(c, w, q);
    if HeldBy(w, q.key) != {} && !DoorClosed(c, w, q) {
      assert after == Refreshed(c, w, q, reply.seat) && reply.seat in w.seats;
      hide Claimed, Continued;
      RefreshedRows(c, w, q, reply.seat, s);
    } else {
      assert after == Occupied(c, w, q, reply.seat);
      assert forall t | t in Mine(w, q.key, q.nonce) :: t in HeldBy(w, q.key);
      assert Mine(w, q.key, q.nonce) == {};
      hide Claimed, Allocated;
      OccupiedRows(c, w, q, reply.seat, s);
    }
  }

  lemma RefreshedRows(c: Config, w: World, q: Request, seat: string, s: string)
    requires seat in w.seats
    ensures s in Mine(Refreshed(c, w, q, seat), q.key, q.nonce) <==>
              s == seat || (s in Mine(w, q.key, q.nonce) && s in w.mail)
  {
    var after := Refreshed(c, w, q, seat);
    assert after.seats[seat].key == q.key && after.seats[seat].nonce == q.nonce;
    assert s != seat ==> (s in after.seats <==> s in w.seats && !(s in Mine(w, q.key, q.nonce) && s !in w.mail));
    assert s != seat && s in after.seats ==> after.seats[s] == w.seats[s];
  }

  lemma OccupiedRows(c: Config, w: World, q: Request, seat: string, s: string)
    ensures s in Mine(Occupied(c, w, q, seat), q.key, q.nonce) <==> s == seat || s in Mine(w, q.key, q.nonce)
  {
    var after := Occupied(c, w, q, seat);
    assert after.seats[seat].key == q.key && after.seats[seat].nonce == q.nonce;
    assert s != seat ==> (s in after.seats <==> s in w.seats) && (s in w.seats ==> after.seats[s] == w.seats[s]);
  }

  /** A deliberate re-seat is exact or refused: the process gets the name and frees the old one unless mail waits there, or keeps what it had. */
  lemma ReseatIsExactOrRefused(c: Config, w: World, q: Request, target: string)
    requires !Shared(c, q) && q.runtime && q.preferred == Some(target) && Mine(w, q.key, q.nonce) != {}
    requires target != Holding(c, w, q)
    ensures var (after, reply) := Claimed(c, w, q);
            var seat := Holding(c, w, q);
            if !Reserved(c, target) && (target !in w.seats || w.seats[target].key == q.key)
            then && reply == Granted(target, false, None, Some(seat), None)
                 && target in Mine(after, q.key, q.nonce)
                 && after.seats[target]
                    == Seat(q.key, q.nonce, q.provider, q.host, Some(target), LastEight(w.seats[seat].superseded), true, w.now,
                            if target in w.seats then w.seats[target].created else w.now, None)
                 && (seat in after.seats <==> seat in w.mail)
            else && reply == Kept(seat) && seat in Mine(after, q.key, q.nonce)
                 && (target in w.seats && w.seats[target].key != q.key ==> target in after.seats && after.seats[target] == w.seats[target])
  {
  }

  /**
   What a claim does to a row that is not the claimant's key's: nothing, unless allocation takes
   it over, which needs a certificate for its occupant or seven days of silence.
   */
  lemma OthersRowsAreSafe(c: Config, w: World, q: Request, s: string)
    requires s in w.seats && w.seats[s].key != q.key
    ensures var (after, reply) := Claimed(c, w, q);
            && s in after.seats
            && (after.seats[s] != w.seats[s] ==>
                  && reply.Granted? && reply.seat == s && reply.isNew && reply.reclaimedFrom == Some(w.seats[s].key)
                  && Grantable(c, w, q, s)
                  && (CertifiedDead(w.seats[s]) || w.now - w.seats[s].touched >= GRACE))
  {
    if Allocation(c, w, q, s).Free? && !CertifiedDead(w.seats[s]) && w.now - w.seats[s].touched < GRACE {
      RecentRowIsKept(c, w, q, s);
      assert false;
    }
  }

  /**
   The one-way door.  A process displaced from a seat is answered with it again exactly when it
   deliberately re-seats onto it by name from another row of its own; no ordinary claim does it,
   while the row still remembers displacing it, is uncertified and was touched within seven days.
   */
  lemma OneWayDoor(c: Config, w: World, q: Request, s: string)
    requires !Shared(c, q)
    requires s in w.seats && w.seats[s].key == q.key && w.seats[s].nonce != q.nonce
    requires q.nonce in w.seats[s].superseded
    requires !CertifiedDead(w.seats[s]) && w.now - w.seats[s].touched < GRACE
    ensures var (after, reply) := Claimed(c, w, q);
            var reseats := q.runtime && q.preferred == Some(s) && Mine(w, q.key, q.nonce) != {} && !Reserved(c, s);
            && (reply.Granted? && reply.seat == s <==> reseats)
            && (!reseats ==> s in after.seats && after.seats[s] == w.seats[s])
  {
    RecentRowIsKept(c, w, q, s);
    assert s in HeldBy(w, q.key) && s !in Mine(w, q.key, q.nonce);
    if Mine(w, q.key, q.nonce) == {} && Holding(c, w, q) == s {
      assert DoorClosed(c, w, q);
    }
  }

  // ----- the same in plain names and fields -----

  // None of the names a claim may be given is grantable.
  ghost predicate NothingGrantable(c: Config, w: World, q: Request) {
    && (forall p :: Distinct(c, q) == Some(p) ==> !Grantable(c, w, q, p))
    && (forall n | 1 <= n <= 64 :: !Grantable(c, w, q, Nth(c.project + "-" + q.provider, n)))
  }

  // The seat is the preference, or the n-th of its provider with nothing before it grantable.
  ghost predicate LowestGrantable(c: Config, w: World, q: Request, seat: string) {
    || Distinct(c, q) == Some(seat)
    || (&& (forall p :: Distinct(c, q) == Some(p) ==> !Grantable(c, w, q, p))
        && exists n :: 1 <= n <= 64 && seat == Nth(c.project + "-" + q.provider, n)
                       && forall m :: 1 <= m < n ==> !Grantable(c, w, q, Nth(c.project + "-" + q.provider, m)))
  }

  // Where the n-th seat stands among the candidates.
  lemma CandidateIndex(c: Config, q: Request, n: nat)
    requires 1 <= n <= 64
    ensures var names := Candidates(c, q);
            var first := if Distinct(c, q).Some? then 1 else 0;
            && |names| == first + 64 && names[first + n - 1] == Nth(c.project + "-" + q.provider, n)
            && (first == 1 ==> names[0] == Distinct(c, q).value)
  {
  }

  /**
   Lowest first: a new seat is the grantable preference, or else the lowest of base, base-2 to
   base-64 that is grantable; and a claim is exhausted exactly when it has no row to continue and
   none of these names is grantable.
   */
  lemma NewSeatIsLowest(c: Config, w: World, q: Request)
    ensures var reply := Claimed(c, w, q).1;
            && (reply.Granted? && reply.isNew ==> Grantable(c, w, q, reply.seat) && LowestGrantable(c, w, q, reply.seat))
            && (reply.Exhausted? <==>
                  !Shared(c, q) && (HeldBy(w, q.key) == {} || DoorClosed(c, w, q)) && NothingGrantable(c, w, q))
  {
    FoundIsLowest(c, w, q);
    hide Grantable, Candidates, Distinct, LowestGrantable, NothingGrantable, FindGrant, Refreshed, Moved, Written, Allocation;
  }

  lemma FoundIsLowest(c: Config, w: World, q: Request)
    ensures var found := FindGrant(c, w, q, Candidates(c, q));
            && (found.None? <==> NothingGrantable(c, w, q))
            && (found.Some? ==> Grantable(c, w, q, found.value) && LowestGrantable(c, w, q, found.value))
  {
    CandidateIndex(c, q, 1);
    hide Grantable, Candidates, Nth;
    var names := Candidates(c, q);
    var first := if Distinct(c, q).Some? then 1 else 0;
    forall n: nat | 1 <= n <= 64 ensures names[first + n - 1] == Nth(c.project + "-" + q.provider, n) {
      CandidateIndex(c, q, n);
    }
    AllocatedIsLowest(c, w, q, first);
  }

  lemma AllocatedIsLowest(c: Config, w: World, q: Request, first: nat)
    requires first == if Distinct(c, q).Some? then 1 else 0
    requires var names := Candidates(c, q);
             && |names| == first + 64 && (first == 1 ==> names[0] == Distinct(c, q).value)
             && forall n: nat | 1 <= n <= 64 :: names[first + n - 1] == Nth(c.project + "-" + q.provider, n)
    ensures var found := FindGrant(c, w, q, Candidates(c, q));
            && (found.None? <==> NothingGrantable(c, w, q))
            && (found.Some? ==> Grantable(c, w, q, found.value) && LowestGrantable(c, w, q, found.value))
  {
    hide Grantable, Candidates, Distinct, Nth;
    var names := Candidates(c, q);
    var found := FindGrant(c, w, q, names);
    if found.Some? {
      var k :| 0 <= k < |names| && names[k] == found.value && Grantable(c, w, q, names[k])
               && forall j :: 0 <= j < k ==> !Grantable(c, w, q, names[j]);
      if k >= first {
        var n := k - first + 1;
        assert found.value == names[first + n - 1] == Nth(c.project + "-" + q.provider, n);
        forall m | 1 <= m < n ensures !Grantable(c, w, q, Nth(c.project + "-" + q.provider, m)) {
          assert names[first + m - 1] == Nth(c.project + "-" + q.provider, m);
        }
        if first == 1 { assert !Grantable(c, w, q, names[0]); }
      }
    } else {
      forall n | 1 <= n <= 64 ensures !Grantable(c, w, q, Nth(c.project + "-" + q.provider, n)) {
        assert names[first + n - 1] == Nth(c.project + "-" + q.provider, n);
      }
      if first == 1 { assert !Grantable(c, w, q, names[0]); }
    }
    if NothingGrantable(c, w, q) {
      forall i | 0 <= i < |names| ensures !Grantable(c, w, q, names[i]) {
        if i >= first { assert names[i] == Nth(c.project + "-" + q.provider, i - first + 1); }
      }
    }
  }

  /** A new row holds the claimant and what it asked for, remembers nobody, carries no certificate, and keeps the age of a row it took over. */
  lemma NewRowHolds(c: Config, w: World, q: Request)
    requires Claimed(c, w, q).1.Granted? && Claimed(c, w, q).1.isNew
    ensures var (after, reply) := Claimed(c, w, q);
            && reply.seat in after.seats
            && after.seats[reply.seat]
               == Seat(q.key, q.nonce, q.provider, q.host, Distinct(c, q), [], q.runtime && q.preferred == Some(reply.seat), w.now,
                       if reply.seat in w.seats then w.seats[reply.seat].created else w.now, None)
            && reply.reclaimedFrom == (if reply.seat in w.seats then Some(w.seats[reply.seat].key) else None)
            && (forall s | s != reply.seat :: (s in after.seats <==> s in w.seats) && (s in w.seats ==> after.seats[s] == w.seats[s]))
            && (reply.parked.Some? ==> Distinct(c, q).Some? && Distinct(c, q) != Some(reply.seat)
                                       && Allocation(c, w, q, Distinct(c, q).value) == Skip(reply.parked.value))
            && (Distinct(c, q).Some? && Distinct(c, q) != Some(reply.seat) && Allocation(c, w, q, Distinct(c, q).value).Skip? ==>
                  reply.parked.Some?)
  {
    hide Grantable, Allocation, Candidates;
  }

  /**
   A refresh writes the claimant's process over the row and keeps what belongs to the seat: its
   age, a deliberate choice, the preference first recorded; the list gains the displaced process
   at its end and drops from its front what exceeds eight.
   */
  lemma RefreshHolds(c: Config, w: World, q: Request, s: string)
    requires !Shared(c, q) && !q.runtime && Claimed(c, w, q).1 == Kept(s)
    ensures var after := Claimed(c, w, q).0;
            && s in w.seats && s in after.seats
            && var was := w.seats[s];
               var row := after.seats[s];
               var names := if was.nonce == q.nonce then was.superseded else was.superseded + [was.nonce];
               && row.key == q.key && row.nonce == q.nonce && row.provider == q.provider && row.host == q.host
               && row.touched == w.now && row.cert == None && row.created == was.created && row.runtime == was.runtime
               && row.preferred == (if was.preferred.Some? then was.preferred else Distinct(c, q))
               && row.superseded == if |names| <= 8 then names else names[|names| - 8..]
  {
  }

  lemma {:induction false} DigitsOfDecimal(n: nat)
    ensures AllDigits(Decimal(n)) && Digits(Decimal(n)) == n
    decreases n
  {
    var s := Decimal(n);
    if n >= 10 {
      DigitsOfDecimal(n / 10);
      assert s[..|s| - 1] == Decimal(n / 10);
    } else {
      assert s[..|s| - 1] == "";
    }
  }

  lemma OrdinalOfNth(base: string, n: nat)
    requires n >= 1
    ensures Ordinal(Nth(base, n), base) == n
  {
    if n > 1 {
      DigitsOfDecimal(n);
      var seat := Nth(base, n);
      assert seat[|base| + 1..] == Decimal(n);
      assert seat[..|base| + 1] == base + "-";
    }
  }

  /** Among the rows it may continue a claim takes a deliberately chosen one first, and else the lowest numbered. */
  lemma HoldingIsLowest(c: Config, w: World, q: Request, t: string, m: nat, n: nat)
    requires HeldBy(w, q.key) != {}
    requires t in if Mine(w, q.key, q.nonce) != {} then Mine(w, q.key, q.nonce) else HeldBy(w, q.key)
    ensures var s := Holding(c, w, q);
            var base := c.project + "-" + q.provider;
            && (w.seats[t].runtime ==> w.seats[s].runtime)
            && (1 <= m && 1 <= n && s == Nth(base, m) && t == Nth(base, n) && w.seats[s].runtime == w.seats[t].runtime ==> m <= n)
            && (Mine(w, q.key, q.nonce) != {} ==> w.seats[s].nonce == q.nonce)
  {
    var base := c.project + "-" + q.provider;
    if m >= 1 { OrdinalOfNth(base, m); }
    if n >= 1 { OrdinalOfNth(base, n); }
    assert RankLe(w.seats, base, Holding(c, w, q), t);
  }

  /** The shared role is answered with itself and no table changes; nobody else is. */
  lemma SharedRoleIsAnswered(c: Config, w: World, q: Request)
    ensures Shared(c, q) <==> q.preferred == Some("admin") || c.project == "admin"
    ensures Shared(c, q) ==> Claimed(c, w, q) == (w, Granted(if q.preferred.Some? then q.preferred.value else c.project, false, None, None, None))
  {
  }
}
