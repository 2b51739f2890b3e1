/** What holds over whole runs of the seat registry, with calls atomic. */
module SeatHistory {
  import opened Common
  import opened SeatLadder
  import opened SeatClaim
  import opened SeatRelease

  datatype Op =
    | Claim(q: Request)
    | Release(key: string, nonce: string, certain: bool, shown: Option<string>)
    | Certify(seat: string, cert: Cert)
    | Beat(name: string, beater: Option<string>)
    | WatcherBeat(name: string)
    | Mail(name: string, open: bool)
    | Elapse(time: nat)

  ghost function Apply(c: Config, w: World, op: Op): World {
    match op
    case Claim(q) => Claimed(c, w, q).0
    case Release(key, nonce, certain, shown) => Released(w, key, nonce, certain, shown)
    case Certify(seat, cert) => Certified(w, seat, cert)
    case Beat(name, beater) => Beaten(w, name, beater)
    case WatcherBeat(name) => WatcherBeaten(w, name)
    case Mail(name, open) => w.(mail := if open then w.mail + {name} else w.mail - {name})
    case Elapse(time) => w.(now := w.now + time)
  }

  ghost function At(c: Config, w: World, run: seq<Op>, i: nat): World
    requires i <= |run|
    decreases i
  {
    if i == 0 then w else Apply(c, At(c, w, run, i - 1), run[i - 1])
  }

  // ----- clocks -----

  predicate Sane(w: World) {
    && (forall s | s in w.seats :: w.seats[s].touched <= w.now && w.seats[s].created <= w.now && |w.seats[s].superseded| <= MAX_SUPERSEDED)
    && (forall s | s in w.presence :: w.presence[s].touched <= w.now)
    && (forall s, n | s in w.presence && n in w.presence[s].sessions :: w.presence[s].sessions[n] <= w.presence[s].touched)
  }

  lemma StepKeepsSane(c: Config, w: World, op: Op)
    requires Sane(w)
    ensures Sane(Apply(c, w, op)) && Apply(c, w, op).now >= w.now
  {
    if op.Claim? {
      ClaimKeepsSane(c, w, op.q);
    } else {
      hide Claimed;
    }
  }

  lemma ClaimKeepsSane(c: Config, w: World, q: Request)
    requires Sane(w)
    ensures Sane(Claimed(c, w, q).0) && Claimed(c, w, q).0.now == w.now
  {
  }

  lemma {:induction false} RunKeepsSane(c: Config, w: World, run: seq<Op>, i: nat)
    requires Sane(w) && i <= |run|
    ensures Sane(At(c, w, run, i)) && At(c, w, run, i).now >= w.now
  {
    AtZero(c, w, run);
    hide *;
    if i > 0 {
      RunKeepsSane(c, w, run, i - 1);
      AtNext(c, w, run, i - 1);
      StepKeepsSane(c, At(c, w, run, i - 1), run[i - 1]);
    }
  }

  // ----- one process keeps one seat -----

  datatype Process = Process(key: string, nonce: string, provider: string)

  ghost predicate IsClaimBy(op: Op, p: Process) {
    op.Claim? && op.q.key == p.key && op.q.nonce == p.nonce
  }

  // The process makes only ordinary claims, always as the same provider.
  ghost predicate Ordinary(c: Config, op: Op, p: Process) {
    IsClaimBy(op, p) ==> !op.q.runtime && op.q.provider == p.provider && !Shared(c, op.q)
  }

  function Rows(w: World, p: Process): set<string> {
    Mine(w, p.key, p.nonce)
  }

  ghost predicate Pinned(c: Config, w: World, p: Process, s: string) {
    IsFirst(w.seats, Base(c, p.provider), Rows(w, p), s)
  }

  // Only its own claims give a process rows, and no step changes a row it keeps as far as continuity can tell.
  lemma OthersGiveNothing(c: Config, w: World, op: Op, p: Process)
    requires !IsClaimBy(op, p)
    ensures Rows(Apply(c, w, op), p) <= Rows(w, p)
    ensures forall s | s in Rows(Apply(c, w, op), p) :: Apply(c, w, op).seats[s].runtime == w.seats[s].runtime
  {
    if op.Claim? {
      StrangersClaim(c, w, op.q, p);
    } else {
      hide Claimed;
    }
  }

  lemma StrangersClaim(c: Config, w: World, q: Request, p: Process)
    requires q.key != p.key || q.nonce != p.nonce
    ensures forall s | s in Rows(Claimed(c, w, q).0, p) :: s in Rows(w, p) && Claimed(c, w, q).0.seats[s].runtime == w.seats[s].runtime
  {
  }

  lemma OwnClaim(c: Config, w: World, op: Op, p: Process)
    requires IsClaimBy(op, p) && Ordinary(c, op, p)
    ensures var (after, reply) := Claimed(c, w, op.q);
            && (Rows(w, p) != {} ==>
                  && reply == Kept(First(w.seats, Base(c, p.provider), Rows(w, p)))
                  && reply.seat in Rows(after, p) && Rows(after, p) <= Rows(w, p)
                  && after.seats.Keys <= w.seats.Keys
                  && forall s | s in Rows(after, p) :: after.seats[s].runtime == w.seats[s].runtime)
            && (Rows(w, p) == {} && reply.Granted? ==> Rows(after, p) == {reply.seat})
            && (Rows(w, p) == {} && reply.Exhausted? ==> after == w)
  {
  }

  lemma PinnedSubset(c: Config, w: World, v: World, p: Process, s: string)
    requires Pinned(c, w, p, s) && s in Rows(v, p) && Rows(v, p) <= Rows(w, p)
    requires forall t | t in Rows(v, p) :: v.seats[t].runtime == w.seats[t].runtime
    ensures Pinned(c, v, p, s)
  {
  }

  lemma StepKeepsPinned(c: Config, w: World, op: Op, p: Process, s: string)
    requires Pinned(c, w, p, s) && Ordinary(c, op, p)
    requires s in Rows(Apply(c, w, op), p)
    ensures Pinned(c, Apply(c, w, op), p, s)
    ensures IsClaimBy(op, p) ==> Claimed(c, w, op.q).1 == Kept(s)
  {
    if IsClaimBy(op, p) {
      OwnClaim(c, w, op, p);
      FirstIsUnique(w.seats, Base(c, p.provider), Rows(w, p), s, First(w.seats, Base(c, p.provider), Rows(w, p)));
    } else {
      OthersGiveNothing(c, w, op, p);
    }
    hide Apply;
    PinnedSubset(c, w, Apply(c, w, op), p, s);
  }

  ghost predicate AllOrdinary(c: Config, run: seq<Op>, p: Process) {
    forall k | 0 <= k < |run| :: Ordinary(c, run[k], p)
  }

  ghost predicate KeepsRow(c: Config, w: World, run: seq<Op>, p: Process, s: string, i: nat, j: nat)
    requires i <= j <= |run|
  {
    forall k | i <= k <= j :: s in Rows(At(c, w, run, k), p)
  }

  lemma KeepsRowAt(c: Config, w: World, run: seq<Op>, p: Process, s: string, i: nat, j: nat, k: nat)
    requires i <= k <= j <= |run| && KeepsRow(c, w, run, p, s, i, j)
    ensures s in Rows(At(c, w, run, k), p) && KeepsRow(c, w, run, p, s, i, k)
  {
  }

  lemma AtZero(c: Config, w: World, run: seq<Op>)
    ensures At(c, w, run, 0) == w
  {
  }

  lemma OrdinaryAt(c: Config, run: seq<Op>, p: Process, k: nat)
    requires k < |run| && AllOrdinary(c, run, p)
    ensures Ordinary(c, run[k], p)
  {
  }

  lemma AtNext(c: Config, w: World, run: seq<Op>, k: nat)
    requires k < |run|
    ensures At(c, w, run, k + 1) == Apply(c, At(c, w, run, k), run[k])
  {
  }

  lemma {:induction false} RunKeepsPinned(c: Config, w: World, run: seq<Op>, p: Process, s: string, i: nat, j: nat)
    requires i <= j <= |run| && AllOrdinary(c, run, p) && KeepsRow(c, w, run, p, s, i, j)
    requires Pinned(c, At(c, w, run, i), p, s)
    ensures Pinned(c, At(c, w, run, j), p, s)
    decreases j
  {
    hide *;
    if i < j {
      OrdinaryAt(c, run, p, j - 1);
      AtNext(c, w, run, j - 1);
      KeepsRowAt(c, w, run, p, s, i, j, j);
      KeepsRowAt(c, w, run, p, s, i, j, j - 1);
      RunKeepsPinned(c, w, run, p, s, i, j - 1);
      StepKeepsPinned(c, At(c, w, run, j - 1), run[j - 1], p, s);
    }
  }

  /**
   Claim stability: once an ordinary claim of a process is answered with a seat, every later
   ordinary claim of it that finds the row still its own is answered with the same seat, whatever
   anyone else did in between, and leaves the row its own.
   */
  lemma ClaimsAreStable(c: Config, w: World, run: seq<Op>, p: Process, i: nat, j: nat, s: string)
    requires i < j < |run| && AllOrdinary(c, run, p)
    requires IsClaimBy(run[i], p) && IsClaimBy(run[j], p)
    requires Answered(Answer(c, w, run, i), s)
    requires KeepsRow(c, w, run, p, s, i + 1, j)
    ensures Answer(c, w, run, j) == Kept(s) && s in Rows(At(c, w, run, j + 1), p)
  {
    hide At, Apply, Claimed, AllOrdinary, Ordinary, KeepsRow, Pinned, Rows;
    OrdinaryAt(c, run, p, i);
    AtNext(c, w, run, i);
    ClaimPins(c, At(c, w, run, i), run[i], p);
    ClaimOnPinned(c, w, run, p, s, i + 1, j);
  }

  // What the claim at step k is told.
  ghost function Answer(c: Config, w: World, run: seq<Op>, k: nat): Reply
    requires k < |run| && run[k].Claim?
  {
    Claimed(c, At(c, w, run, k), run[k].q).1
  }

  predicate Answered(r: Reply, s: string) {
    r.Granted? && r.seat == s
  }

  lemma ClaimOnPinned(c: Config, w: World, run: seq<Op>, p: Process, s: string, i: nat, j: nat)
    requires i <= j < |run| && AllOrdinary(c, run, p) && KeepsRow(c, w, run, p, s, i, j)
    requires IsClaimBy(run[j], p) && Pinned(c, At(c, w, run, i), p, s)
    ensures Answer(c, w, run, j) == Kept(s) && s in Rows(At(c, w, run, j + 1), p)
  {
    hide *;
    RunKeepsPinned(c, w, run, p, s, i, j);
    OrdinaryAt(c, run, p, j);
    AtNext(c, w, run, j);
    PinnedClaimKeeps(c, At(c, w, run, j), run[j], p, s);
    AnswerIs(c, w, run, p, j);
  }

  lemma AnswerIs(c: Config, w: World, run: seq<Op>, p: Process, k: nat)
    requires k < |run| && IsClaimBy(run[k], p)
    ensures run[k].Claim? && Answer(c, w, run, k) == Claimed(c, At(c, w, run, k), run[k].q).1
  {
  }

  lemma PinnedClaimKeeps(c: Config, w: World, op: Op, p: Process, s: string)
    requires IsClaimBy(op, p) && Ordinary(c, op, p) && Pinned(c, w, p, s)
    ensures op.Claim? && Claimed(c, w, op.q).1 == Kept(s) && s in Rows(Apply(c, w, op), p)
  {
    OwnClaim(c, w, op, p);
    FirstIsUnique(w.seats, Base(c, p.provider), Rows(w, p), s, First(w.seats, Base(c, p.provider), Rows(w, p)));
  }

  lemma ClaimPins(c: Config, w: World, op: Op, p: Process)
    requires IsClaimBy(op, p) && Ordinary(c, op, p) && Claimed(c, w, op.q).1.Granted?
    ensures Pinned(c, Apply(c, w, op), p, Claimed(c, w, op.q).1.seat)
  {
    var (after, reply) := Claimed(c, w, op.q);
    OwnClaim(c, w, op, p);
    hide Claimed;
    if Rows(w, p) != {} {
      PinnedSubset(c, w, after, p, reply.seat);
    } else {
      RankTotal(after.seats, Base(c, p.provider), reply.seat, reply.seat);
    }
  }

  // ----- what a lost row costs -----

  // Rows the process's own claims have added.
  ghost function Burned(c: Config, w: World, run: seq<Op>, p: Process, i: nat): nat
    requires i <= |run|
    decreases i
  {
    if i == 0 then 0
    else Burned(c, w, run, p, i - 1)
         + (if IsClaimBy(run[i - 1], p) then Gained(At(c, w, run, i - 1), At(c, w, run, i)) else 0)
  }

  // How many rows appeared.
  function Gained(before: World, after: World): nat {
    |after.seats.Keys - before.seats.Keys|
  }

  // Times the process was left without a row by someone else's step, or its own release.
  ghost function Losses(c: Config, w: World, run: seq<Op>, p: Process, i: nat): nat
    requires i <= |run|
    decreases i
  {
    if i == 0 then 0
    else Losses(c, w, run, p, i - 1)
         + (if Rows(At(c, w, run, i - 1), p) != {} && Rows(At(c, w, run, i), p) == {} then 1 else 0)
  }

  function Seatless(w: World, p: Process): nat {
    if Rows(w, p) == {} then 1 else 0
  }

  /**
   Heartbeats burn no ordinals: over any run a process's ordinary claims add at most one row for
   each time it lost its seat, and one more if it started without.
   */
  lemma {:induction false} OneRowPerLoss(c: Config, w: World, run: seq<Op>, p: Process, i: nat)
    requires i <= |run| && AllOrdinary(c, run, p)
    ensures Burned(c, w, run, p, i) + Seatless(At(c, w, run, i), p) <= Losses(c, w, run, p, i) + Seatless(w, p)
    decreases i
  {
    AtZero(c, w, run);
    NoTally(c, w, run, p);
    hide *;
    if i > 0 {
      OneRowPerLoss(c, w, run, p, i - 1);
      OrdinaryAt(c, run, p, i - 1);
      NextTally(c, w, run, p, i);
    }
  }

  lemma NoTally(c: Config, w: World, run: seq<Op>, p: Process)
    ensures Burned(c, w, run, p, 0) == 0 && Losses(c, w, run, p, 0) == 0
  {
  }

  lemma NextTally(c: Config, w: World, run: seq<Op>, p: Process, i: nat)
    requires 0 < i <= |run| && Ordinary(c, run[i - 1], p)
    ensures Burned(c, w, run, p, i) + Seatless(At(c, w, run, i), p) - Losses(c, w, run, p, i)
            <= Burned(c, w, run, p, i - 1) + Seatless(At(c, w, run, i - 1), p) - Losses(c, w, run, p, i - 1)
  {
    hide *;
    TallySums(c, w, run, p, i);
    AtNext(c, w, run, i - 1);
    RowsOfStep(c, At(c, w, run, i - 1), run[i - 1], p);
    LossOf(At(c, w, run, i - 1), At(c, w, run, i), p);
  }

  lemma TallySums(c: Config, w: World, run: seq<Op>, p: Process, i: nat)
    requires 0 < i <= |run|
    ensures Burned(c, w, run, p, i) == Burned(c, w, run, p, i - 1)
              + (if IsClaimBy(run[i - 1], p) then Gained(At(c, w, run, i - 1), At(c, w, run, i)) else 0)
    ensures Losses(c, w, run, p, i) == Losses(c, w, run, p, i - 1)
              + (if Rows(At(c, w, run, i - 1), p) != {} && Rows(At(c, w, run, i), p) == {} then 1 else 0)
  {
    hide At, IsClaimBy, Rows;
  }

  lemma LossOf(v: World, after: World, p: Process)
    ensures Seatless(after, p) <= Seatless(v, p) + (if Rows(v, p) != {} && Rows(after, p) == {} then 1 else 0)
  {
  }

  lemma RowsOfStep(c: Config, w: World, op: Op, p: Process)
    requires Ordinary(c, op, p)
    ensures var after := Apply(c, w, op);
            if IsClaimBy(op, p) then
              Gained(w, after) + Seatless(after, p) <= Seatless(w, p)
            else Seatless(w, p) <= Seatless(after, p)
  {
    if IsClaimBy(op, p) {
      OwnClaim(c, w, op, p);
      ClaimAddsAtMostOne(c, w, op.q);
      hide Claimed;
      if Rows(w, p) != {} || Claimed(c, w, op.q).1.Exhausted? {
        assert Apply(c, w, op).seats.Keys - w.seats.Keys == {};
      }
    } else {
      OthersGiveNothing(c, w, op, p);
    }
  }

  // ----- the door over a run -----

  // The row remembers displacing the process, at most `depth` entries from the end.
  ghost predicate Remembers(row: Seat, nonce: string, depth: nat) {
    exists i :: 0 <= i < |row.superseded| && row.superseded[i] == nonce && |row.superseded| - i <= depth
  }

  // The successor's row stands: same key, not the displaced process, no certificate, recent.
  ghost predicate Stands(w: World, s: string, key: string) {
    && s in w.seats && w.seats[s].key == key
    && !CertifiedDead(w.seats[s]) && w.now - w.seats[s].touched < GRACE
  }

  // Nobody of the key deliberately re-seats onto the name.
  ghost predicate NoReseatOnto(c: Config, op: Op, key: string, s: string) {
    op.Claim? && op.q.key == key ==> !(op.q.runtime && op.q.preferred == Some(s)) && !Shared(c, op.q)
  }

  // A run, as the worlds between its calls.
  ghost predicate IsRun(c: Config, trace: seq<World>, run: seq<Op>) {
    |trace| == |run| + 1 && forall k | 0 <= k < |run| :: trace[k + 1] == Apply(c, trace[k], run[k])
  }

  lemma RunNext(c: Config, trace: seq<World>, run: seq<Op>, k: nat)
    requires IsRun(c, trace, run) && k < |run|
    ensures trace[k + 1] == Apply(c, trace[k], run[k])
  {
  }

  // How often the seat has passed to another process so far.
  ghost function Displacements(trace: seq<World>, s: string, i: nat): nat
    requires i < |trace|
    decreases i
  {
    if i == 0 then 0
    else Displacements(trace, s, i - 1) + (if Passed(trace[i - 1], trace[i], s) then 1 else 0)
  }

  predicate Passed(a: World, b: World, s: string) {
    s in a.seats && s in b.seats && a.seats[s].nonce != b.seats[s].nonce
  }

  lemma ShiftDepth(superseded: seq<string>, last: string, nonce: string, row: Seat, depth: nat)
    requires row.superseded == LastEight(superseded + [last])
    requires exists i :: 0 <= i < |superseded| && superseded[i] == nonce && |superseded| - i <= depth
    requires depth < MAX_SUPERSEDED
    ensures Remembers(row, nonce, depth + 1)
  {
    var i :| 0 <= i < |superseded| && superseded[i] == nonce && |superseded| - i <= depth;
    var whole := superseded + [last];
    assert whole[i] == nonce;
    if |whole| > MAX_SUPERSEDED {
      var k := i - (|whole| - MAX_SUPERSEDED);
      assert row.superseded[k] == whole[i];
    }
  }

  lemma DoorStep(c: Config, w: World, op: Op, s: string, key: string, gone: string, depth: nat)
    requires Stands(w, s, key) && w.seats[s].nonce != gone && Remembers(w.seats[s], gone, depth)
    requires depth <= MAX_SUPERSEDED && |w.seats[s].superseded| <= MAX_SUPERSEDED
    requires NoReseatOnto(c, op, key, s)
    requires s in Apply(c, w, op).seats
    requires Apply(c, w, op).seats[s].nonce != w.seats[s].nonce ==> depth < MAX_SUPERSEDED
    ensures var row := Apply(c, w, op).seats[s];
            && row.key == key && row.nonce != gone && |row.superseded| <= MAX_SUPERSEDED
            && Remembers(row, gone, if row.nonce == w.seats[s].nonce then depth else depth + 1)
  {
    var i :| 0 <= i < |w.seats[s].superseded| && w.seats[s].superseded[i] == gone && |w.seats[s].superseded| - i <= depth;
    if op.Claim? {
      var q := op.q;
      if q.key != key {
        OthersRowsAreSafe(c, w, q, s);
      } else if q.nonce == gone {
        OneWayDoor(c, w, q, s);
      } else {
        DoorClaim(c, w, q, s, gone, depth);
      }
    }
  }

  // A claim of the same key by a process that is not the displaced one.
  lemma DoorClaim(c: Config, w: World, q: Request, s: string, gone: string, depth: nat)
    requires Stands(w, s, q.key) && q.nonce != gone && w.seats[s].nonce != gone && Remembers(w.seats[s], gone, depth)
    requires depth <= MAX_SUPERSEDED && |w.seats[s].superseded| <= MAX_SUPERSEDED
    requires !(q.runtime && q.preferred == Some(s)) && !Shared(c, q)
    requires var after := Claimed(c, w, q).0;
             s in after.seats && (after.seats[s].nonce != w.seats[s].nonce ==> depth < MAX_SUPERSEDED)
    ensures var row := Claimed(c, w, q).0.seats[s];
            && row.key == q.key && row.nonce != gone && |row.superseded| <= MAX_SUPERSEDED
            && Remembers(row, gone, if row.nonce == w.seats[s].nonce then depth else depth + 1)
  {
    RecentRowIsKept(c, w, q, s);
    var row := Claimed(c, w, q).0.seats[s];
    var i :| 0 <= i < |w.seats[s].superseded| && w.seats[s].superseded[i] == gone && |w.seats[s].superseded| - i <= depth;
    if row != w.seats[s] {
      assert row == Heir(c, q, w.seats[s], s, w.now);
      if w.seats[s].nonce != q.nonce {
        ShiftDepth(w.seats[s].superseded, w.seats[s].nonce, gone, row, depth);
      } else {
        assert row.superseded == w.seats[s].superseded;
      }
    }
  }

  /** A newest-wins claim records the process it displaces as the last one the row remembers. */
  lemma DisplacementIsRecorded(c: Config, w: World, q: Request, s: string)
    requires !Shared(c, q) && !q.runtime && s in w.seats && w.seats[s].key == q.key && w.seats[s].nonce != q.nonce
    requires Answered(Claimed(c, w, q).1, s) && !Claimed(c, w, q).1.isNew
    ensures var after := Claimed(c, w, q).0;
            && s in after.seats && after.seats[s].key == q.key && after.seats[s].nonce == q.nonce
            && Remembers(after.seats[s], w.seats[s].nonce, 1) && |after.seats[s].superseded| <= MAX_SUPERSEDED
            && after.seats[s].touched == after.now && !CertifiedDead(after.seats[s])
  {
    var row := Claimed(c, w, q).0.seats[s];
    assert row == Heir(c, q, w.seats[s], s, w.now);
    var whole := w.seats[s].superseded + [w.seats[s].nonce];
    assert whole[|whole| - 1] == w.seats[s].nonce;
    assert row.superseded[|row.superseded| - 1] == w.seats[s].nonce;
  }

  ghost predicate Standing(trace: seq<World>, s: string, key: string, i: nat)
    requires i < |trace|
  {
    forall k | 0 <= k <= i :: Stands(trace[k], s, key)
  }

  lemma StandingAt(trace: seq<World>, s: string, key: string, i: nat, k: nat)
    requires k <= i < |trace| && Standing(trace, s, key, i)
    ensures Stands(trace[k], s, key) && Standing(trace, s, key, k)
  {
  }

  ghost predicate NoReseats(c: Config, run: seq<Op>, key: string, s: string) {
    forall k | 0 <= k < |run| :: NoReseatOnto(c, run[k], key, s)
  }

  // The row is not the displaced process's and still remembers it.
  ghost predicate Door(w: World, s: string, gone: string, depth: nat) {
    && s in w.seats && w.seats[s].nonce != gone && |w.seats[s].superseded| <= MAX_SUPERSEDED
    && Remembers(w.seats[s], gone, depth)
  }

  lemma DoorNext(c: Config, w: World, op: Op, s: string, key: string, gone: string, depth: nat)
    requires Door(w, s, gone, depth) && Stands(w, s, key) && Stands(Apply(c, w, op), s, key)
    requires NoReseatOnto(c, op, key, s)
    requires depth + (if Apply(c, w, op).seats[s].nonce != w.seats[s].nonce then 1 else 0) <= MAX_SUPERSEDED
    ensures Door(Apply(c, w, op), s, gone, depth + (if Apply(c, w, op).seats[s].nonce != w.seats[s].nonce then 1 else 0))
  {
    hide Apply;
    DoorStep(c, w, op, s, key, gone, depth);
  }

  lemma DisplacementsNext(trace: seq<World>, s: string, key: string, i: nat)
    requires 0 < i < |trace| && Stands(trace[i - 1], s, key) && Stands(trace[i], s, key)
    ensures Displacements(trace, s, i)
            == Displacements(trace, s, i - 1) + (if trace[i].seats[s].nonce != trace[i - 1].seats[s].nonce then 1 else 0)
  {
  }

  lemma NoReseatsAt(c: Config, run: seq<Op>, key: string, s: string, k: nat)
    requires k < |run| && NoReseats(c, run, key, s)
    ensures NoReseatOnto(c, run[k], key, s)
  {
  }

  lemma {:induction false} DoorRun(c: Config, trace: seq<World>, run: seq<Op>, s: string, key: string, gone: string, i: nat)
    requires IsRun(c, trace, run) && i <= |run| && Standing(trace, s, key, i) && NoReseats(c, run, key, s)
    requires Door(trace[0], s, gone, 1)
    requires Displacements(trace, s, i) < MAX_SUPERSEDED
    ensures Door(trace[i], s, gone, 1 + Displacements(trace, s, i))
    decreases i
  {
    hide *;
    RunLength(c, trace, run);
    DisplacementsZero(trace, s);
    if i > 0 {
      StandingAt(trace, s, key, i, i);
      StandingAt(trace, s, key, i, i - 1);
      DisplacementsNext(trace, s, key, i);
      DoorRun(c, trace, run, s, key, gone, i - 1);
      DoorAdvance(c, trace, run, s, key, gone, i - 1);
    }
  }

  lemma DoorAdvance(c: Config, trace: seq<World>, run: seq<Op>, s: string, key: string, gone: string, i: nat)
    requires IsRun(c, trace, run) && i < |run| && NoReseats(c, run, key, s)
    requires Stands(trace[i], s, key) && Stands(trace[i + 1], s, key)
    requires Displacements(trace, s, i + 1) < MAX_SUPERSEDED
    requires Door(trace[i], s, gone, 1 + Displacements(trace, s, i))
    ensures Door(trace[i + 1], s, gone, 1 + Displacements(trace, s, i + 1))
  {
    hide *;
    RunLength(c, trace, run);
    DisplacementsNext(trace, s, key, i + 1);
    StandsHasRow(trace[i], s, key);
    StandsHasRow(trace[i + 1], s, key);
    RunNext(c, trace, run, i);
    NoReseatsAt(c, run, key, s, i);
    DoorNext(c, trace[i], run[i], s, key, gone, 1 + Displacements(trace, s, i));
  }

  lemma StandsHasRow(w: World, s: string, key: string)
    requires Stands(w, s, key)
    ensures s in w.seats
  {
  }

  lemma RunLength(c: Config, trace: seq<World>, run: seq<Op>)
    requires IsRun(c, trace, run)
    ensures |trace| == |run| + 1
  {
  }

  lemma DisplacementsZero(trace: seq<World>, s: string)
    requires trace != []
    ensures Displacements(trace, s, 0) == 0
  {
  }

  /**
   The one-way door over a run, from just after the displacing claim: while the successor's row
   stands and fewer than eight processes have been displaced from it since, no ordinary claim of
   the displaced process is answered with the seat, and no beat at the name puts that process
   into the presence map that collisions are counted from.
   */
  lemma DisplacedStaysOut(c: Config, trace: seq<World>, run: seq<Op>, s: string, key: string, gone: string, i: nat)
    requires IsRun(c, trace, run) && i < |run| && Standing(trace, s, key, i) && NoReseats(c, run, key, s)
    requires Door(trace[0], s, gone, 1)
    requires Displacements(trace, s, i) < MAX_SUPERSEDED
    ensures run[i].Claim? && run[i].q.key == key && run[i].q.nonce == gone && !run[i].q.runtime ==>
              !Answered(Claimed(c, trace[i], run[i].q).1, s)
    ensures run[i].Beat? && run[i].name == s ==>
              s in trace[i + 1].presence && gone !in trace[i + 1].presence[s].sessions
  {
    hide *;
    RunLength(c, trace, run);
    StandingAt(trace, s, key, i, i);
    NoReseatsAt(c, run, key, s, i);
    DoorRun(c, trace, run, s, key, gone, i);
    RunNext(c, trace, run, i);
    DoorKeepsOut(c, trace[i], run[i], s, key, gone, 1 + Displacements(trace, s, i));
  }

  lemma DoorKeepsOut(c: Config, v: World, op: Op, s: string, key: string, gone: string, depth: nat)
    requires Door(v, s, gone, depth) && Stands(v, s, key) && NoReseatOnto(c, op, key, s)
    ensures op.Claim? && op.q.key == key && op.q.nonce == gone && !op.q.runtime ==> !Answered(Claimed(c, v, op.q).1, s)
    ensures op.Beat? && op.name == s ==>
              s in Apply(c, v, op).presence && gone !in Apply(c, v, op).presence[s].sessions
  {
    assert gone in v.seats[s].superseded;
    if op.Claim? && op.q.key == key && op.q.nonce == gone && !op.q.runtime {
      OneWayDoor(c, v, op.q, s);
    }
  }

  // ----- after a release -----

  // Nobody beats at the name or mails it.
  predicate LeavesName(op: Op, s: string) {
    match op
    case Beat(name, _) => name != s
    case WatcherBeat(name) => name != s
    case Mail(name, open) => name != s || !open
    case _ => true
  }

  ghost predicate LeftAlone(run: seq<Op>, s: string, i: nat)
    requires i <= |run|
  {
    forall k | 0 <= k < i :: LeavesName(run[k], s)
  }

  // The release stamp is no older than anyone's beat at the name.
  predicate SaidGoodbye(w: World, s: string) {
    && s in w.presence && w.presence[s].releasedAt.Some? && w.presence[s].releasedAt.value >= w.presence[s].touched
    && s !in w.mail
  }

  lemma GoodbyeStep(c: Config, w: World, op: Op, s: string)
    requires Sane(w) && SaidGoodbye(w, s) && LeavesName(op, s)
    ensures SaidGoodbye(Apply(c, w, op), s)
  {
  }

  lemma {:induction false} GoodbyeRun(c: Config, w: World, run: seq<Op>, s: string, i: nat)
    requires i <= |run| && Sane(w) && SaidGoodbye(w, s) && LeftAlone(run, s, i)
    ensures SaidGoodbye(At(c, w, run, i), s)
    decreases i
  {
    AtZero(c, w, run);
    hide *;
    if i > 0 {
      LeftAloneBefore(run, s, i);
      GoodbyeRun(c, w, run, s, i - 1);
      RunKeepsSane(c, w, run, i - 1);
      AtNext(c, w, run, i - 1);
      GoodbyeStep(c, At(c, w, run, i - 1), run[i - 1], s);
    }
  }

  lemma LeftAloneBefore(run: seq<Op>, s: string, i: nat)
    requires 0 < i <= |run| && LeftAlone(run, s, i)
    ensures LeftAlone(run, s, i - 1) && LeavesName(run[i - 1], s)
  {
  }

  /**
   After a stamped release of an unreserved name, and any run in which nobody beats at it or
   mails it, the next claim that reaches the name while it has no row is granted it.
   */
  lemma ReleasedNameIsNext(c: Config, w: World, key: string, nonce: string, s: string, run: seq<Op>, q: Request)
    requires Sane(w) && s in Mine(w, key, nonce) && s in w.presence && NamesAlone(w.presence[s], nonce)
    requires s !in w.mail && !Reserved(c, s)
    requires LeftAlone(run, s, |run|)
    requires var v := At(c, Released(w, key, nonce, true, Some(s)), run, |run|);
             s !in v.seats && Reaches(c, v, q, s)
    ensures Answered(Claimed(c, At(c, Released(w, key, nonce, true, Some(s)), run, |run|), q).1, s)
  {
    var w1 := Released(w, key, nonce, true, Some(s));
    ReleaseSaysGoodbye(w, key, nonce, s);
    hide *;
    GoodbyeRun(c, w1, run, s, |run|);
    GoodbyeIsGrantable(c, At(c, w1, run, |run|), q, s);
    ReachedIsGranted(c, At(c, w1, run, |run|), q, s);
  }

  lemma ReleaseSaysGoodbye(w: World, key: string, nonce: string, s: string)
    requires Sane(w) && s in Mine(w, key, nonce) && s in w.presence && NamesAlone(w.presence[s], nonce) && s !in w.mail
    ensures Sane(Released(w, key, nonce, true, Some(s))) && SaidGoodbye(Released(w, key, nonce, true, Some(s)), s)
  {
  }

  lemma GoodbyeIsGrantable(c: Config, v: World, q: Request, s: string)
    requires SaidGoodbye(v, s) && s !in v.seats && !Reserved(c, s)
    ensures Grantable(c, v, q, s)
  {
    assert !Breathing(v, s, q.nonce);
    NoRowAllocation(c, v, q, s);
  }

  // The claim gets as far as this candidate in its allocation.
  ghost predicate Reaches(c: Config, w: World, q: Request, s: string) {
    && !Shared(c, q) && (HeldBy(w, q.key) != {} ==> DoorClosed(c, w, q))
    && exists i :: 0 <= i < |Candidates(c, q)| && Candidates(c, q)[i] == s
                   && forall j :: 0 <= j < i ==> !Grantable(c, w, q, Candidates(c, q)[j])
  }

  lemma ReachedIsGranted(c: Config, w: World, q: Request, s: string)
    requires Reaches(c, w, q, s) && Grantable(c, w, q, s)
    ensures Answered(Claimed(c, w, q).1, s)
  {
    var names := Candidates(c, q);
    var i :| 0 <= i < |names| && names[i] == s && forall j :: 0 <= j < i ==> !Grantable(c, w, q, names[j]);
    hide Grantable, Candidates;
    var found := FindGrant(c, w, q, names);
    assert found.Some? by { assert Grantable(c, w, q, names[i]); }
    var k :| 0 <= k < |names| && names[k] == found.value && Grantable(c, w, q, names[k])
             && forall j :: 0 <= j < k ==> !Grantable(c, w, q, names[j]);
    assert k == i;
  }

  // ----- after an inferred release -----

  // A beat at the name that is not another process's: the claimant's own, or anonymous.
  predicate NotOthers(beater: Option<string>, claimant: string) {
    beater == None || beater == Some(claimant)
  }

  // When somebody other than the claimant last beat at the name, given when that was at first.
  function LastOther(trace: seq<World>, run: seq<Op>, s: string, claimant: string, first: int, i: nat): int
    requires i <= |run| && i <= |trace|
    decreases i
  {
    if i == 0 then first
    else if run[i - 1].Beat? && run[i - 1].name == s && !NotOthers(run[i - 1].beater, claimant) then trace[i - 1].now
    else LastOther(trace, run, s, claimant, first, i - 1)
  }

  /**
   Nobody else is left on record: nobody was at first, or the claimant, or an anonymous beat, came
   to the name when the last beat of anyone else there was already 300 seconds old; and nobody
   else has beaten since.
   */
  predicate Lapsed(trace: seq<World>, run: seq<Op>, s: string, claimant: string, alone: bool, first: int, i: nat)
    requires i <= |run| && i <= |trace|
    decreases i
  {
    if i == 0 then alone
    else if run[i - 1].Beat? && run[i - 1].name == s then
      NotOthers(run[i - 1].beater, claimant)
      && (Lapsed(trace, run, s, claimant, alone, first, i - 1)
          || trace[i - 1].now - LastOther(trace, run, s, claimant, first, i - 1) >= COLLISION_WINDOW)
    else Lapsed(trace, run, s, claimant, alone, first, i - 1)
  }

  /** The goodbye no longer counts: a beat rebuilt the row, or the watcher's beat is newer than the stamp. */
  predicate Voided(trace: seq<World>, run: seq<Op>, s: string, never: bool, stamp: int, i: nat)
    requires i <= |run| && i <= |trace|
    decreases i
  {
    if i == 0 then never
    else || Voided(trace, run, s, never, stamp, i - 1)
         || (run[i - 1].Beat? && run[i - 1].name == s)
         || (run[i - 1].WatcherBeat? && run[i - 1].name == s && trace[i - 1].now > stamp)
  }

  // What the presence row says: of the others, nothing once lapsed, else their latest beat; and of the goodbye.
  ghost predicate Tells(w: World, s: string, claimant: string, lapsed: bool, last: int, voided: bool, stamp: int) {
    && s in w.presence && s !in w.seats && last <= w.presence[s].touched <= w.now
    && (if voided then w.presence[s].releasedAt.Some? ==> w.presence[s].releasedAt.value < w.presence[s].touched
        else w.presence[s].releasedAt == Some(stamp) && w.presence[s].touched <= stamp)
    && (forall n | n in w.presence[s].sessions && n != claimant :: !lapsed && w.presence[s].sessions[n] <= last)
    && (!lapsed ==> exists n | n in w.presence[s].sessions :: n != claimant && w.presence[s].sessions[n] == last)
  }

  lemma TellsStep(c: Config, w: World, op: Op, s: string, claimant: string, lapsed: bool, last: int, voided: bool, stamp: int)
    requires Tells(w, s, claimant, lapsed, last, voided, stamp) && s !in Apply(c, w, op).seats
    ensures var v := Apply(c, w, op);
            var other := op.Beat? && op.name == s && !NotOthers(op.beater, claimant);
            var own := op.Beat? && op.name == s && NotOthers(op.beater, claimant);
            Tells(v, s, claimant, if other then false else lapsed || (own && w.now - last >= COLLISION_WINDOW),
                  if other then w.now else last,
                  voided || other || own || (op.WatcherBeat? && op.name == s && w.now > stamp), stamp)
  {
    match op
    case Beat(name, beater) =>
      if name == s {
        assert Superseded(w, s) == {} && Sessions(w, s) == w.presence[s].sessions;
        if !NotOthers(beater, claimant) {
          assert beater.value in Apply(c, w, op).presence[s].sessions;
        } else if !lapsed {
          var n :| n in w.presence[s].sessions && n != claimant && w.presence[s].sessions[n] == last;
          assert w.now - last < COLLISION_WINDOW ==> n in Apply(c, w, op).presence[s].sessions;
        }
      }
    case Claim(q) => ClaimKeepsPresence(c, w, q);
    case _ => hide Claimed;
  }

  lemma ClaimKeepsPresence(c: Config, w: World, q: Request)
    ensures Claimed(c, w, q).0.presence == w.presence && Claimed(c, w, q).0.now == w.now
  {
  }

  ghost predicate Rowless(trace: seq<World>, s: string) {
    forall k | 0 <= k < |trace| :: s !in trace[k].seats
  }

  lemma {:induction false} TellsRun(c: Config, trace: seq<World>, run: seq<Op>, s: string, claimant: string,
                                    alone: bool, first: int, never: bool, stamp: int, i: nat)
    requires IsRun(c, trace, run) && |trace| == |run| + 1 && i <= |run| && Rowless(trace, s)
    requires Tells(trace[0], s, claimant, alone, first, never, stamp)
    ensures Tells(trace[i], s, claimant, Lapsed(trace, run, s, claimant, alone, first, i), LastOther(trace, run, s, claimant, first, i),
                  Voided(trace, run, s, never, stamp, i), stamp)
    ensures first <= LastOther(trace, run, s, claimant, first, i)
    decreases i
  {
    hide IsRun, Rowless, Tells, Apply;
    if i > 0 {
      var lapsed := Lapsed(trace, run, s, claimant, alone, first, i - 1);
      var last := LastOther(trace, run, s, claimant, first, i - 1);
      var voided := Voided(trace, run, s, never, stamp, i - 1);
      TellsRun(c, trace, run, s, claimant, alone, first, never, stamp, i - 1);
      RunNext(c, trace, run, i - 1);
      RowlessAt(trace, s, i);
      TellsStep(c, trace[i - 1], run[i - 1], s, claimant, lapsed, last, voided, stamp);
      TellsClock(trace[i - 1], s, claimant, lapsed, last, voided, stamp);
    }
  }

  lemma TellsClock(w: World, s: string, claimant: string, lapsed: bool, last: int, voided: bool, stamp: int)
    requires Tells(w, s, claimant, lapsed, last, voided, stamp)
    ensures last <= w.now
  {
  }

  // Who may take a rowless name, from what its presence row tells.
  lemma TellsBreathing(w: World, s: string, claimant: string, lapsed: bool, last: int, voided: bool, stamp: int)
    requires Tells(w, s, claimant, lapsed, last, voided, stamp)
    ensures Breathing(w, s, claimant) <==> voided && !lapsed && w.now - last < LIVE
  {
  }

  lemma RowlessAt(trace: seq<World>, s: string, k: nat)
    requires k < |trace| && Rowless(trace, s)
    ensures s !in trace[k].seats
  {
  }

  // At the release: `breather` is the latest other process recorded there, and nothing is stamped.
  ghost predicate StillBreathing(w: World, s: string, claimant: string, breather: string) {
    && s in w.presence && breather in w.presence[s].sessions && breather != claimant
    && w.presence[s].touched <= w.now
    && (forall n | n in w.presence[s].sessions && n != claimant :: w.presence[s].sessions[n] <= w.presence[s].sessions[breather])
    && w.presence[s].sessions[breather] <= w.presence[s].touched
    && !(w.presence[s].releasedAt.Some? && w.presence[s].releasedAt.value >= w.presence[s].touched)
  }

  /**
   After an inferred release of a name where another process still beats, and any run in which
   the name has no row: for 600 seconds from that recorded beat the unreserved, mailless name is
   parked to a claimant if and only if it has not lapsed, that is unless a beat of the claimant's
   own, or an anonymous one, came 300 seconds after everyone else's last.
   */
  lemma InferredReleaseParksIff(c: Config, w: World, key: string, nonce: string, shown: Option<string>,
                                trace: seq<World>, run: seq<Op>, q: Request, s: string, breather: string)
    requires IsRun(c, trace, run) && |trace| == |run| + 1 && trace[0] == Released(w, key, nonce, false, shown)
    requires StillBreathing(w, s, q.nonce, breather) && Rowless(trace, s)
    requires trace[|run|].now - w.presence[s].sessions[breather] < LIVE
    requires !Reserved(c, s) && s !in trace[|run|].mail
    ensures Allocation(c, trace[|run|], q, s)
            == if Lapsed(trace, run, s, q.nonce, false, w.presence[s].sessions[breather], |run|) then Free else Skip(LiveNoRow)
  {
    var first := w.presence[s].sessions[breather];
    RowlessAt(trace, s, 0);
    assert Tells(trace[0], s, q.nonce, false, first, true, 0);
    RowlessAt(trace, s, |run|);
    VoidedStays(trace, run, s, 0, |run|);
    hide IsRun, Rowless, Released, Tells, Lapsed, LastOther, Voided;
    TellsRun(c, trace, run, s, q.nonce, false, first, true, 0, |run|);
    TellsBreathing(trace[|run|], s, q.nonce, Lapsed(trace, run, s, q.nonce, false, first, |run|),
                   LastOther(trace, run, s, q.nonce, first, |run|), true, 0);
    NoRowAllocation(c, trace[|run|], q, s);
  }

  lemma {:induction false} VoidedStays(trace: seq<World>, run: seq<Op>, s: string, stamp: int, i: nat)
    requires i <= |run| && i <= |trace|
    ensures Voided(trace, run, s, true, stamp, i)
    decreases i
  {
    if i > 0 { VoidedStays(trace, run, s, stamp, i - 1); }
  }

  // The released process is recorded there, and is not the claimant.
  predicate LeavesARecord(w: World, s: string, nonce: string, claimant: string) {
    s in w.presence && nonce in w.presence[s].sessions && nonce != claimant
  }

  // Its last recorded beat.
  function LastBeatAt(w: World, s: string, nonce: string): int
    requires s in w.presence
  {
    if nonce in w.presence[s].sessions then w.presence[s].sessions[nonce] else w.presence[s].touched
  }

  /**
   After a stamped release, and any run in which the name has no row, exactly when the unreserved,
   mailless name is refused to a claimant: a beat or a newer watcher's beat has voided the goodbye,
   and the latest beat on record there of anyone else, the released process included, is under 600
   seconds old and has not lapsed.  Otherwise it is free.
   */
  lemma StampedReleaseFreesIff(c: Config, w: World, key: string, nonce: string, trace: seq<World>, run: seq<Op>, q: Request, s: string)
    requires Sane(w) && s in Mine(w, key, nonce) && s in w.presence && NamesAlone(w.presence[s], nonce)
    requires IsRun(c, trace, run) && |trace| == |run| + 1 && trace[0] == Released(w, key, nonce, true, Some(s))
    requires Rowless(trace, s) && !Reserved(c, s) && s !in trace[|run|].mail
    ensures var alone := !LeavesARecord(w, s, nonce, q.nonce);
            var first := LastBeatAt(w, s, nonce);
            var refused := && Voided(trace, run, s, false, w.now, |run|)
                           && !Lapsed(trace, run, s, q.nonce, alone, first, |run|)
                           && trace[|run|].now - LastOther(trace, run, s, q.nonce, first, |run|) < LIVE;
            Allocation(c, trace[|run|], q, s) == if refused then Skip(LiveNoRow) else Free
  {
    var alone := !LeavesARecord(w, s, nonce, q.nonce);
    var first := LastBeatAt(w, s, nonce);
    RowlessAt(trace, s, 0);
    RowlessAt(trace, s, |run|);
    ReleaseTells(w, key, nonce, s, q.nonce);
    hide IsRun, Rowless, Released, Tells, Lapsed, LastOther, Voided, Sane, LeavesARecord, LastBeatAt;
    TellsRun(c, trace, run, s, q.nonce, alone, first, false, w.now, |run|);
    TellsBreathing(trace[|run|], s, q.nonce, Lapsed(trace, run, s, q.nonce, alone, first, |run|),
                   LastOther(trace, run, s, q.nonce, first, |run|), Voided(trace, run, s, false, w.now, |run|), w.now);
    NoRowAllocation(c, trace[|run|], q, s);
  }

  lemma ReleaseTells(w: World, key: string, nonce: string, s: string, claimant: string)
    requires Sane(w) && s in Mine(w, key, nonce) && s in w.presence && NamesAlone(w.presence[s], nonce)
    ensures Tells(Released(w, key, nonce, true, Some(s)), s, claimant, !LeavesARecord(w, s, nonce, claimant), LastBeatAt(w, s, nonce),
                  false, w.now)
  {
  }

  /**
   It does lapse: a live process's last beat is between 300 and 600 seconds old when its row is
   released by inference; a newcomer beats at the name, which was parked to it, and may take it.
   */
  lemma NewcomerOutwaitsTheLiving(c: Config, w: World, key: string, nonce: string, shown: Option<string>,
                                  q: Request, s: string, breather: string)
    requires StillBreathing(w, s, q.nonce, breather) && s !in w.mail && !Reserved(c, s)
    requires s !in Released(w, key, nonce, false, shown).seats
    requires COLLISION_WINDOW <= w.now - w.presence[s].sessions[breather] < LIVE
    ensures var w1 := Released(w, key, nonce, false, shown);
            && Allocation(c, w1, q, s) == Skip(LiveNoRow)
            && Grantable(c, Apply(c, w1, Beat(s, Some(q.nonce))), q, s)
  {
    var w1 := Released(w, key, nonce, false, shown);
    var w2 := Apply(c, w1, Beat(s, Some(q.nonce)));
    InferredReleaseParksIff(c, w, key, nonce, shown, [w1], [], q, s, breather);
    InferredReleaseParksIff(c, w, key, nonce, shown, [w1, w2], [Beat(s, Some(q.nonce))], q, s, breather);
    NoRowAllocation(c, w2, q, s);
  }
}
