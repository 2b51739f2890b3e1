/**
 The catch-up window of server/services/watch_claim.py: what a chain of holders of one claim
 has emitted, when each successor starts from a watermark that was read before its steal.

 One claim, followed from the grant that opened the chain.  `marks` holds every watermark the
 row has ever shown, so a steal may carry any of them, however stale.
 */
module WatchCatchUp {
  import opened Common
  import opened WatchClaim

  datatype Chain = Chain(
    row: Row,
    catchUp: int,          // the current holder emits everything after this
    origin: int,           // the first holder of the chain started here
    mail: set<Mail>,
    emitted: set<Mail>,
    marks: set<int>,
    now: int)

  datatype Step =
    | Arrive(m: Mail)            // mail is stamped on arrival, by a clock that has moved on
    | Emit(msgs: set<Mail>)
    | Report(fetched: int)       // a beat of the holder that carries fetched_through
    | Takeover(row: Row, from: int)

  ghost predicate Opened(c: Chain) {
    && c.row.fetchedThrough.None? && c.catchUp == c.origin
    && c.marks == {c.row.claimedAt} && c.row.claimedAt <= c.now
    && forall m | m in c.mail :: m.createdAt <= c.now
  }

  // What the holders do, and what a takeover may carry: any watermark the row has shown.
  ghost predicate Honest(c: Chain, s: Step) {
    match s
    case Arrive(m) => m.createdAt > c.now
    case Emit(msgs) => msgs <= c.mail && forall m | m in msgs :: m.createdAt > c.catchUp
    case Report(fetched) =>
      // what it vouches for has been emitted, later mail need not be, and the watermark does not go back
      && Emitted(c, c.catchUp, fetched)
      && fetched <= c.now
      && (c.row.fetchedThrough.Some? ==> c.row.fetchedThrough.value <= fetched)
    case Takeover(row, from) =>
      from in c.marks && row.fetchedThrough.None? && row.claimedAt <= c.now
  }

  // Everything after one point and up to another has been emitted.
  ghost predicate Emitted(c: Chain, after: int, upTo: int) {
    forall m | m in c.mail && after < m.createdAt <= upTo :: m in c.emitted
  }

  // A report is made only when the mail up to the holder's own claim is out as well.
  ghost predicate ClearsClaim(c: Chain, s: Step) {
    s.Report? ==> Emitted(c, c.catchUp, c.row.claimedAt)
  }

  // Nobody is displaced before its first report.
  predicate ReportsFirst(c: Chain, s: Step) {
    s.Takeover? ==> c.row.fetchedThrough.Some?
  }

  ghost function Next(c: Chain, s: Step): Chain {
    match s
    case Arrive(m) => c.(mail := c.mail + {m}, now := m.createdAt)
    case Emit(msgs) => c.(emitted := c.emitted + msgs)
    case Report(fetched) => c.(row := Beaten(c.row, c.now, Some(fetched)), marks := c.marks + {fetched})
    case Takeover(row, from) => c.(row := row, catchUp := from, marks := c.marks + {row.claimedAt})
  }

  // A run, as the chain between its steps.
  ghost predicate IsRun(trace: seq<Chain>, steps: seq<Step>) {
    && |trace| == |steps| + 1
    && forall k | 0 <= k < |steps| :: Honest(trace[k], steps[k]) && trace[k + 1] == Next(trace[k], steps[k])
  }

  // Every message of the chain up to t has been emitted by some holder.
  ghost predicate CaughtUp(c: Chain, t: int) {
    forall m | m in c.mail && c.origin < m.createdAt <= t :: m in c.emitted
  }

  // ----- marks are what the row has shown -----

  // The key's row has shown the watermark t in a state up to the i-th.
  ghost predicate ShownBy(w: World, run: seq<Stmt>, key: string, i: nat, t: int)
    requires i <= |run|
  {
    exists j :: 0 <= j <= i && key in At(w, run, j).claims && Watermark(At(w, run, j).claims[key]) == t
  }

  /** The marks of a chain are exactly the watermarks its row has shown. */
  lemma {:induction false} MarksAreShown(trace: seq<Chain>, steps: seq<Step>, i: nat, t: int)
    requires IsRun(trace, steps) && i < |trace| && Opened(trace[0])
    ensures t in trace[i].marks <==> exists j :: 0 <= j <= i && Watermark(trace[j].row) == t
    decreases i
  {
    if i > 0 {
      MarksAreShown(trace, steps, i - 1, t);
      var c := trace[i - 1];
      assert Honest(c, steps[i - 1]) && trace[i - 1 + 1] == Next(c, steps[i - 1]);
      assert Watermark(trace[i].row) == Watermark(c.row) || trace[i].marks == c.marks + {Watermark(trace[i].row)};
      assert steps[i - 1].Arrive? || steps[i - 1].Emit? ==> trace[i].marks == c.marks && trace[i].row == c.row;
      assert Watermark(c.row) == t ==> t in c.marks;
    }
  }

  // ----- nothing is lost when everybody reports first -----

  ghost predicate Inv(c: Chain) {
    && (forall m | m in c.mail :: m.createdAt <= c.now)
    && CaughtUp(c, c.catchUp) && (c.catchUp == c.origin || c.catchUp <= c.now)
    && (forall t | t in c.marks :: t <= c.now && (CaughtUp(c, t) || (c.row.fetchedThrough.None? && t == c.row.claimedAt)))
    && Watermark(c.row) in c.marks
  }

  lemma StepKeeps(c: Chain, s: Step)
    requires Inv(c) && Honest(c, s) && ReportsFirst(c, s) && ClearsClaim(c, s)
    ensures Inv(Next(c, s))
  {
    var d := Next(c, s);
    match s
    case Arrive(m) =>
      forall t | t <= c.now && CaughtUp(c, t) ensures CaughtUp(d, t) {
      }
    case Emit(msgs) =>
      forall t | CaughtUp(c, t) ensures CaughtUp(d, t) {
      }
    case Report(fetched) =>
      forall t | CaughtUp(c, t) ensures CaughtUp(d, t) {
      }
      assert CaughtUp(d, fetched) && CaughtUp(d, c.row.claimedAt);
    case Takeover(row, from) =>
      forall t | CaughtUp(c, t) ensures CaughtUp(d, t) {
      }
  }

  lemma {:induction false} RunKeeps(trace: seq<Chain>, steps: seq<Step>, i: nat)
    requires IsRun(trace, steps) && i < |trace| && Inv(trace[0])
    requires forall k | 0 <= k < i :: ReportsFirst(trace[k], steps[k]) && ClearsClaim(trace[k], steps[k])
    ensures Inv(trace[i])
    decreases i
  {
    if i > 0 {
      RunKeeps(trace, steps, i - 1);
      assert Honest(trace[i - 1], steps[i - 1]) && trace[i - 1 + 1] == Next(trace[i - 1], steps[i - 1]);
      assert ReportsFirst(trace[i - 1], steps[i - 1]) && ClearsClaim(trace[i - 1], steps[i - 1]);
      hide Inv, Honest, ReportsFirst, ClearsClaim, Next;
      StepKeeps(trace[i - 1], steps[i - 1]);
    }
  }

  /**
   Over any chain of takeovers, if nobody is displaced before its first report and no report is
   made before the mail up to the holder's claim is out, every message up to the current watermark
   has been emitted by some holder.
   */
  lemma NothingIsLost(trace: seq<Chain>, steps: seq<Step>, i: nat)
    requires IsRun(trace, steps) && i < |trace| && Opened(trace[0])
    requires forall k | 0 <= k < i :: ReportsFirst(trace[k], steps[k]) && ClearsClaim(trace[k], steps[k])
    ensures trace[i].row.fetchedThrough.Some? ==> CaughtUp(trace[i], trace[i].row.fetchedThrough.value)
  {
    RunKeeps(trace, steps, i);
  }

  // ----- exactly when a report is true -----

  // One holder's tenure: the steps after its takeover at j, up to its report at k.
  ghost predicate Tenure(steps: seq<Step>, j: nat, k: nat)
    requires j < k < |steps|
  {
    && steps[j].Takeover? && steps[k].Report? && steps[k].fetched >= steps[j].from
    && forall i | j < i < k :: !steps[i].Takeover?
  }

  ghost predicate Clocked(c: Chain) {
    && (forall m | m in c.mail :: m.createdAt <= c.now)
    && (forall t | t in c.marks :: t <= c.now) && Watermark(c.row) in c.marks
  }

  lemma {:induction false} RunIsClocked(trace: seq<Chain>, steps: seq<Step>, i: nat)
    requires IsRun(trace, steps) && i < |trace| && Opened(trace[0])
    ensures Clocked(trace[i])
    decreases i
  {
    if i > 0 {
      RunIsClocked(trace, steps, i - 1);
      assert Honest(trace[i - 1], steps[i - 1]) && trace[i - 1 + 1] == Next(trace[i - 1], steps[i - 1]);
    }
  }

  // Up to the point a holder was given, its tenure neither receives nor emits anything.
  lemma {:induction false} TenureLeavesThePast(trace: seq<Chain>, steps: seq<Step>, j: nat, k: nat, i: nat)
    requires IsRun(trace, steps) && Opened(trace[0]) && j < k < |steps| && Tenure(steps, j, k) && j < i <= k
    ensures trace[i].catchUp == steps[j].from && trace[i].origin == trace[j].origin && trace[i].now >= steps[j].from
    ensures forall m: Mail | m.createdAt <= steps[j].from ::
              (m in trace[i].mail <==> m in trace[j].mail) && (m in trace[i].emitted <==> m in trace[j].emitted)
    decreases i
  {
    RunIsClocked(trace, steps, j);
    assert Honest(trace[i - 1], steps[i - 1]) && trace[i - 1 + 1] == Next(trace[i - 1], steps[i - 1]);
    if i > j + 1 {
      TenureLeavesThePast(trace, steps, j, k, i - 1);
      assert !steps[i - 1].Takeover?;
    }
  }

  /**
   A report is true exactly when the handover was.  When a holder reports a watermark at or past
   the point it was given, every message up to it has been emitted if and only if, at its takeover,
   every message up to that point had been.
   */
  lemma ReportIsTrueIff(trace: seq<Chain>, steps: seq<Step>, j: nat, k: nat)
    requires IsRun(trace, steps) && Opened(trace[0]) && j < k < |steps| && Tenure(steps, j, k)
    ensures CaughtUp(trace[k + 1], steps[k].fetched) <==> CaughtUp(trace[j], steps[j].from)
  {
    TenureLeavesThePast(trace, steps, j, k, k);
    var from := steps[j].from;
    assert Honest(trace[k], steps[k]) && trace[k + 1] == Next(trace[k], steps[k]);
    assert forall m | m in trace[k].mail && from < m.createdAt <= steps[k].fetched :: m in trace[k].emitted;
    if CaughtUp(trace[k + 1], steps[k].fetched) {
      assert forall m | m in trace[j].mail && m.createdAt <= from :: m in trace[k].mail;
    }
  }

  // Before any takeover the holder was given the very start of the chain.
  lemma {:induction false} FirstTenure(trace: seq<Chain>, steps: seq<Step>, i: nat)
    requires IsRun(trace, steps) && i < |trace| && Opened(trace[0]) && forall j | 0 <= j < i :: !steps[j].Takeover?
    ensures trace[i].catchUp == trace[i].origin
    decreases i
  {
    if i > 0 {
      FirstTenure(trace, steps, i - 1);
      assert !steps[i - 1].Takeover? && trace[i - 1 + 1] == Next(trace[i - 1], steps[i - 1]);
    }
  }

  lemma {:induction false} LastTakeover(steps: seq<Step>, k: nat) returns (j: Option<nat>)
    requires k <= |steps|
    ensures j.None? ==> forall i | 0 <= i < k :: !steps[i].Takeover?
    ensures j.Some? ==> j.value < k && steps[j.value].Takeover? && forall i | j.value < i < k :: !steps[i].Takeover?
    decreases k
  {
    if k == 0 {
      j := None;
    } else if steps[k - 1].Takeover? {
      j := Some(k - 1);
    } else {
      j := LastTakeover(steps, k - 1);
    }
  }

  // Every report at or past the point its holder was given.
  ghost predicate EveryReportTrue(trace: seq<Chain>, steps: seq<Step>)
    requires |trace| == |steps| + 1
  {
    forall k | 0 <= k < |steps| && steps[k].Report? && steps[k].fetched >= trace[k].catchUp :: CaughtUp(trace[k + 1], steps[k].fetched)
  }

  ghost predicate EveryHandoverCovered(trace: seq<Chain>, steps: seq<Step>)
    requires |trace| == |steps| + 1
  {
    forall j, k | 0 <= j < k < |steps| && Tenure(steps, j, k) :: CaughtUp(trace[j], steps[j].from)
  }

  lemma ReportInItsTenure(trace: seq<Chain>, steps: seq<Step>, k: nat)
    requires IsRun(trace, steps) && Opened(trace[0])
    requires k < |steps| && steps[k].Report? && steps[k].fetched >= trace[k].catchUp
    requires EveryHandoverCovered(trace, steps)
    ensures CaughtUp(trace[k + 1], steps[k].fetched)
  {
    var j := LastTakeover(steps, k);
    if j.Some? {
      CatchUpIsGiven(trace, steps, j.value, k);
      assert Tenure(steps, j.value, k);
      ReportIsTrueIff(trace, steps, j.value, k);
    } else {
      FirstTenure(trace, steps, k);
      assert Honest(trace[k], steps[k]) && trace[k + 1] == Next(trace[k], steps[k]);
    }
  }

  lemma {:induction false} CatchUpIsGiven(trace: seq<Chain>, steps: seq<Step>, j: nat, i: nat)
    requires IsRun(trace, steps) && j < i < |trace| && steps[j].Takeover? && forall t | j < t < i :: !steps[t].Takeover?
    ensures trace[i].catchUp == steps[j].from
    decreases i
  {
    assert trace[i - 1 + 1] == Next(trace[i - 1], steps[i - 1]);
    if i > j + 1 {
      CatchUpIsGiven(trace, steps, j, i - 1);
      assert !steps[i - 1].Takeover?;
    }
  }

  /**
   Over a whole run: every report ever made, at or past the point its holder was given, is true if
   and only if each handover followed by one gave a point up to which everything had been emitted.
   */
  lemma EveryReportTrueIff(trace: seq<Chain>, steps: seq<Step>)
    requires IsRun(trace, steps) && Opened(trace[0])
    ensures EveryReportTrue(trace, steps) <==> EveryHandoverCovered(trace, steps)
  {
    if EveryHandoverCovered(trace, steps) {
      forall k | 0 <= k < |steps| && steps[k].Report? && steps[k].fetched >= trace[k].catchUp
        ensures CaughtUp(trace[k + 1], steps[k].fetched) {
        ReportInItsTenure(trace, steps, k);
      }
    }
    if EveryReportTrue(trace, steps) {
      forall j, k | 0 <= j < k < |steps| && Tenure(steps, j, k) ensures CaughtUp(trace[j], steps[j].from) {
        CatchUpIsGiven(trace, steps, j, k);
        ReportIsTrueIff(trace, steps, j, k);
      }
    }
  }

  /**
   A takeover that starts from the displaced holder's claim time, whether that holder had not
   reported yet or the claim time was read before its report: the successor's report is true if and
   only if the displaced holder had emitted what lay between its own point and its claim time.
   */
  lemma ClaimTimeHandoverIff(trace: seq<Chain>, steps: seq<Step>, j: nat, k: nat)
    requires IsRun(trace, steps) && Opened(trace[0]) && j < k < |steps| && Tenure(steps, j, k)
    requires steps[j].from == trace[j].row.claimedAt
    requires CaughtUp(trace[j], trace[j].catchUp)
    ensures CaughtUp(trace[k + 1], steps[k].fetched)
            <==> forall m | m in trace[j].mail && m.createdAt > trace[j].origin
                            && trace[j].catchUp < m.createdAt <= trace[j].row.claimedAt :: m in trace[j].emitted
  {
    ReportIsTrueIff(trace, steps, j, k);
  }

  // One message before the claim, which the holder has not reached when it first reports.
  ghost predicate Lagging(first: Row, second: Row, m: Mail, origin: int, fetched: int, later: int) {
    && first.fetchedThrough.None? && second.fetchedThrough.None?
    && origin < m.createdAt <= first.claimedAt && fetched < m.createdAt
    && first.claimedAt <= second.claimedAt <= later
  }

  /**
   A stale read is not harmless.  A holder reports honestly but below its claim time; a successor
   that read the claim time before that report steals after it: everybody reported first, yet the
   successor's report passes over the message, because the claim time narrows its window.
   */
  lemma StaleClaimTimeNarrows(first: Row, second: Row, m: Mail, origin: int, fetched: int, later: int) returns (trace: seq<Chain>, steps: seq<Step>)
    requires Lagging(first, second, m, origin, fetched, later)
    ensures steps == [Report(fetched), Takeover(second, first.claimedAt), Report(later)]
    ensures IsRun(trace, steps) && Opened(trace[0]) && trace[0].row == first && trace[0].catchUp == origin
    ensures forall k | 0 <= k < |steps| :: ReportsFirst(trace[k], steps[k])
    ensures !CaughtUp(trace[3], later)
  {
    var c0 := Chain(first, origin, origin, {m}, {}, {first.claimedAt}, later);
    steps := [Report(fetched), Takeover(second, first.claimedAt), Report(later)];
    var c1 := Next(c0, steps[0]);
    var c2 := Next(c1, steps[1]);
    var c3 := Next(c2, steps[2]);
    trace := [c0, c1, c2, c3];
    assert Honest(c0, steps[0]) && Honest(c1, steps[1]) && Honest(c2, steps[2]);
    forall k | 0 <= k < |steps| ensures Honest(trace[k], steps[k]) && trace[k + 1] == Next(trace[k], steps[k]) {
      assert k == 0 || k == 1 || k == 2;
    }
    assert m in c3.mail && m !in c3.emitted;
  }

  /** The gap opens: a holder displaced before it has reported leaves its successor to start past unemitted mail. */
  lemma DisplacedBeforeReporting(m: Mail, first: Row, second: Row, third: Row)
    requires m.createdAt == 5
    requires first == Row("a", None, [m.to], 0, 0, Some(0))
    requires second == Row("b", None, [m.to], 10, 10, None)
    requires third == Row("c", None, [m.to], 20, 20, None)
    ensures var c := Chain(first, 0, 0, {m}, {}, {0}, 20);
            // the holders report only what they have emitted, yet the second is displaced unreported
            var c1 := Next(c, Takeover(second, 0));
            var c2 := Next(c1, Takeover(third, 10));
            var d := Next(c2, Report(20));
            && Inv(c) && Honest(c, Takeover(second, 0)) && Honest(c1, Takeover(third, 10)) && Honest(c2, Report(20))
            && !ReportsFirst(c1, Takeover(third, 10))
            && !CaughtUp(d, 20)
  {
  }
}
