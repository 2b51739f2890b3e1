/**
 The cross-writer collapse of `memory_set`: the upsert and the stamp are separate steps, so
 other writers run in between.
 */
module MemoryCollapse {
  import opened Common
  import opened MemoryRows

  predicate IsLive(rows: Table, s: Slot) {
    s in rows && rows[s].status == Live
  }

  // The rows of one logical project key.
  predicate SameKey(a: Slot, b: Slot) {
    a == b || Twins(a, b)
  }

  ghost predicate Covers(m: Machine, w: nat, a: Slot, b: Slot) {
    && w in m.reqs && w in m.phases && m.phases[w] == Stamping
    && (m.reqs[w].slot == a || m.reqs[w].slot == b)
  }

  /** Every two live rows of the key have a stamp coming. */
  ghost predicate Clean(m: Machine, k: Slot) {
    forall a, b | SameKey(k, a) && SameKey(k, b) && a != b && IsLive(m.rows, a) && IsLive(m.rows, b) ::
      exists w :: Covers(m, w, a, b)
  }

  // No create-only writer on the key: those return before the stamp.
  ghost predicate AllStamp(reqs: map<nat, Request>, k: Slot) {
    forall w | w in reqs && SameKey(k, reqs[w].slot) :: !CreateOnly(reqs[w])
  }

  // A step that makes no row of the key live and takes no writer out of Stamping.
  lemma QuietKeepsClean(m: Machine, n: Machine, k: Slot)
    requires Clean(m, k) && n.reqs == m.reqs
    requires forall s | SameKey(k, s) && IsLive(n.rows, s) :: IsLive(m.rows, s)
    requires forall w | w in m.phases && m.phases[w] == Stamping :: w in n.phases && n.phases[w] == Stamping
    ensures Clean(n, k)
  {
    forall a, b | SameKey(k, a) && SameKey(k, b) && a != b && IsLive(n.rows, a) && IsLive(n.rows, b)
      ensures exists w :: Covers(n, w, a, b)
    {
      var w :| Covers(m, w, a, b);
      assert Covers(n, w, a, b);
    }
  }

  // The upsert adds one live row and a writer that will stamp for it.
  lemma WriteKeepsClean(m: Machine, w: nat, k: Slot)
    requires Clean(m, k) && w in m.reqs && w in m.phases && m.phases[w] == Writing
    requires k.scope == "project" && !(SameKey(k, m.reqs[w].slot) && CreateOnly(m.reqs[w]))
    ensures Clean(WriteStep(m, w), k)
  {
    var n := WriteStep(m, w);
    var s := m.reqs[w].slot;
    if n != m {
      assert forall t | t != s :: IsLive(n.rows, t) == IsLive(m.rows, t);
      forall a, b | SameKey(k, a) && SameKey(k, b) && a != b && IsLive(n.rows, a) && IsLive(n.rows, b)
        ensures exists v :: Covers(n, v, a, b)
      {
        if a == s || b == s {
          assert Covers(n, w, a, b);
        } else {
          var v :| Covers(m, v, a, b);
          assert Covers(n, v, a, b);
        }
      }
    }
  }

  // The stamp leaves no two live rows of its own key, whatever was there before.
  lemma StampCleans(m: Machine, w: nat, k: Slot)
    requires w in m.reqs && SameKey(k, m.reqs[w].slot) && k.scope == "project"
    requires w in m.phases && m.phases[w] == Stamping
    ensures var n := StampStep(m, w);
            n != m ==> forall t | SameKey(k, t) && IsLive(n.rows, t) :: t == m.reqs[w].slot
  {
  }

  // A stamp for another key.
  lemma StampElsewhere(m: Machine, w: nat, k: Slot)
    requires Clean(m, k) && w in m.reqs && !SameKey(k, m.reqs[w].slot) && k.scope == "project"
    requires w in m.phases && m.phases[w] == Stamping
    ensures Clean(StampStep(m, w), k)
  {
    var n := StampStep(m, w);
    forall a, b | SameKey(k, a) && SameKey(k, b) && a != b && IsLive(n.rows, a) && IsLive(n.rows, b)
      ensures exists v :: Covers(n, v, a, b)
    {
      var v :| Covers(m, v, a, b);
      assert Covers(n, v, a, b);
    }
  }

  // What a step other than an upsert or a stamp does to the table.
  lemma OtherStep(m: Machine, a: Action, ver: string -> string)
    requires Inv(m, ver) && !(a.Act? && a.w in m.reqs && m.phases[a.w] in {Writing, Stamping})
    ensures var n := Exec(m, a, ver);
            || (forall t | IsLive(n.rows, t) :: IsLive(m.rows, t))
            || (a.Act? && a.w in m.reqs && CreateOnly(m.reqs[a.w]) && n.rows == Upserted(m.rows, m.reqs[a.w], m.now))
    ensures a.Act? ==> var n := Exec(m, a, ver);
            || n.rows == m.rows
            || (a.w in m.reqs && m.phases[a.w] == Inserting && n.rows == Upserted(m.rows, m.reqs[a.w], m.now))
  {
  }

  lemma StepKeepsClean(m: Machine, a: Action, k: Slot, ver: string -> string)
    requires Inv(m, ver) && Clean(m, k) && AllStamp(m.reqs, k) && k.scope == "project"
    ensures Clean(Exec(m, a, ver), k)
  {
    if a.Act? && a.w in m.reqs && m.phases[a.w] == Writing {
      WriteKeepsClean(m, a.w, k);
    } else if a.Act? && a.w in m.reqs && m.phases[a.w] == Stamping {
      if SameKey(k, m.reqs[a.w].slot) {
        StampCleans(m, a.w, k);
      } else {
        StampElsewhere(m, a.w, k);
      }
    } else {
      var n := Exec(m, a, ver);
      OtherStep(m, a, ver);
      StepFrame(m, a, ver);
      hide Exec, Inv, Clean;
      QuietKeepsClean(m, n, k);
    }
  }

  lemma {:induction false} RunKeepsClean(m: Machine, run: seq<Action>, i: nat, j: nat, k: Slot, ver: string -> string)
    requires Inv(m, ver) && i <= j <= |run| && AllStamp(m.reqs, k) && k.scope == "project"
    requires Clean(At(m, run, i, ver), k)
    ensures Clean(At(m, run, j, ver), k)
    decreases j
  {
    hide Inv, Clean, Exec, AllStamp;
    if i < j {
      RunKeepsClean(m, run, i, j - 1, k, ver);
      RunKeepsInv(m, run, j - 1, ver);
      StepKeepsClean(At(m, run, j - 1, ver), run[j - 1], k, ver);
    }
  }

  // A writer of the key that has finished has stamped, and from its stamp on the key is clean.
  lemma {:induction false} FinishedWriterCleaned(m: Machine, run: seq<Action>, i: nat, w: nat, k: Slot, ver: string -> string)
    requires Initial(m) && Inv(m, ver) && i <= |run| && AllStamp(m.reqs, k) && k.scope == "project"
    requires w in m.reqs && SameKey(k, m.reqs[w].slot)
    requires w in At(m, run, i, ver).phases && At(m, run, i, ver).phases[w] == Won
    ensures Clean(At(m, run, i, ver), k)
  {
    if i > 0 {
      RunKeepsInv(m, run, i - 1, ver);
      var p := At(m, run, i - 1, ver);
      StepFrame(p, run[i - 1], ver);
      NotCreateOnly(m.reqs, w, k);
      hide Exec, Inv, Initial, AllStamp, Clean, SameKey;
      if p.phases[w] == Won {
        FinishedWriterCleaned(m, run, i - 1, w, k, ver);
        RunKeepsClean(m, run, i - 1, i, k, ver);
      } else {
        assert run[i - 1] == Act(w);
        FinishingStep(p, w, k, ver);
      }
    }
  }

  lemma NotCreateOnly(reqs: map<nat, Request>, w: nat, k: Slot)
    requires AllStamp(reqs, k) && w in reqs && SameKey(k, reqs[w].slot)
    ensures !CreateOnly(reqs[w])
  {
  }

  lemma FinishingStep(p: Machine, w: nat, k: Slot, ver: string -> string)
    requires Inv(p, ver) && w in p.reqs && SameKey(k, p.reqs[w].slot) && k.scope == "project"
    requires !CreateOnly(p.reqs[w]) && p.phases[w] != Won
    requires w in Exec(p, Act(w), ver).phases && Exec(p, Act(w), ver).phases[w] == Won
    ensures Clean(Exec(p, Act(w), ver), k)
  {
    assert p.phases[w] == Stamping;
    StampCleans(p, w, k);
  }

  ghost predicate Finished(m: Machine, k: Slot) {
    forall w | w in m.reqs && w in m.phases && SameKey(k, m.reqs[w].slot) :: m.phases[w] in {Won, Lost}
  }

  lemma InitialInv(m: Machine, ver: string -> string)
    requires Initial(m)
    ensures Inv(m, ver)
  {
  }

  lemma AtStart(m: Machine, run: seq<Action>, ver: string -> string)
    ensures At(m, run, 0, ver) == m
  {
  }

  /**
   With the upsert and the stamp as separate interleaved steps: once every project write of a
   key has finished, at most one live row of it remains, provided the key had at most one to
   begin with or some write of it went through.
   */
  lemma AtMostOneLiveRow(trace: seq<Machine>, run: seq<Action>, k: Slot, a: Slot, b: Slot, ver: string -> string)
    requires IsRun(trace, run, ver) && Initial(trace[0]) && AllStamp(trace[0].reqs, k) && k.scope == "project"
    requires Single(trace[0].rows, k) || SomeoneWon(trace[|run|], k)
    requires Finished(trace[|run|], k)
    requires SameKey(k, a) && SameKey(k, b) && IsLive(trace[|run|].rows, a) && IsLive(trace[|run|].rows, b)
    ensures a == b
  {
    var m, n := trace[0], trace[|run|];
    RunIsAt(trace, run, |run|, ver);
    InitialInv(m, ver);
    RunKeepsInv(m, run, |run|, ver);
    hide Exec, Inv, Initial, AllStamp, Clean, Finished, Single, IsRun;
    if SomeoneWon(n, k) {
      var w :| w in n.reqs && SameKey(k, n.reqs[w].slot) && w in n.phases && n.phases[w] == Won;
      FinishedWriterCleaned(m, run, |run|, w, k, ver);
    } else {
      SingleIsClean(m, k);
      AtStart(m, run, ver);
      RunKeepsClean(m, run, 0, |run|, k, ver);
    }
    CleanAndFinished(n, k, a, b);
  }

  ghost predicate Single(rows: Table, k: Slot) {
    forall s, t | SameKey(k, s) && SameKey(k, t) && IsLive(rows, s) && IsLive(rows, t) :: s == t
  }

  ghost predicate SomeoneWon(n: Machine, k: Slot) {
    exists w :: w in n.reqs && SameKey(k, n.reqs[w].slot) && w in n.phases && n.phases[w] == Won
  }

  lemma SingleIsClean(m: Machine, k: Slot)
    requires Single(m.rows, k)
    ensures Clean(m, k)
  {
  }

  lemma CleanAndFinished(n: Machine, k: Slot, a: Slot, b: Slot)
    requires Clean(n, k) && Finished(n, k) && SameKey(k, a) && SameKey(k, b)
    requires IsLive(n.rows, a) && IsLive(n.rows, b)
    ensures a == b
  {
    assert forall w :: !Covers(n, w, a, b);
  }

  // ----- does the last write survive? -----

  // Nothing but the collapse retires rows of the key.
  predicate SparesKey(a: Action, k: Slot) {
    match a
    case Supersede(t) => !SameKey(k, t)
    case Flag(t) => !SameKey(k, t)
    case Forget(t) => !SameKey(k, t)
    case _ => true
  }

  ghost predicate PendingTwin(m: Machine, k: Slot, v: nat) {
    v in m.reqs && v in m.phases && Twins(k, m.reqs[v].slot) && m.phases[v] == Stamping
  }

  // Every write of the key has happened; only stamps are left.
  ghost predicate OnlyStampsLeft(m: Machine, k: Slot) {
    forall w | w in m.reqs && w in m.phases && SameKey(k, m.reqs[w].slot) :: m.phases[w] in {Stamping, Won, Lost}
  }

  // What is known after the last write, made by w at slot s, in a state m0; m is any later state.
  ghost predicate Tail(m0: Machine, m: Machine, w: nat, s: Slot) {
    && m.reqs == m0.reqs && m.phases.Keys == m0.phases.Keys && w in m.reqs && m.reqs[w].slot == s
    && OnlyStampsLeft(m, s)
    && (forall v | PendingTwin(m, s, v) :: PendingTwin(m0, s, v))
    && (IsLive(m.rows, s) <==> forall v | PendingTwin(m0, s, v) :: PendingTwin(m, s, v))
    && (w in m.phases && m.phases[w] == Won ==> forall t | Twins(s, t) :: !IsLive(m.rows, t))
    && (w in m.phases ==> m.phases[w] != Lost)
  }

  lemma TailStamp(m0: Machine, m: Machine, v: nat, w: nat, s: Slot)
    requires Tail(m0, m, w, s) && WellFormed(m) && s.scope == "project"
    requires v in m.reqs && m.phases[v] == Stamping
    ensures Tail(m0, StampStep(m, v), w, s)
  {
    var n := StampStep(m, v);
    if n != m {
      StampEffect(m, v, s);
      if v == w {
        StampCleans(m, w, s);
      }
      assert Twins(s, m.reqs[v].slot) ==> PendingTwin(m, s, v);
      hide StampStep, Twins;
      assert forall u | u != v :: PendingTwin(n, s, u) == PendingTwin(m, s, u);
      assert !PendingTwin(n, s, v);
    }
  }

  // What one stamp does, seen from some slot.
  lemma StampEffect(m: Machine, v: nat, s: Slot)
    requires v in m.reqs && s.scope == "project" && StampStep(m, v) != m
    ensures var n := StampStep(m, v);
            && n.reqs == m.reqs && n.phases == m.phases[v := Won]
            && (IsLive(n.rows, s) <==> IsLive(m.rows, s) && !Twins(s, m.reqs[v].slot))
            && forall x | IsLive(n.rows, x) :: IsLive(m.rows, x)
  {
  }

  lemma TailStep(m0: Machine, m: Machine, a: Action, w: nat, s: Slot, ver: string -> string)
    requires Inv(m, ver) && Tail(m0, m, w, s) && SparesKey(a, s) && s.scope == "project"
    ensures Tail(m0, Exec(m, a, ver), w, s)
  {
    var n := Exec(m, a, ver);
    if a.Act? && a.w in m.reqs && m.phases[a.w] == Stamping {
      TailStamp(m0, m, a.w, w, s);
    } else {
      StepFrame(m, a, ver);
      TailOther(m, a, s, ver);
      hide Exec, Inv, Framed, SparesKey;
      TailSame(m0, m, n, w, s);
    }
  }

  lemma TailSame(m0: Machine, m: Machine, n: Machine, w: nat, s: Slot)
    requires Tail(m0, m, w, s) && n.reqs == m.reqs && n.phases.Keys == m.phases.Keys
    requires forall t | SameKey(s, t) :: IsLive(n.rows, t) == IsLive(m.rows, t)
    requires forall v | v in m.reqs && v in m.phases && SameKey(s, m.reqs[v].slot) :: v in n.phases && n.phases[v] == m.phases[v]
    ensures Tail(m0, n, w, s)
  {
    assert forall v :: PendingTwin(n, s, v) == PendingTwin(m, s, v);
  }

  // A step that is not a stamp, once only stamps are left for the key.
  lemma TailOther(m: Machine, a: Action, s: Slot, ver: string -> string)
    requires Inv(m, ver) && OnlyStampsLeft(m, s) && SparesKey(a, s) && s.scope == "project"
    requires !(a.Act? && a.w in m.reqs && m.phases[a.w] == Stamping)
    ensures var n := Exec(m, a, ver);
            && n.reqs == m.reqs && n.phases.Keys == m.phases.Keys
            && (forall t | SameKey(s, t) :: IsLive(n.rows, t) == IsLive(m.rows, t))
            && (forall v | v in m.reqs && v in m.phases && SameKey(s, m.reqs[v].slot) :: v in n.phases && n.phases[v] == m.phases[v])
  {
    var n := Exec(m, a, ver);
    StepFrame(m, a, ver);
    if a.Act? && a.w in m.reqs {
      if m.phases[a.w] == Writing {
        TailWrite(m, a.w, s);
      } else {
        OtherStep(m, a, ver);
        if m.phases[a.w] in {Won, Lost} {
          assert n == m;
        }
        hide Exec, Inv;
        assert SameKey(s, m.reqs[a.w].slot) ==> n == m;
      }
    } else {
      TailAdmin(m, a, s, ver);
    }
  }

  lemma TailWrite(m: Machine, w: nat, s: Slot)
    requires w in m.reqs && !SameKey(s, m.reqs[w].slot)
    ensures forall t | SameKey(s, t) :: IsLive(WriteStep(m, w).rows, t) == IsLive(m.rows, t)
  {
  }

  lemma TailAdmin(m: Machine, a: Action, s: Slot, ver: string -> string)
    requires m.reqs.Keys == m.phases.Keys
    requires SparesKey(a, s) && !(a.Act? && a.w in m.reqs)
    ensures forall t | SameKey(s, t) :: IsLive(Exec(m, a, ver).rows, t) == IsLive(m.rows, t)
  {
  }

  lemma {:induction false} TailRun(m: Machine, run: seq<Action>, i: nat, w: nat, s: Slot, ver: string -> string)
    requires Inv(m, ver) && Tail(m, m, w, s) && i <= |run| && s.scope == "project"
    requires forall k | 0 <= k < i :: SparesKey(run[k], s)
    ensures Inv(At(m, run, i, ver), ver) && Tail(m, At(m, run, i, ver), w, s)
  {
    hide Inv, Tail, Exec, SparesKey;
    if i > 0 {
      TailRun(m, run, i - 1, w, s, ver);
      var p := At(m, run, i - 1, ver);
      assert SparesKey(run[i - 1], s);
      StepKeepsInv(p, run[i - 1], ver);
      TailStep(m, p, run[i - 1], w, s, ver);
    }
  }

  /**
   The last write of a key, seen from the moment it lands.  When everything has finished no
   twin is live, and the last write's own row is live exactly when no twin's writer was still
   waiting to stamp at that moment.
   */
  lemma LastWriteSurvivesIff(trace: seq<Machine>, run: seq<Action>, w: nat, s: Slot, ver: string -> string)
    requires IsRun(trace, run, ver) && Inv(trace[0], ver) && s.scope == "project"
    requires LastWrite(trace[0], w, s)
    requires AllSpare(run, s)
    requires Finished(trace[|run|], s)
    ensures forall t | Twins(s, t) :: !IsLive(trace[|run|].rows, t)
    ensures IsLive(trace[|run|].rows, s) <==> forall v :: !PendingTwin(trace[0], s, v)
  {
    RunIsAt(trace, run, |run|, ver);
    hide Exec, Inv, IsRun, At;
    TailRun(trace[0], run, |run|, w, s, ver);
    TailEnd(trace[0], trace[|run|], w, s);
  }

  // The write has just landed and no other write of the key is to come.
  ghost predicate LastWrite(m: Machine, w: nat, s: Slot) {
    && w in m.reqs && w in m.phases && m.reqs[w].slot == s && m.phases[w] == Stamping && IsLive(m.rows, s)
    && OnlyStampsLeft(m, s)
  }

  ghost predicate AllSpare(run: seq<Action>, s: Slot) {
    forall k | 0 <= k < |run| :: SparesKey(run[k], s)
  }

  lemma TailEnd(m: Machine, n: Machine, w: nat, s: Slot)
    requires Tail(m, n, w, s) && w in n.phases && Finished(n, s)
    ensures forall t | Twins(s, t) :: !IsLive(n.rows, t)
    ensures IsLive(n.rows, s) <==> forall v :: !PendingTwin(m, s, v)
  {
    assert forall v :: !PendingTwin(n, s, v);
    assert n.phases[w] == Won;
  }

  // ----- the interleaving that loses both -----

  function Note(user: string): Slot {
    Slot("n", "startup/next", "project", user, Some("p"))
  }

  // The two writers after each of their six steps.
  function Both(now: int, step: nat): Machine {
    Machine(
      if step <= 2 then map[]
      else if step == 3 then map[Note("a") := Fresh("x", "alice", Live, now)]
      else map[Note("a") := Fresh("x", "alice", if step == 6 then Superseded else Live, now),
               Note("b") := Fresh("y", "bob", if step >= 5 then Superseded else Live, now)],
      map[],
      map[0 := Request(Note("a"), "x", Some("alice"), None, None, false),
          1 := Request(Note("b"), "y", Some("bob"), None, None, false)],
      map[0 := if step == 0 then Start else if step <= 2 then Writing else if step <= 4 then Stamping else Won,
          1 := if step <= 1 then Start else if step <= 3 then Writing else if step <= 5 then Stamping else Won],
      now)
  }

  function Fresh(value: string, owner: string, status: Status, now: int): Row {
    Row(value, Some(owner), None, status, None, now, None)
  }

  lemma BothStart(now: int, ver: string -> string)
    ensures Exec(Both(now, 0), Act(0), ver) == Both(now, 1)
    ensures Exec(Both(now, 1), Act(1), ver) == Both(now, 2)
  {
  }

  lemma BothWrite(now: int, ver: string -> string)
    ensures Exec(Both(now, 2), Act(0), ver) == Both(now, 3)
    ensures Exec(Both(now, 3), Act(1), ver) == Both(now, 4)
  {
    assert Note("a") != Note("b");
  }

  lemma FirstStamp(now: int, ver: string -> string)
    ensures Exec(Both(now, 4), Act(0), ver) == Both(now, 5)
  {
    assert Twins(Note("a"), Note("b"));
    hide Twins, Note;
    assert Collapsed(Both(now, 4).rows, Note("a")) == Both(now, 5).rows;
  }

  lemma SecondStamp(now: int, ver: string -> string)
    ensures Exec(Both(now, 5), Act(1), ver) == Both(now, 6)
  {
    assert Twins(Note("b"), Note("a"));
    hide Twins, Note;
    assert Collapsed(Both(now, 5).rows, Note("b")) == Both(now, 6).rows;
  }

  /**
   Two plain writers, interleaved write, write, stamp, stamp: both are told their write
   succeeded and no live row is left, so the later stamp does not decide a race.
   */
  lemma BothWritesCanDrain(now: int, ver: string -> string)
    ensures var run := [Act(0), Act(1), Act(0), Act(1), Act(0), Act(1)];
            var n := At(Both(now, 0), run, 6, ver);
            && Initial(Both(now, 0))
            && n.phases == map[0 := Won, 1 := Won]
            && n.rows.Keys == {Note("a"), Note("b")}
            && forall s :: !IsLive(n.rows, s)
  {
    BothStart(now, ver);
    BothWrite(now, ver);
    FirstStamp(now, ver);
    SecondStamp(now, ver);
    assert Initial(Both(now, 0));
    assert forall s :: !IsLive(Both(now, 6).rows, s);
    hide Exec;
    var run := [Act(0), Act(1), Act(0), Act(1), Act(0), Act(1)];
    assert At(Both(now, 0), run, 1, ver) == Both(now, 1);
    assert At(Both(now, 0), run, 2, ver) == Both(now, 2);
    assert At(Both(now, 0), run, 3, ver) == Both(now, 3);
    assert At(Both(now, 0), run, 4, ver) == Both(now, 4);
    assert At(Both(now, 0), run, 5, ver) == Both(now, 5);
    assert At(Both(now, 0), run, 6, ver) == Both(now, 6);
  }
}
