/**
 The memory row lifecycle of server/services/memory_service.py: what each statement of
 `memory_set` and its neighbours does to the table, and what every interleaving keeps.

 A row is found by the five columns of the table's unique constraint (Slot).  Row locks
 (SELECT ... FOR UPDATE) are explicit; a transaction's last write and its commit are one step.
 The content hash is a parameter: any function that never answers the empty string.
 */
module MemoryRows {
  import opened Common

  datatype Slot = Slot(ns: string, key: string, scope: string, user: string, project: Option<string>)

  datatype Status = Live | Superseded | DeletionRequested

  datatype Row = Row(
    value: string,
    owner: Option<string>,
    custodian: Option<string>,
    status: Status,
    priorStatus: Option<Status>,   // what a deletion request replaced
    createdAt: int,
    expiresAt: Option<int>)

  datatype Request = Request(
    slot: Slot, value: string, owner: Option<string>, expiresAt: Option<int>,
    ifMatch: Option<string>,       // Some("") asserts absence
    admin: bool)

  type Table = map<Slot, Row>

  predicate Drained(r: Row) {
    r.status != Live
  }

  predicate CreateOnly(r: Request) {
    r.ifMatch == Some("")
  }

  predicate EnforcesOwner(r: Request) {
    r.slot.scope == "project" && !r.admin
  }

  // Another principal wrote this row, and it has not been retired.
  predicate OwnedByOther(r: Request, row: Row) {
    row.owner.Some? && row.owner != r.owner && !Drained(row)
  }

  // Two rows of one project key, by different writers.
  predicate Twins(a: Slot, b: Slot) {
    a != b && a.(user := "") == b.(user := "") && a.scope == "project"
  }

  function VersionOf(rows: Table, s: Slot, ver: string -> string): string {
    if s in rows then ver(rows[s].value) else ""
  }

  // ----- the statements -----

  function Upserted(rows: Table, r: Request, now: int): Table {
    rows[r.slot :=
      if r.slot in rows
      then rows[r.slot].(value := r.value, owner := r.owner, status := Live, priorStatus := None, expiresAt := r.expiresAt)
      else Row(r.value, r.owner, None, Live, None, now, r.expiresAt)]
  }

  // The collapse stamp: every other writer's live row of the key is superseded.
  function Collapsed(rows: Table, s: Slot): Table {
    map t | t in rows :: if Twins(s, t) && rows[t].status == Live then rows[t].(status := Superseded) else rows[t]
  }

  function SupersededAt(rows: Table, s: Slot): Table {
    if s in rows && rows[s].status != Superseded then rows[s := rows[s].(status := Superseded)] else rows
  }

  function FlaggedAt(rows: Table, s: Slot): Table {
    if s in rows && rows[s].status != DeletionRequested
    then rows[s := rows[s].(status := DeletionRequested,
                            priorStatus := if rows[s].status == Live then rows[s].priorStatus else Some(rows[s].status))]
    else rows
  }

  function RejectedAt(rows: Table, s: Slot): Table {
    if s in rows && rows[s].status == DeletionRequested
    then rows[s := rows[s].(status := if rows[s].priorStatus.Some? then rows[s].priorStatus.value else Live, priorStatus := None)]
    else rows
  }

  /** Rejecting a deletion request gives the row back the status it was flagged with, and nothing else changes. */
  lemma RejectUndoesFlag(rows: Table, s: Slot)
    requires s in rows && rows[s].status != DeletionRequested
    requires rows[s].status == Live ==> rows[s].priorStatus.None?
    ensures RejectedAt(FlaggedAt(rows, s), s) == rows[s := rows[s].(priorStatus := None)]
  {
  }

  // ----- the machine: writers step by step -----

  datatype Phase = Start | Matching | Inserting | Writing | Stamping | Won | Lost

  datatype Machine = Machine(
    rows: Table,
    locks: map<Slot, nat>,          // row locks and the writers that hold them
    reqs: map<nat, Request>,
    phases: map<nat, Phase>,
    now: int)

  datatype Action =
    | Act(w: nat)
    | Supersede(s: Slot)
    | Flag(s: Slot)
    | Forget(s: Slot)
    | Tick(elapsed: nat)

  ghost predicate WellFormed(m: Machine) {
    && m.reqs.Keys == m.phases.Keys
    && (forall s | s in m.locks :: s in m.rows && m.locks[s] in m.reqs && m.reqs[m.locks[s]].slot == s
                                   && m.phases[m.locks[s]] in {Matching, Inserting, Writing})
  }

  predicate LockedByOther(m: Machine, s: Slot, w: nat) {
    s in m.locks && m.locks[s] != w
  }

  function To(m: Machine, w: nat, p: Phase): Machine {
    m.(phases := m.phases[w := p])
  }

  function Unlock(m: Machine, s: Slot, w: nat): Machine {
    if s in m.locks && m.locks[s] == w then m.(locks := m.locks - {s}) else m
  }

  // The first read: ownership and absence are judged under the row lock, if there is a row.
  function StartStep(m: Machine, w: nat): Machine
    requires w in m.reqs
  {
    var r := m.reqs[w];
    var next := if CreateOnly(r) then Inserting else if r.ifMatch.Some? then Matching else Writing;
    if !CreateOnly(r) && !EnforcesOwner(r) then To(m, w, next)
    else if LockedByOther(m, r.slot, w) then m
    else if r.slot !in m.rows then To(m, w, next)
    else if EnforcesOwner(r) && OwnedByOther(r, m.rows[r.slot]) then To(m, w, Lost)
    else To(m, w, if CreateOnly(r) && Drained(m.rows[r.slot]) then Writing else next).(locks := m.locks[r.slot := w])
  }

  // SELECT value ... FOR UPDATE, then compare.
  function MatchStep(m: Machine, w: nat, ver: string -> string): Machine
    requires w in m.reqs && m.reqs[w].ifMatch.Some?
  {
    var r := m.reqs[w];
    if LockedByOther(m, r.slot, w) then m
    else if r.slot !in m.rows || VersionOf(m.rows, r.slot, ver) != r.ifMatch.value then Unlock(To(m, w, Lost), r.slot, w)
    else To(m, w, Writing).(locks := m.locks[r.slot := w])
  }

  // INSERT ... ON CONFLICT DO NOTHING: the unique index decides.
  function InsertStep(m: Machine, w: nat): Machine
    requires w in m.reqs
  {
    var r := m.reqs[w];
    if r.slot in m.rows then Unlock(To(m, w, Lost), r.slot, w)
    else To(m, w, Won).(rows := Upserted(m.rows, r, m.now))
  }

  // The upsert, and the commit that ends the transaction.
  function WriteStep(m: Machine, w: nat): Machine
    requires w in m.reqs
  {
    var r := m.reqs[w];
    if LockedByOther(m, r.slot, w) then m
    else Unlock(To(m, w, if CreateOnly(r) || r.slot.scope != "project" then Won else Stamping), r.slot, w)
         .(rows := Upserted(m.rows, r, m.now))
  }

  // The stamp waits for the rows it has to change.
  function StampStep(m: Machine, w: nat): Machine
    requires w in m.reqs
  {
    var s := m.reqs[w].slot;
    if exists t | t in m.rows :: Twins(s, t) && m.rows[t].status == Live && LockedByOther(m, t, w) then m
    else To(m, w, Won).(rows := Collapsed(m.rows, s))
  }

  function Exec(m: Machine, a: Action, ver: string -> string): Machine {
    match a
    case Act(w) =>
      if w !in m.reqs || w !in m.phases then m
      else (match m.phases[w]
            case Start => StartStep(m, w)
            case Matching => if m.reqs[w].ifMatch.Some? then MatchStep(m, w, ver) else m
            case Inserting => InsertStep(m, w)
            case Writing => WriteStep(m, w)
            case Stamping => StampStep(m, w)
            case _ => m)
    case Supersede(s) => if s in m.locks then m else m.(rows := SupersededAt(m.rows, s))
    case Flag(s) => if s in m.locks then m else m.(rows := FlaggedAt(m.rows, s))
    case Forget(s) => if s in m.locks then m else m.(rows := m.rows - {s})
    case Tick(elapsed) => m.(now := m.now + elapsed)
  }

  function At(m: Machine, run: seq<Action>, i: nat, ver: string -> string): Machine
    requires i <= |run|
  {
    if i == 0 then m else Exec(At(m, run, i - 1, ver), run[i - 1], ver)
  }

  // A run, as the machines between its actions.
  ghost predicate IsRun(trace: seq<Machine>, run: seq<Action>, ver: string -> string) {
    |trace| == |run| + 1 && forall i | 0 <= i < |run| :: trace[i + 1] == Exec(trace[i], run[i], ver)
  }

  lemma {:induction false} RunIsAt(trace: seq<Machine>, run: seq<Action>, i: nat, ver: string -> string)
    requires IsRun(trace, run, ver) && i <= |run|
    ensures trace[i] == At(trace[0], run, i, ver)
    decreases i
  {
    hide Exec;
    if i > 0 {
      RunIsAt(trace, run, i - 1, ver);
      assert trace[i - 1 + 1] == Exec(trace[i - 1], run[i - 1], ver);
    }
  }

  ghost predicate Initial(m: Machine) {
    && m.reqs.Keys == m.phases.Keys && m.locks == map[]
    && forall w | w in m.phases :: m.phases[w] == Start
  }

  // ----- conditional writes lose no update -----

  // A conditional writer about to write holds the lock on a row that is still what it named.
  ghost predicate Armed(m: Machine, w: nat, ver: string -> string)
    requires w in m.reqs
  {
    var r := m.reqs[w];
    r.ifMatch.Some? ==>
      && r.slot in m.rows && r.slot in m.locks && m.locks[r.slot] == w
      && if CreateOnly(r) then Drained(m.rows[r.slot]) else VersionOf(m.rows, r.slot, ver) == r.ifMatch.value
  }

  ghost predicate Inv(m: Machine, ver: string -> string) {
    && WellFormed(m)
    && (forall w | w in m.phases && m.phases[w] == Writing :: Armed(m, w, ver))
    && (forall w | w in m.phases && m.phases[w] == Matching :: m.reqs[w].ifMatch.Some? && !CreateOnly(m.reqs[w]))
    && (forall w | w in m.phases && m.phases[w] == Inserting :: CreateOnly(m.reqs[w]))
  }

  // What the rest of the machine sees of a step.
  ghost predicate Framed(m: Machine, n: Machine, a: Action) {
    && n.reqs == m.reqs && n.phases.Keys == m.phases.Keys
    && (forall w | w in m.phases && a != Act(w) :: n.phases[w] == m.phases[w])
    && (forall s | s in m.locks && a != Act(m.locks[s]) ::
          && s in n.locks && n.locks[s] == m.locks[s]
          && s in n.rows && s in m.rows && n.rows[s] == m.rows[s])
    && (forall s | s in n.locks :: (s in m.locks && n.locks[s] == m.locks[s]) || a == Act(n.locks[s]))
    && (a.Act? && a.w !in m.reqs ==> n == m)
  }

  lemma StampFrame(m: Machine, w: nat)
    requires WellFormed(m) && w in m.reqs && m.phases[w] == Stamping
    ensures Framed(m, StampStep(m, w), Act(w))
  {
    var n := StampStep(m, w);
    forall s | s in m.locks
      ensures s in n.locks && n.locks[s] == m.locks[s] && s in n.rows && n.rows[s] == m.rows[s]
    {
      assert LockedByOther(m, s, w);
    }
  }

  lemma WriteFrame(m: Machine, w: nat)
    requires WellFormed(m) && w in m.reqs
    ensures Framed(m, WriteStep(m, w), Act(w))
  {
  }

  lemma InsertFrame(m: Machine, w: nat)
    requires WellFormed(m) && w in m.reqs
    ensures Framed(m, InsertStep(m, w), Act(w))
  {
  }

  lemma StartFrame(m: Machine, w: nat)
    requires WellFormed(m) && w in m.reqs
    ensures Framed(m, StartStep(m, w), Act(w))
  {
    var n := StartStep(m, w);
    assert n.rows == m.rows && n.reqs == m.reqs;
    assert n.locks == m.locks || (!LockedByOther(m, m.reqs[w].slot, w) && n.locks == m.locks[m.reqs[w].slot := w]);
  }

  lemma MatchFrame(m: Machine, w: nat, ver: string -> string)
    requires WellFormed(m) && w in m.reqs && m.reqs[w].ifMatch.Some?
    ensures Framed(m, MatchStep(m, w, ver), Act(w))
  {
  }

  // A step moves only the acting writer, and no one touches a row that someone else has locked.
  lemma StepFrame(m: Machine, a: Action, ver: string -> string)
    requires WellFormed(m)
    ensures Framed(m, Exec(m, a, ver), a)
  {
    match a
    case Act(w) =>
      if w in m.reqs {
        match m.phases[w] {
          case Start => StartFrame(m, w);
          case Matching => if m.reqs[w].ifMatch.Some? { MatchFrame(m, w, ver); }
          case Inserting => InsertFrame(m, w);
          case Writing => WriteFrame(m, w);
          case Stamping => StampFrame(m, w);
          case _ =>
        }
      }
    case _ =>
  }

  // What the acting writer's own step gives it.
  ghost predicate OwnOk(n: Machine, w: nat, ver: string -> string) {
    && w in n.phases && w in n.reqs
    && (n.phases[w] == Writing ==> Armed(n, w, ver))
    && (n.phases[w] == Matching ==> n.reqs[w].ifMatch.Some? && !CreateOnly(n.reqs[w]))
    && (n.phases[w] == Inserting ==> CreateOnly(n.reqs[w]))
    && (forall s | s in n.locks && n.locks[s] == w ::
          s in n.rows && n.reqs[w].slot == s && n.phases[w] in {Matching, Inserting, Writing})
  }

  lemma OwnStep(m: Machine, w: nat, ver: string -> string)
    requires Inv(m, ver) && w in m.reqs
    ensures OwnOk(Exec(m, Act(w), ver), w, ver)
  {
    match m.phases[w]
    case Start =>
      OwnStart(m, w, ver);
    case Matching =>
      hide Armed;
      assert forall s | s in m.locks && m.locks[s] == w :: s == m.reqs[w].slot;
      OwnMatch(m, w, ver);
    case Writing =>
      assert Armed(m, w, ver);
    case _ =>
  }

  lemma OwnStart(m: Machine, w: nat, ver: string -> string)
    requires WellFormed(m) && w in m.reqs && m.phases[w] == Start
    ensures OwnOk(StartStep(m, w), w, ver)
  {
    assert forall s | s in m.locks :: m.locks[s] != w;
  }

  lemma OwnMatch(m: Machine, w: nat, ver: string -> string)
    requires WellFormed(m) && w in m.reqs && m.phases[w] == Matching
    requires m.reqs[w].ifMatch.Some? && !CreateOnly(m.reqs[w])
    ensures OwnOk(MatchStep(m, w, ver), w, ver)
  {
  }

  lemma FramedKeepsLocks(m: Machine, n: Machine, a: Action, ver: string -> string)
    requires WellFormed(m) && Framed(m, n, a)
    requires a.Act? && a.w in m.reqs ==> OwnOk(n, a.w, ver)
    ensures WellFormed(n)
  {
    hide Armed;
    forall s | s in n.locks
      ensures && s in n.rows && n.locks[s] in n.reqs && n.reqs[n.locks[s]].slot == s
              && n.phases[n.locks[s]] in {Matching, Inserting, Writing}
    {
      if s in m.locks && a != Act(m.locks[s]) {
        assert n.locks[s] == m.locks[s];
      }
    }
  }

  lemma FramedKeepsArmed(m: Machine, n: Machine, a: Action, ver: string -> string)
    requires Inv(m, ver) && Framed(m, n, a)
    requires a.Act? && a.w in m.reqs ==> OwnOk(n, a.w, ver)
    ensures forall w | w in n.phases && n.phases[w] == Writing :: Armed(n, w, ver)
    ensures forall w | w in n.phases && n.phases[w] == Matching :: n.reqs[w].ifMatch.Some? && !CreateOnly(n.reqs[w])
    ensures forall w | w in n.phases && n.phases[w] == Inserting :: CreateOnly(n.reqs[w])
  {
    forall w | w in n.phases && n.phases[w] == Writing
      ensures Armed(n, w, ver)
    {
      if a != Act(w) {
        assert Armed(m, w, ver);
      }
    }
  }

  lemma StepKeepsInv(m: Machine, a: Action, ver: string -> string)
    requires Inv(m, ver)
    ensures Inv(Exec(m, a, ver), ver)
    ensures Exec(m, a, ver).reqs == m.reqs && Exec(m, a, ver).phases.Keys == m.phases.Keys
  {
    StepFrame(m, a, ver);
    if a.Act? && a.w in m.reqs {
      OwnStep(m, a.w, ver);
    }
    hide Exec, Armed, OwnOk;
    FramedKeepsLocks(m, Exec(m, a, ver), a, ver);
    FramedKeepsArmed(m, Exec(m, a, ver), a, ver);
  }

  lemma {:induction false} RunKeepsInv(m: Machine, run: seq<Action>, i: nat, ver: string -> string)
    requires Inv(m, ver) && i <= |run|
    ensures Inv(At(m, run, i, ver), ver) && At(m, run, i, ver).reqs == m.reqs
    ensures At(m, run, i, ver).phases.Keys == m.phases.Keys
  {
    if i > 0 {
      RunKeepsInv(m, run, i - 1, ver);
      StepKeepsInv(At(m, run, i - 1, ver), run[i - 1], ver);
    }
  }

  /** Under any interleaving, a conditional write that goes through replaces a value whose version it named. */
  lemma ConditionalWriteReplacesWhatItNamed(m: Machine, run: seq<Action>, i: nat, w: nat, ver: string -> string)
    requires Initial(m) && i < |run| && run[i] == Act(w) && w in m.reqs
    requires m.reqs[w].ifMatch.Some? && !CreateOnly(m.reqs[w])
    requires w in At(m, run, i, ver).phases && At(m, run, i, ver).phases[w] == Writing
    ensures var before := At(m, run, i, ver);
            var after := At(m, run, i + 1, ver);
            var s := m.reqs[w].slot;
            && s in before.rows && ver(before.rows[s].value) == m.reqs[w].ifMatch.value
            && w in after.phases && after.phases[w] in {Stamping, Won}
            && after.rows == Upserted(before.rows, m.reqs[w], before.now)
  {
    RunKeepsInv(m, run, i, ver);
    assert Armed(At(m, run, i, ver), w, ver);
  }

  lemma WinningStep(m: Machine, w: nat, ver: string -> string)
    requires WellFormed(m) && w in m.reqs && m.phases[w] !in {Stamping, Won}
    requires w in Exec(m, Act(w), ver).phases && Exec(m, Act(w), ver).phases[w] in {Stamping, Won}
    ensures m.phases[w] in {Inserting, Writing}
    ensures Exec(m, Act(w), ver).rows == Upserted(m.rows, m.reqs[w], m.now)
  {
    hide Upserted, OwnedByOther, VersionOf;
    match m.phases[w]
    case Start =>
    case Matching =>
    case _ =>
  }

  /** A writer is told it won only after its own write went through. */
  lemma {:induction false} WinnersWrote(m: Machine, run: seq<Action>, i: nat, w: nat, ver: string -> string)
    requires Initial(m) && i <= |run| && w in m.reqs && w in At(m, run, i, ver).phases
    requires At(m, run, i, ver).phases[w] in {Stamping, Won}
    ensures exists k :: 0 <= k < i && run[k] == Act(w) && w in At(m, run, k, ver).phases
                        && At(m, run, k, ver).phases[w] in {Inserting, Writing}
                        && At(m, run, k + 1, ver).rows == Upserted(At(m, run, k, ver).rows, m.reqs[w], At(m, run, k, ver).now)
  {
    if i > 0 {
      RunKeepsInv(m, run, i - 1, ver);
      var p := At(m, run, i - 1, ver);
      StepFrame(p, run[i - 1], ver);
      hide Exec, Inv;
      if p.phases[w] in {Stamping, Won} {
        WinnersWrote(m, run, i - 1, w, ver);
      } else {
        assert run[i - 1] == Act(w);
        WinningStep(p, w, ver);
        assert At(m, run, i, ver) == Exec(p, Act(w), ver);
      }
    }
  }

  // ----- create-only writers: exactly one succeeds -----

  predicate Vacant(m: Machine, s: Slot) {
    s !in m.rows || Drained(m.rows[s])
  }

  // Only create-only writers touch the slot.
  ghost predicate Contested(reqs: map<nat, Request>, s: Slot) {
    forall w | w in reqs && (reqs[w].slot == s || Twins(reqs[w].slot, s)) :: CreateOnly(reqs[w])
  }

  predicate LeavesAlone(a: Action, s: Slot) {
    match a
    case Supersede(t) => t != s
    case Flag(t) => t != s
    case Forget(t) => t != s
    case _ => true
  }

  ghost predicate HasWon(m: Machine, w: nat, s: Slot) {
    w in m.reqs && w in m.phases && m.reqs[w].slot == s && m.phases[w] == Won
  }

  ghost predicate RaceInv(m: Machine, s: Slot) {
    && (forall w | w in m.reqs && m.reqs[w].slot == s && w in m.phases ::
          && m.phases[w] in {Start, Inserting, Writing, Won, Lost}
          && (m.phases[w] == Inserting && Vacant(m, s) ==> s !in m.rows)
          && (m.phases[w] == Lost ==> !Vacant(m, s)))
    && (forall w | w in m.reqs && Twins(m.reqs[w].slot, s) && w in m.phases :: m.phases[w] != Stamping)
    && (Vacant(m, s) <==> forall w | w in m.reqs :: !HasWon(m, w, s))
    && (forall v, w | HasWon(m, v, s) && HasWon(m, w, s) :: v == w)
  }

  // A contender's own step.
  lemma ContenderStep(m: Machine, w: nat, s: Slot, ver: string -> string)
    requires Inv(m, ver) && w in m.reqs && m.reqs[w].slot == s && CreateOnly(m.reqs[w])
    requires m.phases[w] in {Start, Inserting, Writing, Won, Lost}
    requires m.phases[w] == Inserting && Vacant(m, s) ==> s !in m.rows
    requires m.phases[w] == Lost ==> !Vacant(m, s)
    ensures var n := Exec(m, Act(w), ver);
            && n.reqs == m.reqs && w in n.phases
            && n.phases[w] in {Start, Inserting, Writing, Won, Lost}
            && (m.phases[w] == Won ==> n.phases[w] == Won)
            && (n.phases[w] == Inserting && Vacant(n, s) ==> s !in n.rows)
            && (n.phases[w] == Lost ==> !Vacant(n, s))
            && if n.phases[w] == Won && m.phases[w] != Won then Vacant(m, s) && !Vacant(n, s)
               else n.rows == m.rows
  {
    match m.phases[w]
    case Writing =>
      assert Armed(m, w, ver);
    case _ =>
  }

  // Nobody else's step touches the slot.
  lemma BystanderStep(m: Machine, a: Action, s: Slot, ver: string -> string)
    requires WellFormed(m) && LeavesAlone(a, s)
    requires a.Act? && a.w in m.reqs ==>
               m.reqs[a.w].slot != s && (Twins(m.reqs[a.w].slot, s) ==> m.phases[a.w] != Stamping)
    ensures var n := Exec(m, a, ver);
            (s in n.rows <==> s in m.rows) && (s in m.rows ==> n.rows[s] == m.rows[s])
  {
    if a.Act? && a.w in m.reqs {
      match m.phases[a.w] {
        case Start => assert StartStep(m, a.w).rows == m.rows;
        case Matching => assert Exec(m, a, ver).rows == m.rows;
        case _ =>
      }
    }
  }

  // A create-only writer of a twin row never gets as far as the stamp.
  lemma CreateOnlyNeverStamps(m: Machine, w: nat, ver: string -> string)
    requires Inv(m, ver) && w in m.reqs && CreateOnly(m.reqs[w]) && m.phases[w] != Stamping
    ensures w in Exec(m, Act(w), ver).phases && Exec(m, Act(w), ver).phases[w] != Stamping
  {
  }

  lemma RaceStep(m: Machine, a: Action, s: Slot, ver: string -> string)
    requires Inv(m, ver) && Contested(m.reqs, s) && RaceInv(m, s) && LeavesAlone(a, s)
    ensures RaceInv(Exec(m, a, ver), s)
  {
    if a.Act? && a.w in m.reqs && m.reqs[a.w].slot == s {
      RaceOwnStep(m, a.w, s, ver);
    } else {
      StepFrame(m, a, ver);
      if a.Act? && a.w in m.reqs && m.phases[a.w] != Stamping && CreateOnly(m.reqs[a.w]) {
        CreateOnlyNeverStamps(m, a.w, ver);
      }
      BystanderStep(m, a, s, ver);
      hide Exec, Inv;
      RaceBystander(m, Exec(m, a, ver), a, s);
    }
  }

  lemma RaceOwnStep(m: Machine, w: nat, s: Slot, ver: string -> string)
    requires Inv(m, ver) && Contested(m.reqs, s) && RaceInv(m, s) && w in m.reqs && m.reqs[w].slot == s
    ensures RaceInv(Exec(m, Act(w), ver), s)
  {
    var n := Exec(m, Act(w), ver);
    StepFrame(m, Act(w), ver);
    ContenderStep(m, w, s, ver);
    hide Exec, Inv;
    RaceWon(m, n, w, s);
    RaceContender(m, n, w, s);
  }

  lemma RaceBystander(m: Machine, n: Machine, a: Action, s: Slot)
    requires m.reqs.Keys == m.phases.Keys && RaceInv(m, s) && Framed(m, n, a)
    requires (s in n.rows <==> s in m.rows) && (s in m.rows ==> n.rows[s] == m.rows[s])
    requires a.Act? && a.w in m.reqs ==> m.reqs[a.w].slot != s
    requires a.Act? && a.w in m.reqs && Twins(m.reqs[a.w].slot, s) ==> n.phases[a.w] != Stamping
    ensures RaceInv(n, s)
  {
    assert forall v | v in m.reqs && m.reqs[v].slot == s :: n.phases[v] == m.phases[v];
    assert forall v :: HasWon(m, v, s) <==> HasWon(n, v, s);
    assert Vacant(m, s) == Vacant(n, s);
  }

  lemma RaceContender(m: Machine, n: Machine, w: nat, s: Slot)
    requires m.reqs.Keys == m.phases.Keys && RaceInv(m, s) && Framed(m, n, Act(w))
    requires w in m.reqs && m.reqs[w].slot == s
    requires n.phases[w] in {Start, Inserting, Writing, Won, Lost}
    requires n.phases[w] == Inserting && Vacant(n, s) ==> s !in n.rows
    requires n.phases[w] == Lost ==> !Vacant(n, s)
    requires if n.phases[w] == Won && m.phases[w] != Won then !Vacant(n, s) else n.rows == m.rows
    ensures forall v | v in n.reqs && n.reqs[v].slot == s ::
              && n.phases[v] in {Start, Inserting, Writing, Won, Lost}
              && (n.phases[v] == Inserting && Vacant(n, s) ==> s !in n.rows)
              && (n.phases[v] == Lost ==> !Vacant(n, s))
    ensures forall v | v in n.reqs && Twins(n.reqs[v].slot, s) :: n.phases[v] != Stamping
  {
  }

  // The winners after a contender's step.
  lemma RaceWon(m: Machine, n: Machine, w: nat, s: Slot)
    requires RaceInv(m, s) && w in m.reqs && m.reqs[w].slot == s && w in n.phases && w in m.phases
    requires n.reqs == m.reqs && n.phases.Keys == m.phases.Keys
    requires forall v | v in m.phases && v != w :: n.phases[v] == m.phases[v]
    requires m.phases[w] == Won ==> n.phases[w] == Won
    requires if n.phases[w] == Won && m.phases[w] != Won then Vacant(m, s) && !Vacant(n, s) else n.rows == m.rows
    ensures Vacant(n, s) <==> forall v | v in n.reqs :: !HasWon(n, v, s)
    ensures forall v, u | HasWon(n, v, s) && HasWon(n, u, s) :: v == u
  {
    assert forall v | v != w :: HasWon(m, v, s) <==> HasWon(n, v, s);
    if n.phases[w] == Won {
      assert HasWon(n, w, s);
      if m.phases[w] == Won {
        assert HasWon(m, w, s);
      }
    }
  }

  lemma RaceStart(m: Machine, s: Slot, ver: string -> string)
    requires Initial(m) && Vacant(m, s)
    ensures RaceInv(m, s) && Inv(m, ver)
  {
  }

  lemma {:induction false} RaceRun(m: Machine, run: seq<Action>, i: nat, s: Slot, ver: string -> string)
    requires Initial(m) && Contested(m.reqs, s) && Vacant(m, s) && i <= |run|
    requires forall k | 0 <= k < i :: LeavesAlone(run[k], s)
    ensures Inv(At(m, run, i, ver), ver) && At(m, run, i, ver).reqs == m.reqs
    ensures RaceInv(At(m, run, i, ver), s)
  {
    RaceStart(m, s, ver);
    hide Inv, RaceInv, Exec, Vacant, Contested, LeavesAlone;
    if i > 0 {
      RaceRun(m, run, i - 1, s, ver);
      var p := At(m, run, i - 1, ver);
      assert LeavesAlone(run[i - 1], s);
      StepKeepsInv(p, run[i - 1], ver);
      RaceStep(p, run[i - 1], s, ver);
    }
  }

  /**
   Of any number of concurrent create-only writers on an absent or drained key exactly one
   succeeds, whatever the interleaving.
   */
  lemma ExactlyOneCreates(trace: seq<Machine>, run: seq<Action>, s: Slot, w: nat, ver: string -> string)
    requires IsRun(trace, run, ver) && Initial(trace[0]) && Contested(trace[0].reqs, s) && Vacant(trace[0], s)
    requires forall k | 0 <= k < |run| :: LeavesAlone(run[k], s)
    requires w in trace[0].reqs && trace[0].reqs[w].slot == s
    requires Settled(trace[|run|], s)
    ensures exists v :: HasWon(trace[|run|], v, s) && forall u | HasWon(trace[|run|], u, s) :: u == v
  {
    RunIsAt(trace, run, |run|, ver);
    RaceRun(trace[0], run, |run|, s, ver);
    hide At, Inv, Exec;
    SettledRace(trace[|run|], s, w);
  }

  // Every writer of the slot has finished.
  ghost predicate Settled(m: Machine, s: Slot) {
    forall v | v in m.reqs && m.reqs[v].slot == s :: v in m.phases && m.phases[v] in {Won, Lost}
  }

  lemma SettledRace(n: Machine, s: Slot, w: nat)
    requires RaceInv(n, s) && Settled(n, s) && w in n.reqs && n.reqs[w].slot == s
    ensures exists v :: HasWon(n, v, s) && forall u | HasWon(n, u, s) :: u == v
  {
    if n.phases[w] == Won {
      assert HasWon(n, w, s);
    }
  }

  // ----- ownership is judged at the read -----

  predicate Active(m: Machine, w: nat) {
    w in m.phases && m.phases[w] in {Matching, Inserting, Writing}
  }

  // Since its read found a row, the writer has that row locked and nobody has changed it.
  ghost predicate Guards(m: Machine, w: nat, row: Row) {
    && w in m.reqs && w in m.phases && m.phases[w] != Start
    && (Active(m, w) ==>
          var s := m.reqs[w].slot;
          s in m.locks && m.locks[s] == w && s in m.rows && m.rows[s] == row)
  }

  lemma StartGuards(m: Machine, w: nat)
    requires w in m.reqs && w in m.phases && m.phases[w] == Start && EnforcesOwner(m.reqs[w]) && m.reqs[w].slot in m.rows
    requires w in StartStep(m, w).phases && StartStep(m, w).phases[w] != Start
    ensures Guards(StartStep(m, w), w, m.rows[m.reqs[w].slot])
    ensures Active(StartStep(m, w), w) ==> !OwnedByOther(m.reqs[w], m.rows[m.reqs[w].slot])
  {
  }

  lemma OwnStepGuards(m: Machine, w: nat, row: Row, ver: string -> string)
    requires Inv(m, ver) && Guards(m, w, row)
    ensures Guards(Exec(m, Act(w), ver), w, row)
    ensures Active(Exec(m, Act(w), ver), w) ==> Active(m, w)
  {
  }

  lemma StepGuards(m: Machine, a: Action, w: nat, row: Row, ver: string -> string)
    requires Inv(m, ver) && Guards(m, w, row)
    ensures Guards(Exec(m, a, ver), w, row)
    ensures Active(Exec(m, a, ver), w) ==> Active(m, w)
  {
    if a == Act(w) {
      OwnStepGuards(m, w, row, ver);
    } else {
      StepFrame(m, a, ver);
      hide Exec, Inv;
    }
  }

  lemma RunNext(trace: seq<Machine>, run: seq<Action>, k: nat, ver: string -> string)
    requires IsRun(trace, run, ver) && k < |run|
    ensures |trace| == |run| + 1 && trace[k + 1] == Exec(trace[k], run[k], ver)
  {
  }

  lemma {:induction false} InvAt(trace: seq<Machine>, run: seq<Action>, i: nat, ver: string -> string)
    requires IsRun(trace, run, ver) && i < |trace| && Inv(trace[0], ver)
    ensures Inv(trace[i], ver) && trace[i].reqs == trace[0].reqs
    decreases i
  {
    hide Inv, Exec;
    if i > 0 {
      InvAt(trace, run, i - 1, ver);
      RunNext(trace, run, i - 1, ver);
      StepKeepsInv(trace[i - 1], run[i - 1], ver);
    }
  }

  lemma {:induction false} RunGuards(trace: seq<Machine>, run: seq<Action>, i: nat, j: nat, w: nat, row: Row, ver: string -> string)
    requires IsRun(trace, run, ver) && i <= j < |trace| && Inv(trace[0], ver) && Guards(trace[i], w, row)
    ensures Guards(trace[j], w, row)
    ensures Active(trace[j], w) ==> Active(trace[i], w)
    decreases j
  {
    hide Inv, Exec, Guards, Active;
    if i < j {
      RunGuards(trace, run, i, j - 1, w, row, ver);
      RunNext(trace, run, j - 1, ver);
      InvAt(trace, run, j - 1, ver);
      StepGuards(trace[j - 1], run[j - 1], w, row, ver);
    }
  }

  // The writer's first read, at i, and the upsert it is about to make, at j.
  ghost predicate ReadsThenWrites(trace: seq<Machine>, run: seq<Action>, w: nat, i: nat, j: nat) {
    && i < j < |run| && |trace| == |run| + 1 && run[i] == Act(w) && run[j] == Act(w)
    && w in trace[0].reqs && w in trace[i].phases && w in trace[i + 1].phases && w in trace[j].phases
    && trace[i].phases[w] == Start && trace[i + 1].phases[w] != Start && trace[j].phases[w] == Writing
  }

  // At the upsert the slot holds another principal's live row.
  predicate FacesForeign(m: Machine, r: Request) {
    r.slot in m.rows && OwnedByOther(r, m.rows[r.slot])
  }

  /**
   Ownership is judged when the writer first reads.  If that read found a row, the writer holds
   its lock, and its upsert never goes over another principal's live row; if it found none there
   is nothing to lock, and the upsert goes over whatever live row another principal has put there
   since, unless someone has that row locked.
   */
  lemma OwnershipHoldsIff(trace: seq<Machine>, run: seq<Action>, w: nat, i: nat, j: nat, ver: string -> string)
    requires IsRun(trace, run, ver) && Inv(trace[0], ver) && ReadsThenWrites(trace, run, w, i, j)
    requires EnforcesOwner(trace[0].reqs[w])
    ensures var r := trace[0].reqs[w];
            var blocked := LockedByOther(trace[j], r.slot, w);
            var over := FacesForeign(trace[j], r) && trace[j + 1].rows == Upserted(trace[j].rows, r, trace[j].now);
            && (over <==> r.slot !in trace[i].rows && FacesForeign(trace[j], r) && !blocked)
            && (r.slot in trace[i].rows ==> !FacesForeign(trace[j], r))
  {
    var r := trace[0].reqs[w];
    InvAt(trace, run, i, ver);
    InvAt(trace, run, j, ver);
    RunNext(trace, run, i, ver);
    RunNext(trace, run, j, ver);
    WriteActs(trace[j], w, ver);
    if r.slot in trace[i].rows {
      assert trace[i + 1] == StartStep(trace[i], w);
      StartGuards(trace[i], w);
      hide Exec, Inv, StartStep;
      RunGuards(trace, run, i + 1, j, w, trace[i].rows[r.slot], ver);
      assert Active(trace[j], w);
    }
  }

  // Only a lock stops the upsert.
  lemma WriteActs(m: Machine, w: nat, ver: string -> string)
    requires w in m.reqs && w in m.phases && m.phases[w] == Writing
    ensures Exec(m, Act(w), ver).rows == if LockedByOther(m, m.reqs[w].slot, w) then m.rows else Upserted(m.rows, m.reqs[w], m.now)
    ensures FacesForeign(m, m.reqs[w]) ==> Upserted(m.rows, m.reqs[w], m.now) != m.rows
  {
    if FacesForeign(m, m.reqs[w]) {
      assert Upserted(m.rows, m.reqs[w], m.now)[m.reqs[w].slot].owner != m.rows[m.reqs[w].slot].owner;
    }
  }

  function Rivals(now: int, step: nat): Machine {
    var slot := Slot("n", "startup/next", "project", "u", Some("p"));
    Machine(
      if step <= 2 then map[] else map[slot := Row(if step == 3 then "x" else "y", Some(if step == 3 then "alice" else "bob"), None, Live, None, now, None)],
      map[],
      map[0 := Request(slot, "x", Some("alice"), None, None, false), 1 := Request(slot, "y", Some("bob"), None, None, false)],
      map[0 := if step == 0 then Start else if step <= 2 then Writing else Stamping,
          1 := if step <= 1 then Start else if step <= 3 then Writing else Stamping],
      now)
  }

  /** And it happens: two principals read the slot empty, both write, and the second goes over the first's live row. */
  lemma RivalsOverwrite(now: int, ver: string -> string)
    ensures var trace := [Rivals(now, 0), Rivals(now, 1), Rivals(now, 2), Rivals(now, 3), Rivals(now, 4)];
            var run := [Act(0), Act(1), Act(0), Act(1)];
            && IsRun(trace, run, ver) && Initial(trace[0]) && ReadsThenWrites(trace, run, 1, 1, 3)
            && FacesForeign(trace[3], trace[0].reqs[1])
            && trace[4].rows == Upserted(trace[3].rows, trace[0].reqs[1], now)
  {
    RivalsRead(now, ver);
    RivalsWrite(now, ver);
    hide Exec;
    var run := [Act(0), Act(1), Act(0), Act(1)];
    assert Rivals(now, 4).rows == Upserted(Rivals(now, 3).rows, Rivals(now, 0).reqs[1], now);
    forall k | 0 <= k < 4 ensures Rivals(now, k + 1) == Exec(Rivals(now, k), run[k], ver) {
      assert k == 0 || k == 1 || k == 2 || k == 3;
    }
  }

  lemma RivalsRead(now: int, ver: string -> string)
    ensures Exec(Rivals(now, 0), Act(0), ver) == Rivals(now, 1)
    ensures Exec(Rivals(now, 1), Act(1), ver) == Rivals(now, 2)
  {
  }

  lemma RivalsWrite(now: int, ver: string -> string)
    ensures Exec(Rivals(now, 2), Act(0), ver) == Rivals(now, 3)
    ensures Exec(Rivals(now, 3), Act(1), ver) == Rivals(now, 4)
  {
  }
}
