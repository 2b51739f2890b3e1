/**
 Seat claims statement by statement: a claim reads the rows its key holds and writes one of them
 by name, or looks at one candidate after the other and writes under a guard; anything may happen
 in between.  The guarded writes steal nothing; the writes by name are safe exactly when they
 land on a row that has not changed hands.
 */
module SeatRaces {
  import opened Common
  import opened SeatLadder
  import opened SeatClaim
  import opened SeatRelease
  import H = SeatHistory

  datatype Claimant =
    | Walking(q: Request, began: int)
    | Ready(q: Request, began: int, seat: string, read: Option<Seat>)   // about to write what it decided
    // the continuity branch, with the rows as they were read
    | Resuming(q: Request, seat: string, row: Seat, dupes: map<string, Seat>)
    | Dropping(q: Request, dupes: map<string, Seat>)
    // the deliberate re-seat
    | Moving(q: Request, seat: string, row: Seat, dupes: map<string, Seat>, target: string)
    | Checking(q: Request, seat: string, row: Seat, dupes: map<string, Seat>, target: string)
    | Overwriting(q: Request, seat: string, row: Seat, target: string, found: Seat)
    | Leaving(q: Request, seat: string, row: Seat)

  datatype Machine = Machine(
    w: World,
    dead: set<string>,                 // process nonces that have died
    claimants: map<nat, Claimant>)

  datatype Step =
    | Begin(id: nat, q: Request)
    // The mail, presence and breathing reads are their own statements, so their answers are open.
    | Look(id: nat, seat: string, mail: bool, beating: bool, live: bool)
    | Write(id: nat)
    | Recall(id: nat)                  // SELECT the key's rows
    | Refresh(id: nat)                 // UPDATE the row by name
    | Drop(id: nat, dupe: string)      // DELETE a duplicate by name
    | Take(id: nat)                    // INSERT the new name
    | Check(id: nat)                   // SELECT whose it is
    | Overwrite(id: nat)               // UPDATE it by name
    | Leave(id: nat)                   // DELETE the old name by name
    | Die(nonce: string)
    | Call(op: H.Op)                   // releases, beats, certificates, mail, time

  // The ladder, and the declared-successor rule, on what this claim has read.
  predicate Decided(c: Config, q: Request, began: int, seat: string, row: Option<Seat>, mail: bool, beating: bool, live: bool) {
    var age := if row.Some? then Some(began - row.value.touched) else None;
    var certified := row.Some? && CertifiedDead(row.value);
    var d := Decide(Facts(false, false, age, mail, beating, live, certified));
    && !Reserved(c, seat)
    && (d.Free?
        || (Distinct(c, q) == Some(seat) && !q.runtime && d.reason in {MailParked, GraceWindow, LiveHolder}
            && (certified || (!live && d.reason != LiveHolder && (row.None? || (age.value >= GRACE && !beating))))))
  }

  function Before(c: Claimant): int
    requires c.Ready?
  {
    if c.read.Some? && CertifiedDead(c.read.value) then c.began else c.began - LIVE
  }

  // INSERT ... ON CONFLICT DO NOTHING, or UPDATE ... WHERE last_used_at < cutoff.
  function Put(c: Config, w: World, k: Claimant): World
    requires k.Ready?
  {
    if k.read.None? then
      if k.seat in w.seats then w else Occupied(c, w, k.q, k.seat)
    else if k.seat in w.seats && w.seats[k.seat].touched < Before(k) then Occupied(c, w, k.q, k.seat)
    else w
  }

  // What the continuity read leaves the claimant about to do; None when its call is over.
  ghost function Recalled(c: Config, w: World, k: Claimant): Option<Claimant>
    requires k.Walking?
  {
    var q := k.q;
    if Shared(c, q) then None
    else if HeldBy(w, q.key) == {} || DoorClosed(c, w, q) then Some(k)
    else
      var seat := Holding(c, w, q);
      var dupes := map t | t in Mine(w, q.key, q.nonce) && t != seat :: w.seats[t];
      if WantsMove(c, w, q, seat) then
        if Reserved(c, q.preferred.value) then None
        else Some(Moving(q, seat, w.seats[seat], dupes, q.preferred.value))
      else Some(Resuming(q, seat, w.seats[seat], dupes))
  }

  // ----- the writes by name -----

  // The row an UPDATE by name would put at s.
  function Update(c: Config, m: Machine, step: Step, s: string): Option<Seat> {
    if s !in m.w.seats then None
    else match step
         case Refresh(id) =>
           if id in m.claimants && m.claimants[id].Resuming? && m.claimants[id].seat == s
           then Some(Heir(c, m.claimants[id].q, m.claimants[id].row, s, m.w.now).(created := m.w.seats[s].created)) else None
         case Overwrite(id) =>
           if id in m.claimants && m.claimants[id].Overwriting? && m.claimants[id].target == s
           then Some(Written(m.claimants[id].q, m.claimants[id].row.superseded, true, Some(s), m.w.now, m.w.seats[s].created)) else None
         case _ => None
  }

  // A DELETE by name removes the row at s, unless mail waits there.
  predicate Deletes(m: Machine, step: Step, s: string) {
    && s in m.w.seats && s !in m.w.mail
    && match step
       case Drop(id, dupe) => id in m.claimants && m.claimants[id].Dropping? && dupe in m.claimants[id].dupes && dupe == s
       case Leave(id) => id in m.claimants && m.claimants[id].Leaving? && m.claimants[id].seat == s
       case _ => false
  }

  predicate ByName(c: Config, m: Machine, step: Step, s: string) {
    Update(c, m, step, s).Some? || Deletes(m, step, s)
  }

  function Updated(c: Config, m: Machine, step: Step, s: string): World {
    if Update(c, m, step, s).Some? then m.w.(seats := m.w.seats[s := Update(c, m, step, s).value])
    else if Deletes(m, step, s) then m.w.(seats := m.w.seats - {s})
    else m.w
  }

  // ----- the machine -----

  // Death certificates name a process, and only dead ones.
  predicate Truthful(m: Machine, op: H.Op) {
    op.Certify? ==> op.cert.nonce.Some? && op.cert.nonce.value in m.dead
  }

  function Now(m: Machine, id: nat, k: Claimant): Machine {
    m.(claimants := m.claimants[id := k])
  }

  function Done(m: Machine, id: nat): Machine {
    m.(claimants := m.claimants - {id})
  }

  ghost function Act(c: Config, m: Machine, id: nat, k: Claimant, step: Step): Machine {
    match step
    case Look(_, seat, mail, beating, live) =>
      if !k.Walking? && !k.Ready? then m
      else
        var row := if seat in m.w.seats then Some(m.w.seats[seat]) else None;
        if Decided(c, k.q, k.began, seat, row, mail, beating, live)
        then Now(m, id, Ready(k.q, k.began, seat, row)) else Now(m, id, Walking(k.q, k.began))
    case Write(_) => if k.Ready? then Done(m, id).(w := Put(c, m.w, k)) else m
    case Recall(_) =>
      if !k.Walking? then m
      else if Recalled(c, m.w, k).Some? then Now(m, id, Recalled(c, m.w, k).value) else Done(m, id)
    case Refresh(_) =>
      if k.Resuming? then Now(m, id, Dropping(k.q, k.dupes)).(w := Updated(c, m, step, k.seat)) else m
    case Drop(_, dupe) =>
      if k.Dropping? && dupe in k.dupes then Now(m, id, Dropping(k.q, k.dupes - {dupe})).(w := Updated(c, m, step, dupe)) else m
    case Take(_) =>
      if !k.Moving? then m
      else if k.target in m.w.seats then Now(m, id, Checking(k.q, k.seat, k.row, k.dupes, k.target))
      else Now(m, id, Leaving(k.q, k.seat, k.row))
           .(w := m.w.(seats := m.w.seats[k.target := Written(k.q, k.row.superseded, true, Some(k.target), m.w.now, m.w.now)]))
    case Check(_) =>
      if !k.Checking? then m
      else if k.target in m.w.seats && m.w.seats[k.target].key == k.q.key 
      then Now(m, id, Overwriting(k.q, k.seat, k.row, k.target, m.w.seats[k.target]))
      else Now(m, id, Resuming(k.q, k.seat, k.row, k.dupes))
    case Overwrite(_) =>
      if k.Overwriting? then Now(m, id, Leaving(k.q, k.seat, k.row)).(w := Updated(c, m, step, k.target)) else m
    case Leave(_) =>
      if k.Leaving? then Done(m, id).(w := Updated(c, m, step, k.seat)) else m
    case _ => m
  }

  ghost function Exec(c: Config, m: Machine, step: Step): Machine {
    match step
    case Begin(id, q) => Now(m, id, Walking(q, m.w.now))
    case Die(nonce) => m.(dead := m.dead + {nonce})
    case Call(op) => if op.Claim? || !Truthful(m, op) then m else m.(w := H.Apply(c, m.w, op))
    case _ => if step.id in m.claimants then Act(c, m, step.id, m.claimants[step.id], step) else m
  }

  // A run, as the machines between its steps.
  ghost predicate IsRun(c: Config, trace: seq<Machine>, run: seq<Step>) {
    |trace| == |run| + 1 && forall k | 0 <= k < |run| :: trace[k + 1] == Exec(c, trace[k], run[k])
  }

  // ----- the invariant -----

  ghost predicate TrueCerts(w: World, dead: set<string>) {
    forall s | s in w.seats && w.seats[s].cert.Some? ::
      w.seats[s].cert.value.nonce.Some? && w.seats[s].cert.value.nonce.value in dead
  }

  /**
   Whatever a takeover could still overwrite belongs to a dead process, or has been silent for
   seven days; and a claimant in its continuity branch read rows of its own key, from which it
   was not displaced.
   */
  ghost predicate Justified(m: Machine, k: Claimant) {
    && ((k.Walking? || k.Ready?) ==> k.began <= m.w.now)
    && (k.Ready? && k.read.Some? && k.seat in m.w.seats && m.w.seats[k.seat].touched < Before(k) ==>
          m.w.seats[k.seat].nonce in m.dead || m.w.seats[k.seat].touched <= k.began - GRACE)
    && (k.Resuming? || k.Moving? || k.Checking? || k.Overwriting? || k.Leaving? ==>
          k.row.key == k.q.key && (k.row.nonce == k.q.nonce || k.q.nonce !in k.row.superseded))
    && (k.Overwriting? ==> k.found.key == k.q.key)
    && (k.Resuming? || k.Moving? || k.Checking? || k.Dropping? ==> forall t | t in k.dupes :: k.dupes[t].key == k.q.key)
  }

  // No row remembers more than eight.
  ghost predicate ShortLists(w: World) {
    forall s | s in w.seats :: |w.seats[s].superseded| <= MAX_SUPERSEDED
  }

  ghost predicate Inv(m: Machine) {
    TrueCerts(m.w, m.dead) && ShortLists(m.w) && forall id | id in m.claimants :: Justified(m, m.claimants[id])
  }

  // Nobody is in the middle of a claim, and certificates already on rows are true.
  ghost predicate Initial(m: Machine) {
    m.claimants == map[] && TrueCerts(m.w, m.dead) && ShortLists(m.w)
  }

  // What every step does to the table: a row is stamped with the present, or only its certificate changes.
  ghost predicate RowMoves(w: World, v: World) {
    && v.now >= w.now
    && forall s | s in v.seats ::
         || v.seats[s].touched == w.now
         || (s in w.seats && v.seats[s] == w.seats[s].(cert := v.seats[s].cert))
  }

  ghost predicate KeepsShort(w: World, v: World) {
    ShortLists(w) ==> ShortLists(v)
  }

  ghost predicate NoNewCerts(w: World, v: World) {
    forall s | s in v.seats && v.seats[s].cert.Some? :: s in w.seats && v.seats[s].cert == w.seats[s].cert
  }

  lemma CallMoves(c: Config, w: World, op: H.Op)
    requires !op.Claim?
    ensures RowMoves(w, H.Apply(c, w, op)) && KeepsShort(w, H.Apply(c, w, op))
    ensures !op.Certify? ==> NoNewCerts(w, H.Apply(c, w, op))
  {
    hide Claimed;
  }

  lemma ActMoves(c: Config, m: Machine, id: nat, k: Claimant, step: Step)
    requires !step.Begin? && !step.Die? && !step.Call?
    ensures var n := Act(c, m, id, k, step);
            RowMoves(m.w, n.w) && KeepsShort(m.w, n.w) && NoNewCerts(m.w, n.w) && n.dead == m.dead
  {
    hide Decided, Recalled, Written, LastEight;
    WrittenIsFresh();
  }

  lemma WrittenIsFresh()
    ensures forall q: Request, superseded, runtime, preferred, now, created {:trigger Written(q, superseded, runtime, preferred, now, created)} ::
              var row := Written(q, superseded, runtime, preferred, now, created);
              row.touched == now && row.cert.None? && row.key == q.key && row.nonce == q.nonce && |row.superseded| <= MAX_SUPERSEDED
  {
  }

  lemma RowMovesKeepJustified(m: Machine, n: Machine, k: Claimant)
    requires Justified(m, k) && RowMoves(m.w, n.w) && m.dead <= n.dead
    ensures Justified(n, k)
  {
  }

  // The acting claimant's next position is justified where it stands.
  lemma ActJustified(c: Config, m: Machine, id: nat, k: Claimant, step: Step)
    requires TrueCerts(m.w, m.dead) && Justified(m, k) && id in m.claimants && m.claimants[id] == k
    requires !step.Begin? && !step.Die? && !step.Call?
    ensures var n := Act(c, m, id, k, step);
            && (forall i | i in n.claimants && i != id :: i in m.claimants && n.claimants[i] == m.claimants[i])
            && (id in n.claimants ==> Justified(m, n.claimants[id]))
  {
    match step
    case Recall(_) =>
      hide Decided;
      if k.Walking? && Recalled(c, m.w, k).Some? && !Recalled(c, m.w, k).value.Walking? {
        assert Holding(c, m.w, k.q) in HeldBy(m.w, k.q.key);
      }
    case Look(_, _, _, _, _) =>
      hide Recalled;
    case _ =>
      hide Decided, Recalled, Updated;
  }

  lemma StepKeepsInv(c: Config, m: Machine, step: Step)
    requires Inv(m)
    ensures Inv(Exec(c, m, step))
  {
    var n := Exec(c, m, step);
    match step
    case Begin(id, q) =>
    case Die(nonce) =>
    case Call(op) =>
      if !op.Claim? && Truthful(m, op) {
        CallMoves(c, m.w, op);
        CallKeepsCerts(c, m, op);
        hide H.Apply, Justified;
        forall i | i in n.claimants ensures Justified(n, n.claimants[i]) {
          RowMovesKeepJustified(m, n, m.claimants[i]);
        }
      }
    case _ =>
      if step.id in m.claimants {
        ActMoves(c, m, step.id, m.claimants[step.id], step);
        ActJustified(c, m, step.id, m.claimants[step.id], step);
        hide Act, Justified;
        forall i | i in n.claimants ensures Justified(n, n.claimants[i]) {
          RowMovesKeepJustified(m, n, n.claimants[i]);
        }
      }
  }

  lemma CallKeepsCerts(c: Config, m: Machine, op: H.Op)
    requires TrueCerts(m.w, m.dead) && !op.Claim? && Truthful(m, op)
    ensures TrueCerts(H.Apply(c, m.w, op), m.dead)
  {
    CallMoves(c, m.w, op);
    if !op.Certify? {
      hide H.Apply;
    }
  }

  lemma RunNext(c: Config, trace: seq<Machine>, run: seq<Step>, k: nat)
    requires IsRun(c, trace, run) && k < |run|
    ensures k + 1 < |trace| && trace[k + 1] == Exec(c, trace[k], run[k])
  {
  }

  lemma RunLength(c: Config, trace: seq<Machine>, run: seq<Step>)
    requires IsRun(c, trace, run)
    ensures |trace| == |run| + 1
  {
  }

  lemma {:induction false} RunKeepsInv(c: Config, trace: seq<Machine>, run: seq<Step>, i: nat)
    requires IsRun(c, trace, run) && i < |trace| && Inv(trace[0])
    ensures Inv(trace[i])
    decreases i
  {
    hide *;
    RunLength(c, trace, run);
    if i > 0 {
      RunKeepsInv(c, trace, run, i - 1);
      RunNext(c, trace, run, i - 1);
      StepKeepsInv(c, trace[i - 1], run[i - 1]);
    }
  }

  lemma InitialInv(m: Machine)
    requires Initial(m)
    ensures Inv(m)
  {
  }

  // ----- no stolen address -----

  // A live process's seat, touched within seven days.
  predicate Protected(m: Machine, s: string) {
    s in m.w.seats && m.w.seats[s].nonce !in m.dead && m.w.now - m.w.seats[s].touched < GRACE
  }

  // A write by name lands on a row of another session key.
  predicate Trespasses(c: Config, m: Machine, step: Step, s: string) {
    ByName(c, m, step, s) && step.id in m.claimants && m.claimants[step.id].q.key != m.w.seats[s].key
  }

  // The row's own key, writing by name, or its own process, releasing.
  predicate OwnDoing(c: Config, m: Machine, step: Step, s: string)
    requires s in m.w.seats
  {
    || (ByName(c, m, step, s) && step.id in m.claimants && m.claimants[step.id].q.key == m.w.seats[s].key)
    || (step.Call? && step.op.Release? && step.op.key == m.w.seats[s].key && step.op.nonce == m.w.seats[s].nonce)
  }

  // The row keeps its session key; and it keeps its process too, unless its own key or process acted.
  ghost predicate Keeps(c: Config, m: Machine, step: Step, s: string)
    requires s in m.w.seats
  {
    var n := Exec(c, m, step);
    && (s in n.w.seats ==> n.w.seats[s].key == m.w.seats[s].key)
    && (!OwnDoing(c, m, step, s) ==>
          s in n.w.seats && n.w.seats[s].nonce == m.w.seats[s].nonce && n.w.seats[s].superseded == m.w.seats[s].superseded)
  }

  // What a write by name does to its row.
  lemma ByNameEffect(c: Config, m: Machine, step: Step, s: string)
    requires ByName(c, m, step, s)
    ensures step.id in m.claimants
    ensures var n := Exec(c, m, step);
            if Update(c, m, step, s).Some?
            then s in n.w.seats && n.w.seats[s] == Update(c, m, step, s).value
                 && n.w.seats[s].key == m.claimants[step.id].q.key && n.w.seats[s].nonce == m.claimants[step.id].q.nonce
            else s !in n.w.seats
  {
    hide LastEight;
  }

  // A step that does not write the row by name leaves a protected row to its process.
  lemma GuardedStepKeeps(c: Config, m: Machine, step: Step, s: string)
    requires Inv(m) && Protected(m, s) && !ByName(c, m, step, s)
    ensures Keeps(c, m, step, s)
  {
    match step
    case Write(id) => GuardedWriteKeeps(c, m, id, s);
    case Call(op) => GuardedCallKeeps(c, m, op, s);
    case Begin(_, _) =>
    case Die(_) =>
    case _ =>
      if step.id in m.claimants {
        OtherActKeeps(c, m, step.id, m.claimants[step.id], step, s);
      }
  }

  lemma GuardedCallKeeps(c: Config, m: Machine, op: H.Op, s: string)
    requires s in m.w.seats
    ensures Keeps(c, m, Call(op), s)
  {
    hide Claimed;
  }

  lemma OtherActKeeps(c: Config, m: Machine, id: nat, k: Claimant, step: Step, s: string)
    requires id in m.claimants && m.claimants[id] == k && s in m.w.seats && !ByName(c, m, step, s)
    requires !step.Begin? && !step.Die? && !step.Call? && !step.Write? && step.id == id
    ensures var n := Act(c, m, id, k, step);
            s in n.w.seats && n.w.seats[s] == m.w.seats[s]
  {
    hide Decided, Recalled, Written, Heir;
  }

  // The takeover's guard.
  lemma GuardedWriteKeeps(c: Config, m: Machine, id: nat, s: string)
    requires Inv(m) && Protected(m, s)
    ensures var n := Exec(c, m, Write(id));
            s in n.w.seats && n.w.seats[s] == m.w.seats[s]
  {
    if id in m.claimants && m.claimants[id].Ready? {
      assert Justified(m, m.claimants[id]);
    }
  }

  /** One step keeps a protected seat for its key exactly when it is not a write by name from another key. */
  lemma StepKeepsIff(c: Config, m: Machine, step: Step, s: string)
    requires Inv(m) && Protected(m, s)
    ensures Keeps(c, m, step, s) <==> !Trespasses(c, m, step, s)
  {
    if ByName(c, m, step, s) {
      ByNameEffect(c, m, step, s);
    } else {
      GuardedStepKeeps(c, m, step, s);
    }
    hide Exec, ByName, Inv;
  }

  ghost predicate NothingStolen(c: Config, trace: seq<Machine>, run: seq<Step>)
    requires |trace| == |run| + 1
  {
    forall k, s | 0 <= k < |run| && Protected(trace[k], s) :: Keeps(c, trace[k], run[k], s)
  }

  ghost predicate NoTrespass(c: Config, trace: seq<Machine>, run: seq<Step>)
    requires |trace| == |run| + 1
  {
    forall k, s | 0 <= k < |run| && Protected(trace[k], s) :: !Trespasses(c, trace[k], run[k], s)
  }

  /**
   No stolen address.  On every run in which certificates name only dead processes: each step
   leaves each live process's seat touched within seven days with its session key, and with its
   process unless that key or that process itself acted, if and only if no write by name lands
   on such a seat of another key.  The guarded takeover never does it, whatever is in flight.
   */
  lemma NoStolenAddressIff(c: Config, trace: seq<Machine>, run: seq<Step>)
    requires IsRun(c, trace, run) && Initial(trace[0])
    ensures |trace| == |run| + 1 && (NothingStolen(c, trace, run) <==> NoTrespass(c, trace, run))
  {
    RunLength(c, trace, run);
    InitialInv(trace[0]);
    forall k, s | 0 <= k < |run| && Protected(trace[k], s)
      ensures Keeps(c, trace[k], run[k], s) <==> !Trespasses(c, trace[k], run[k], s)
    {
      hide *;
      RunKeepsInv(c, trace, run, k);
      StepKeepsIff(c, trace[k], run[k], s);
    }
    hide IsRun, Initial, Protected, Keeps, Trespasses;
  }

  // ----- a write by name straddles a change of hands -----

  // The row at s as the claimant read it, before it writes it by name.
  function ReadAs(k: Claimant, s: string): Option<Seat> {
    match k
    case Resuming(_, seat, row, _) => if seat == s then Some(row) else None
    case Overwriting(_, _, _, target, found) => if target == s then Some(found) else None
    case Leaving(_, seat, row) => if seat == s then Some(row) else None
    case Dropping(_, dupes) => if s in dupes then Some(dupes[s]) else None
    case _ => None
  }

  // Between its read and its write by name the row changed hands, or its memory did.
  predicate Straddles(c: Config, m: Machine, step: Step, s: string) {
    && ByName(c, m, step, s) && step.id in m.claimants
    && var read := ReadAs(m.claimants[step.id], s);
       var row := m.w.seats[s];
       read.Some? && (read.value.key != row.key || read.value.nonce != row.nonce || read.value.superseded != row.superseded)
  }

  /** Every write by name that trespasses has straddled a change of hands: what it read was its own key's row. */
  lemma TrespassStraddles(c: Config, m: Machine, step: Step, s: string)
    requires Inv(m) && Trespasses(c, m, step, s)
    ensures Straddles(c, m, step, s)
  {
    assert Justified(m, m.claimants[step.id]);
  }

  // ----- the one-way door -----

  // The successor's row stands: the key's, and its process lives and was seen within seven days.
  predicate Hosts(m: Machine, s: string, key: string) {
    Protected(m, s) && m.w.seats[s].key == key
  }

  // The row is not the displaced process's and remembers it.
  predicate Shut(m: Machine, s: string, gone: string) {
    s in m.w.seats && m.w.seats[s].nonce != gone && gone in m.w.seats[s].superseded
  }

  // What a claimant in its continuity branch still remembers of the row it read, its holder included if it displaces it.
  function Recollects(k: Claimant): seq<string>
    requires k.Resuming? || k.Overwriting?
  {
    LastEight(if k.Resuming? && k.row.nonce != k.q.nonce then k.row.superseded + [k.row.nonce] else k.row.superseded)
  }

  // About to update the row by name: the displaced process itself, or a claimant whose read does not remember it.
  predicate Forgets(m: Machine, step: Step, s: string, gone: string) {
    && (step.Refresh? || step.Overwrite?) && step.id in m.claimants && s in m.w.seats
    && var k := m.claimants[step.id];
       && (if step.Refresh? then k.Resuming? && k.seat == s else k.Overwriting? && k.target == s)
       && (k.q.nonce == gone || gone !in Recollects(k))
  }

  lemma ShutStepIff(c: Config, m: Machine, step: Step, s: string, key: string, gone: string)
    requires Inv(m) && Hosts(m, s, key) && Shut(m, s, gone) && Hosts(Exec(c, m, step), s, key)
    ensures Shut(Exec(c, m, step), s, gone) <==> !Forgets(m, step, s, gone)
  {
    if ByName(c, m, step, s) {
      ByNameEffect(c, m, step, s);
    } else {
      GuardedStepKeeps(c, m, step, s);
      if OwnDoing(c, m, step, s) {
        ReleaseRemoves(c, m, step, s);
      }
    }
    hide Exec, Inv;
  }

  // The process's own release does not leave the row standing.
  lemma ReleaseRemoves(c: Config, m: Machine, step: Step, s: string)
    requires s in m.w.seats && OwnDoing(c, m, step, s) && !ByName(c, m, step, s)
    ensures s !in Exec(c, m, step).w.seats
  {
    hide Claimed;
  }

  ghost predicate Standing(trace: seq<Machine>, s: string, key: string) {
    forall k | 0 <= k < |trace| :: Hosts(trace[k], s, key)
  }

  ghost predicate StaysShut(trace: seq<Machine>, s: string, gone: string) {
    forall k | 0 <= k < |trace| :: Shut(trace[k], s, gone)
  }

  ghost predicate NeverForgets(trace: seq<Machine>, run: seq<Step>, s: string, gone: string)
    requires |trace| == |run| + 1
  {
    forall k | 0 <= k < |run| :: !Forgets(trace[k], run[k], s, gone)
  }

  lemma StandingAt(trace: seq<Machine>, s: string, key: string, k: nat)
    requires k < |trace| && Standing(trace, s, key)
    ensures Hosts(trace[k], s, key)
  {
  }

  lemma NeverForgetsAt(trace: seq<Machine>, run: seq<Step>, s: string, gone: string, k: nat)
    requires |trace| == |run| + 1 && k < |run| && NeverForgets(trace, run, s, gone)
    ensures !Forgets(trace[k], run[k], s, gone)
  {
  }

  lemma ShutAt(c: Config, trace: seq<Machine>, run: seq<Step>, s: string, key: string, gone: string, k: nat)
    requires IsRun(c, trace, run) && k < |run| && Inv(trace[0]) && Standing(trace, s, key) && |trace| == |run| + 1
    requires Shut(trace[k], s, gone)
    ensures Shut(trace[k + 1], s, gone) <==> !Forgets(trace[k], run[k], s, gone)
  {
    hide *;
    RunKeepsInv(c, trace, run, k);
    StandingAt(trace, s, key, k);
    StandingAt(trace, s, key, k + 1);
    RunNext(c, trace, run, k);
    ShutStepIff(c, trace[k], run[k], s, key, gone);
  }

  lemma {:induction false} NeverForgottenStaysShut(c: Config, trace: seq<Machine>, run: seq<Step>, s: string, key: string, gone: string, i: nat)
    requires IsRun(c, trace, run) && |trace| == |run| + 1 && i <= |run| && Inv(trace[0]) && Standing(trace, s, key)
    requires Shut(trace[0], s, gone) && NeverForgets(trace, run, s, gone)
    ensures Shut(trace[i], s, gone)
    decreases i
  {
    hide *;
    if i > 0 {
      NeverForgottenStaysShut(c, trace, run, s, key, gone, i - 1);
      NeverForgetsAt(trace, run, s, gone, i - 1);
      ShutAt(c, trace, run, s, key, gone, i - 1);
    }
  }

  /**
   The one-way door, with whatever claims in flight.  From a state in which the successor's row
   remembers a displaced process, and for as long as that row stands, the process stays out and
   remembered if and only if no update by name hands it the row or writes a list without it.
   */
  lemma DoorHoldsIff(c: Config, trace: seq<Machine>, run: seq<Step>, s: string, key: string, gone: string)
    requires IsRun(c, trace, run) && |trace| == |run| + 1 && Inv(trace[0]) && Standing(trace, s, key)
    requires Shut(trace[0], s, gone)
    ensures StaysShut(trace, s, gone) <==> NeverForgets(trace, run, s, gone)
  {
    hide IsRun, Inv, Standing, Hosts, Shut, Forgets;
    if NeverForgets(trace, run, s, gone) {
      forall i | 0 <= i < |trace| ensures Shut(trace[i], s, gone) {
        NeverForgottenStaysShut(c, trace, run, s, key, gone, i);
      }
    }
    if StaysShut(trace, s, gone) {
      forall k | 0 <= k < |run| ensures !Forgets(trace[k], run[k], s, gone) {
        ShutAt(c, trace, run, s, key, gone, k);
      }
    }
  }

  /**
   What it takes to forget: a refresh that straddled a change of hands, a deliberate re-seat onto
   the name, or one displacement too many for the eight that a row remembers.
   */
  lemma ForgettingTakes(c: Config, m: Machine, step: Step, s: string, gone: string)
    requires Inv(m) && Shut(m, s, gone) && Forgets(m, step, s, gone)
    ensures || Straddles(c, m, step, s)
            || step.Overwrite?
            || (step.Refresh? && |m.w.seats[s].superseded| == MAX_SUPERSEDED && gone !in m.w.seats[s].superseded[1..]
                && m.claimants[step.id].q.nonce != m.w.seats[s].nonce)
  {
    var k := m.claimants[step.id];
    assert Justified(m, k);
    if step.Refresh? && !Straddles(c, m, step, s) {
      var names := m.w.seats[s].superseded;
      var row := Update(c, m, step, s).value;
      assert |names| <= MAX_SUPERSEDED;
      assert row.nonce != gone;
      if k.row.nonce != k.q.nonce && |names| == MAX_SUPERSEDED {
        assert (names + [k.row.nonce])[1..] == names[1..] + [k.row.nonce];
      }
    }
  }

  /**
   And every refresh that straddled a displacement does break the door: the newcomer it lands on
   is displaced without being remembered, and if the refresh is the displaced process's own,
   that process has its seat back with the list it had before.
   */
  lemma StraddlingRefreshBreaksTheDoor(c: Config, m: Machine, step: Step, s: string)
    requires Inv(m) && step.Refresh? && Update(c, m, step, s).Some?
    requires var k := m.claimants[step.id];
             && m.w.seats[s].nonce != k.q.nonce && m.w.seats[s].nonce != k.row.nonce
             && m.w.seats[s].nonce !in k.row.superseded && |k.row.superseded| <= MAX_SUPERSEDED
    ensures var k := m.claimants[step.id];
            var after := Exec(c, m, step).w;
            && s in after.seats && after.seats[s].nonce == k.q.nonce
            && m.w.seats[s].nonce !in after.seats[s].superseded
            && (k.row.nonce == k.q.nonce ==> after.seats[s].superseded == k.row.superseded)
  {
    ByNameEffect(c, m, step, s);
    var k := m.claimants[step.id];
    var whole := if k.row.nonce != k.q.nonce then k.row.superseded + [k.row.nonce] else k.row.superseded;
    assert Update(c, m, step, s).value.superseded == LastEight(whole);
    assert forall n | n in LastEight(whole) :: n in whole;
  }

  // ----- the dying heartbeat -----

  function TwoClaims(w: World, q1: Request, q2: Request): Machine {
    Machine(w, {}, map[1 := Walking(q1, w.now), 2 := Walking(q2, w.now)])
  }

  // Two ordinary claims of one key, whose one row is the first one's and has not displaced the second.
  ghost predicate Restart(c: Config, w: World, s: string, q1: Request, q2: Request) {
    && !Shared(c, q1) && !Shared(c, q2) && !q1.runtime && !q2.runtime && q1.key == q2.key && q1.nonce != q2.nonce
    && HeldBy(w, q1.key) == {s} && w.seats[s].nonce == q1.nonce
    && q2.nonce !in w.seats[s].superseded && |w.seats[s].superseded| <= MAX_SUPERSEDED
  }

  /**
   The dying heartbeat: the predecessor reads its row, the successor's ordinary claim displaces
   it, then the predecessor's refresh lands.  Nothing was stolen across keys, yet the displaced
   process has the seat back with its old list, the successor is not remembered, and the next two
   beats report a collision.
   */
  lemma DyingHeartbeatRetakes(c: Config, w: World, s: string, q1: Request, q2: Request)
    requires Restart(c, w, s, q1, q2) && s !in EXEMPT
    ensures var m3 := Exec(c, Exec(c, Exec(c, TwoClaims(w, q1, q2), Recall(1)), Recall(2)), Refresh(2));
            var m4 := Exec(c, m3, Refresh(1));
            && s in m3.w.seats && m3.w.seats[s].nonce == q2.nonce && Shut(m3, s, q1.nonce)
            && s in m4.w.seats && m4.w.seats[s].nonce == q1.nonce && m4.w.seats[s].superseded == w.seats[s].superseded
            && var v := Beaten(Beaten(m4.w, s, Some(q1.nonce)), s, Some(q2.nonce));
               s in v.presence && (q1.nonce !in w.seats[s].superseded ==> ReportsCollision(s, v.presence[s].sessions))
  {
    RestartReads(c, w, s, q1, q2);
    var row := w.seats[s];
    var m2 := Machine(w, {}, map[1 := Resuming(q1, s, row, map[]), 2 := Resuming(q2, s, row, map[])]);
    var m3 := Exec(c, m2, Refresh(2));
    LastIsRemembered(row.superseded, q1.nonce);
    assert m3.w.seats[s].superseded == LastEight(row.superseded + [q1.nonce]) && m3.claimants[1] == m2.claimants[1];
    var m4 := Exec(c, m3, Refresh(1));
    assert m4.w.seats[s].nonce == q1.nonce && m4.w.seats[s].superseded == row.superseded;
    hide Exec;
    if q1.nonce !in row.superseded {
      TwoBeatsCollide(m4.w, s, q1.nonce, q2.nonce);
    }
  }

  lemma LastIsRemembered(names: seq<string>, last: string)
    ensures last in LastEight(names + [last])
  {
    var whole := names + [last];
    assert LastEight(whole)[|LastEight(whole)| - 1] == last;
  }

  lemma RestartReads(c: Config, w: World, s: string, q1: Request, q2: Request)
    requires Restart(c, w, s, q1, q2)
    ensures Exec(c, Exec(c, TwoClaims(w, q1, q2), Recall(1)), Recall(2))
            == Machine(w, {}, map[1 := Resuming(q1, s, w.seats[s], map[]), 2 := Resuming(q2, s, w.seats[s], map[])])
  {
    OneRow(c, w, s, q1);
    OneRow(c, w, s, q2);
    hide Recalled;
  }

  // An ordinary claim of a key with one row reads that row and no duplicates.
  lemma OneRow(c: Config, w: World, s: string, q: Request)
    requires !Shared(c, q) && !q.runtime && HeldBy(w, q.key) == {s}
    requires w.seats[s].nonce == q.nonce || q.nonce !in w.seats[s].superseded
    ensures Recalled(c, w, Walking(q, w.now)) == Some(Resuming(q, s, w.seats[s], map[]))
  {
    assert forall t | t in Mine(w, q.key, q.nonce) :: t in HeldBy(w, q.key);
    assert s in HeldBy(w, q.key);
    assert Holding(c, w, q) == s;
    assert (map t | t in Mine(w, q.key, q.nonce) && t != s :: w.seats[t]) == map[];
  }

  lemma TwoBeatsCollide(w: World, s: string, a: string, b: string)
    requires s in w.seats && a !in w.seats[s].superseded && b !in w.seats[s].superseded && a != b && s !in EXEMPT
    ensures var v := Beaten(Beaten(w, s, Some(a)), s, Some(b));
            s in v.presence && ReportsCollision(s, v.presence[s].sessions)
  {
    var v := Beaten(Beaten(w, s, Some(a)), s, Some(b));
    assert Superseded(Beaten(w, s, Some(a)), s) == Superseded(w, s);
    var m := v.presence[s].sessions;
    assert a in m && b in m;
    TwoKeys(m.Keys, a, b);
    assert |m| == |m.Keys|;
  }

  // ----- a claim nobody interferes with is the whole call -----

  ghost function RunOf(c: Config, m: Machine, run: seq<Step>): Machine
    decreases |run|
  {
    if run == [] then m else RunOf(c, Exec(c, m, run[0]), run[1..])
  }

  lemma {:induction false} DropAll(c: Config, m: Machine, id: nat) returns (run: seq<Step>)
    requires id in m.claimants && m.claimants[id].Dropping?
    ensures RunOf(c, m, run).w == m.w.(seats := m.w.seats - (set t | t in m.claimants[id].dupes && t !in m.w.mail))
    decreases |m.claimants[id].dupes.Keys|
  {
    var k := m.claimants[id];
    if k.dupes == map[] {
      run := [];
      assert m.w.seats - (set t | t in k.dupes && t !in m.w.mail) == m.w.seats;
    } else {
      var t :| t in k.dupes;
      var n := Exec(c, m, Drop(id, t));
      assert n.claimants[id] == Dropping(k.q, k.dupes - {t});
      assert n.w == m.w.(seats := if t in m.w.mail then m.w.seats else m.w.seats - {t});
      var rest := DropAll(c, n, id);
      run := [Drop(id, t)] + rest;
      assert run[0] == Drop(id, t) && run[1..] == rest;
      assert (k.dupes - {t}).Keys == k.dupes.Keys - {t};
      assert n.w.seats - (set u | u in k.dupes - {t} && u !in m.w.mail) == m.w.seats - (set u | u in k.dupes && u !in m.w.mail);
    }
  }

  /** Left alone, the statements of an ordinary continuity claim leave the tables as the whole call does. */
  lemma AloneIsTheCall(c: Config, m: Machine, id: nat) returns (run: seq<Step>)
    requires id in m.claimants && m.claimants[id].Walking?
    requires var q := m.claimants[id].q;
             !Shared(c, q) && !q.runtime && HeldBy(m.w, q.key) != {} && !DoorClosed(c, m.w, q)
    ensures RunOf(c, m, run).w == Claimed(c, m.w, m.claimants[id].q).0
  {
    var q := m.claimants[id].q;
    var seat := Holding(c, m.w, q);
    var m1 := Exec(c, m, Recall(id));
    var dupes := map t | t in Mine(m.w, q.key, q.nonce) && t != seat :: m.w.seats[t];
    assert m1.claimants[id] == Resuming(q, seat, m.w.seats[seat], dupes);
    var m2 := Exec(c, m1, Refresh(id));
    assert m2.claimants[id] == Dropping(q, dupes);
    assert m2.w == m.w.(seats := m.w.seats[seat := Heir(c, q, m.w.seats[seat], seat, m.w.now)]);
    var drops := DropAll(c, m2, id);
    run := [Recall(id), Refresh(id)] + drops;
    assert run[0] == Recall(id) && run[1..] == [Refresh(id)] + drops && run[1..][0] == Refresh(id) && run[1..][1..] == drops;
    assert RunOf(c, m, run) == RunOf(c, m2, drops);
    assert (set t | t in dupes && t !in m.w.mail)
           == (set t | t in Mine(m.w, q.key, q.nonce) && t != seat && t !in m.w.mail);
  }

  // ----- the stolen name -----

  // What a candidate that may be granted looks like to a claim that looks at it now.
  lemma GrantableIsDecided(c: Config, w: World, q: Request, s: string)
    requires Grantable(c, w, q, s)
    ensures Decided(c, q, w.now, s, if s in w.seats then Some(w.seats[s]) else None,
                    s in w.mail, IsFresh(w, s), Breathing(w, s, q.nonce))
  {
  }

  /**
   The stolen name.  A process whose key has one row claims again and reads it; before its refresh
   lands, a claim of another key is granted that name under its guard, as it may be; the refresh
   then trespasses and takes the name from its brand-new holder.
   */
  lemma SplitRefreshSteals(c: Config, w: World, s: string, q1: Request, q2: Request)
    requires !Shared(c, q1) && !q1.runtime && HeldBy(w, q1.key) == {s} && w.seats[s].nonce == q1.nonce
    requires q1.key != q2.key && Grantable(c, w, q2, s)
    ensures var m1 := Exec(c, TwoClaims(w, q1, q2), Recall(1));
            var m2 := Exec(c, m1, Look(2, s, s in w.mail, IsFresh(w, s), Breathing(w, s, q2.nonce)));
            var m3 := Exec(c, m2, Write(2));
            var m4 := Exec(c, m3, Refresh(1));
            && s in m3.w.seats && m3.w.seats[s].key == q2.key && m3.w.seats[s].nonce == q2.nonce
            && Protected(m3, s) && Trespasses(c, m3, Refresh(1), s)
            && s in m4.w.seats && m4.w.seats[s].key == q1.key && m4.w.seats[s].nonce == q1.nonce
  {
    OneRow(c, w, s, q1);
    GrantableIsDecided(c, w, q2, s);
    hide Recalled, Decided;
    var row := w.seats[s];
    var m1 := Exec(c, TwoClaims(w, q1, q2), Recall(1));
    assert m1 == Machine(w, {}, map[1 := Resuming(q1, s, row, map[]), 2 := Walking(q2, w.now)]);
    var m2 := Exec(c, m1, Look(2, s, s in w.mail, IsFresh(w, s), Breathing(w, s, q2.nonce)));
    assert m2 == Machine(w, {}, map[1 := Resuming(q1, s, row, map[]), 2 := Ready(q2, w.now, s, Some(row))]);
    hide Act;
    StealsFrom(c, w, s, q1, q2, row);
  }

  lemma StealsFrom(c: Config, w: World, s: string, q1: Request, q2: Request, row: Seat)
    requires s in w.seats && w.seats[s] == row && q1.key != q2.key && Grantable(c, w, q2, s)
    ensures var m2 := Machine(w, {}, map[1 := Resuming(q1, s, row, map[]), 2 := Ready(q2, w.now, s, Some(row))]);
            var m3 := Exec(c, m2, Write(2));
            var m4 := Exec(c, m3, Refresh(1));
            && s in m3.w.seats && m3.w.seats[s].key == q2.key && m3.w.seats[s].nonce == q2.nonce
            && Protected(m3, s) && Trespasses(c, m3, Refresh(1), s)
            && s in m4.w.seats && m4.w.seats[s].key == q1.key && m4.w.seats[s].nonce == q1.nonce
  {
    assert row.touched < Before(Ready(q2, w.now, s, Some(row)));
  }
}
