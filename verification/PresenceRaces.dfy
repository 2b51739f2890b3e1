/**
 Presence beats statement by statement (server/services/memory_service.py): a beat reads the
 presence row, then the seat row, and writes what it has merged; seats may change hands and other
 beats may land in between.
 */
module PresenceRaces {
  import opened Common
  import opened SeatLadder
  import opened SeatRelease

  datatype Beater =
    | Fetched(name: string, nonce: Option<string>, began: int, prior: map<string, int>)
    | Judged(name: string, nonce: Option<string>, began: int, merged: map<string, int>)

  datatype Machine = Machine(w: World, beaters: map<nat, Beater>)

  datatype Step =
    | Fetch(id: nat, name: string, nonce: Option<string>)     // SELECT the presence row
    | Judge(id: nat)                                          // SELECT the seat row, and merge
    | Land(id: nat)                                           // UPDATE or INSERT the presence row
    | Elsewhere(seats: map<string, Seat>, elapsed: nat)       // whatever happens to seats, and time

  function Exec(m: Machine, step: Step): Machine {
    match step
    case Fetch(id, name, nonce) => m.(beaters := m.beaters[id := Fetched(name, nonce, m.w.now, Sessions(m.w, name))])
    case Judge(id) =>
      if id in m.beaters && m.beaters[id].Fetched? then
        var b := m.beaters[id];
        m.(beaters := m.beaters[id := Judged(b.name, b.nonce, b.began, Merged(b.prior, b.began, Superseded(m.w, b.name), b.nonce))])
      else m
    case Land(id) =>
      if id in m.beaters && m.beaters[id].Judged? then
        var b := m.beaters[id];
        Machine(m.w.(presence := m.w.presence[b.name := Presence(m.w.now, None, None, b.merged)], seats := Touched(m.w, b.name)),
                m.beaters - {id})
      else m
    case Elsewhere(seats, elapsed) => m.(w := m.w.(seats := seats, now := m.w.now + elapsed))
  }

  // A run, as the machines between its steps.
  ghost predicate IsRun(trace: seq<Machine>, run: seq<Step>) {
    |trace| == |run| + 1 && forall k | 0 <= k < |run| :: trace[k + 1] == Exec(trace[k], run[k])
  }

  // One beat: where it fetches, where it judges, where it lands; its id is its own meanwhile.
  ghost predicate IsBeat(run: seq<Step>, id: nat, f: nat, j: nat, k: nat) {
    && f < j < k < |run| && run[f].Fetch? && run[f].id == id && run[j] == Judge(id) && run[k] == Land(id)
    && forall i | f < i < k && i != j :: !(run[i].Fetch? && run[i].id == id) && run[i] != Judge(id) && run[i] != Land(id)
  }

  // What the beat reports on: the map it writes.
  function Reported(trace: seq<Machine>, run: seq<Step>, f: nat, j: nat): map<string, int>
    requires f < |run| && run[f].Fetch? && f < |trace| && j < |trace|
  {
    Merged(Sessions(trace[f].w, run[f].name), trace[f].w.now, Superseded(trace[j].w, run[f].name), run[f].nonce)
  }

  lemma {:induction false} StaysFetched(trace: seq<Machine>, run: seq<Step>, id: nat, f: nat, j: nat, k: nat, i: nat)
    requires IsRun(trace, run) && IsBeat(run, id, f, j, k) && f < i <= j
    ensures id in trace[i].beaters
    ensures trace[i].beaters[id] == Fetched(run[f].name, run[f].nonce, trace[f].w.now, Sessions(trace[f].w, run[f].name))
    decreases i
  {
    assert trace[i - 1 + 1] == Exec(trace[i - 1], run[i - 1]);
    if i > f + 1 {
      StaysFetched(trace, run, id, f, j, k, i - 1);
    }
  }

  lemma {:induction false} StaysJudged(trace: seq<Machine>, run: seq<Step>, id: nat, f: nat, j: nat, k: nat, i: nat)
    requires IsRun(trace, run) && IsBeat(run, id, f, j, k) && j < i <= k
    ensures id in trace[i].beaters
    ensures trace[i].beaters[id] == Judged(run[f].name, run[f].nonce, trace[f].w.now, Reported(trace, run, f, j))
    decreases i
  {
    assert trace[i - 1 + 1] == Exec(trace[i - 1], run[i - 1]);
    if i > j + 1 {
      StaysJudged(trace, run, id, f, j, k, i - 1);
    } else {
      StaysFetched(trace, run, id, f, j, k, j);
    }
  }

  /** A beat writes what it merged from the presence row at its fetch and the seat row at its judgement, whatever happened since. */
  lemma BeatLandsItsOwnView(trace: seq<Machine>, run: seq<Step>, id: nat, f: nat, j: nat, k: nat)
    requires IsRun(trace, run) && IsBeat(run, id, f, j, k)
    ensures Sessions(trace[k + 1].w, run[f].name) == Reported(trace, run, f, j)
  {
    StaysJudged(trace, run, id, f, j, k, k);
    assert trace[k + 1] == Exec(trace[k], run[k]);
  }

  /**
   Exactly when a beat counts a process: the seat row did not remember displacing it when the beat
   read that row, and either the beat is the process's own or the presence row it had read
   recorded it under 300 seconds ago.  So a beat that read the seat row after the displacement never
   counts the displaced process, and one that read it before may, whenever it lands.
   */
  lemma BeatCountsIff(trace: seq<Machine>, run: seq<Step>, id: nat, f: nat, j: nat, k: nat, n: string)
    requires IsRun(trace, run) && IsBeat(run, id, f, j, k)
    ensures var prior := Sessions(trace[f].w, run[f].name);
            n in Sessions(trace[k + 1].w, run[f].name) <==>
              && n !in Superseded(trace[j].w, run[f].name)
              && (run[f].nonce == Some(n) || (n in prior && trace[f].w.now - prior[n] < COLLISION_WINDOW))
  {
    BeatLandsItsOwnView(trace, run, id, f, j, k);
  }

  // Only these two processes, or nobody named, beat at the name.
  ghost predicate OnlyTwo(m: Machine, run: seq<Step>, name: string, a: string, b: string) {
    && Sessions(m.w, name).Keys <= {a, b} && m.beaters == map[]
    && forall k | 0 <= k < |run| && run[k].Fetch? && run[k].name == name :: run[k].nonce.Some? ==> run[k].nonce.value in {a, b}
  }

  ghost predicate TwoNamed(m: Machine, name: string, a: string, b: string) {
    && Sessions(m.w, name).Keys <= {a, b}
    && forall id | id in m.beaters && m.beaters[id].name == name ::
         match m.beaters[id]
         case Fetched(_, nonce, _, prior) => prior.Keys <= {a, b} && (nonce.Some? ==> nonce.value in {a, b})
         case Judged(_, _, _, merged) => merged.Keys <= {a, b}
  }

  lemma TwoNamedStep(m: Machine, step: Step, name: string, a: string, b: string)
    requires TwoNamed(m, name, a, b)
    requires step.Fetch? && step.name == name && step.nonce.Some? ==> step.nonce.value in {a, b}
    ensures TwoNamed(Exec(m, step), name, a, b)
  {
  }

  lemma {:induction false} TwoNamedRun(trace: seq<Machine>, run: seq<Step>, name: string, a: string, b: string, i: nat)
    requires IsRun(trace, run) && i < |trace| && OnlyTwo(trace[0], run, name, a, b)
    ensures TwoNamed(trace[i], name, a, b)
    decreases i
  {
    if i > 0 {
      TwoNamedRun(trace, run, name, a, b, i - 1);
      assert trace[i - 1 + 1] == Exec(trace[i - 1], run[i - 1]);
      hide Exec, TwoNamed;
      TwoNamedStep(trace[i - 1], run[i - 1], name, a, b);
    }
  }

  /**
   Over any run in which only a predecessor and its successor beat at a name, interleaved at will:
   no beat reports a collision if it read the seat row when that row remembered the displacement.
   */
  lemma OnlyEarlyReadersCollide(trace: seq<Machine>, run: seq<Step>, id: nat, f: nat, j: nat, k: nat, gone: string, successor: string)
    requires IsRun(trace, run) && IsBeat(run, id, f, j, k) && OnlyTwo(trace[0], run, run[f].name, gone, successor)
    requires gone in Superseded(trace[j].w, run[f].name)
    ensures !ReportsCollision(run[f].name, Sessions(trace[k + 1].w, run[f].name))
  {
    TwoNamedRun(trace, run, run[f].name, gone, successor, f);
    BeatLandsItsOwnView(trace, run, id, f, j, k);
    SuccessionIsNoCollision(Sessions(trace[f].w, run[f].name), trace[f].w.now, Superseded(trace[j].w, run[f].name), run[f].nonce,
                            successor, run[f].name);
  }
}
