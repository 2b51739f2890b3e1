/**
 A lane's read-cursor when its readers and writers interleave: `death_certify` and the lane
 inheritance each read the list in one statement and write it back in another
 (server/services/session_registry.py).
 */
module LaneCursor {
  // Certificates and inheritances each read a lane's list and later write one back.
  datatype Step = ReadList(id: nat) | WriteList(id: nat)

  datatype Cell = Cell(ids: set<string>, seen: map<nat, set<string>>)

  // What a call adds to the list it read: its harvest if it is a certificate, nothing if it is an inheritance.
  function Added(harvests: map<nat, set<string>>, id: nat): set<string> {
    if id in harvests then harvests[id] else {}
  }

  function Move(c: Cell, step: Step, harvests: map<nat, set<string>>): Cell {
    match step
    case ReadList(id) => c.(seen := c.seen[id := c.ids])
    case WriteList(id) =>
      if id !in c.seen then c
      else if id !in harvests && c.seen[id] == {} then c.(seen := c.seen - {id})   // nothing to inherit, nothing written
      else Cell(c.seen[id] + Added(harvests, id), c.seen - {id})
  }

  function CellAt(start: set<string>, plan: seq<Step>, i: nat, harvests: map<nat, set<string>>): Cell
    requires i <= |plan|
    decreases i
  {
    if i == 0 then Cell(start, map[]) else Move(CellAt(start, plan, i - 1, harvests), plan[i - 1], harvests)
  }

  // Calls between their read and their write.
  function Pending(plan: seq<Step>, i: nat): set<nat>
    requires i <= |plan|
    decreases i
  {
    if i == 0 then {}
    else match plan[i - 1]
         case ReadList(id) => Pending(plan, i - 1) + {id}
         case WriteList(id) => Pending(plan, i - 1) - {id}
  }

  predicate Writes(plan: seq<Step>, i: nat, id: nat)
    requires i < |plan|
  {
    plan[i] == WriteList(id) && id in Pending(plan, i)
  }

  // Everything that has been gathered: the start, and each harvest written.
  function Harvested(start: set<string>, plan: seq<Step>, i: nat, harvests: map<nat, set<string>>): set<string>
    requires i <= |plan|
    decreases i
  {
    if i == 0 then start
    else Harvested(start, plan, i - 1, harvests)
         + (if plan[i - 1].WriteList? && Writes(plan, i - 1, plan[i - 1].id) then Added(harvests, plan[i - 1].id) else {})
  }

  // Pending calls that read before some certificate wrote.
  function Outdated(plan: seq<Step>, certs: set<nat>, i: nat): set<nat>
    requires i <= |plan|
    decreases i
  {
    if i == 0 then {}
    else match plan[i - 1]
         case ReadList(id) => Outdated(plan, certs, i - 1) - {id}
         case WriteList(id) =>
           if id in Pending(plan, i - 1) && id in certs then Pending(plan, i) else Outdated(plan, certs, i - 1) - {id}
  }

  /** No call writes back a list that it read before some certificate wrote. */
  predicate Serial(plan: seq<Step>, certs: set<nat>) {
    forall k | 0 <= k < |plan| && plan[k].WriteList? && Writes(plan, k, plan[k].id) :: plan[k].id !in Outdated(plan, certs, k)
  }

  // Each call reads once.
  predicate ReadsOnce(plan: seq<Step>) {
    forall i, j | 0 <= i < j < |plan| && plan[i].ReadList? && plan[j].ReadList? :: plan[i].id != plan[j].id
  }

  // Nothing gathered is ever missing from the list.
  ghost predicate KeepsAll(start: set<string>, plan: seq<Step>, harvests: map<nat, set<string>>) {
    forall i | 0 <= i <= |plan| :: Harvested(start, plan, i, harvests) <= CellAt(start, plan, i, harvests).ids
  }

  lemma {:induction false} SeenIsPending(start: set<string>, plan: seq<Step>, i: nat, harvests: map<nat, set<string>>)
    requires i <= |plan|
    ensures CellAt(start, plan, i, harvests).seen.Keys == Pending(plan, i)
    decreases i
  {
    if i > 0 {
      SeenIsPending(start, plan, i - 1, harvests);
    }
  }

  lemma {:induction false} SerialKeeps(start: set<string>, plan: seq<Step>, i: nat, harvests: map<nat, set<string>>)
    requires i <= |plan| && Serial(plan, harvests.Keys)
    ensures var c := CellAt(start, plan, i, harvests);
            && Harvested(start, plan, i, harvests) <= c.ids
            && forall id | id in c.seen && id !in Outdated(plan, harvests.Keys, i) :: c.seen[id] == c.ids
    decreases i
  {
    if i > 0 {
      SerialKeeps(start, plan, i - 1, harvests);
      SeenIsPending(start, plan, i - 1, harvests);
      SeenIsPending(start, plan, i, harvests);
      if plan[i - 1].WriteList? && Writes(plan, i - 1, plan[i - 1].id) {
        assert plan[i - 1].id !in Outdated(plan, harvests.Keys, i - 1);
      }
    }
  }

  // An outdated call read at r, and a certificate wrote at j since.
  lemma {:induction false} OutdatedSince(plan: seq<Step>, certs: set<nat>, k: nat, id: nat) returns (r: nat, j: nat)
    requires k <= |plan| && id in Outdated(plan, certs, k)
    ensures id in Pending(plan, k)
    ensures r < j < k && plan[r] == ReadList(id) && plan[j].WriteList? && plan[j].id in certs && plan[j].id != id
    ensures Writes(plan, j, plan[j].id)
    ensures forall t | r < t < k :: plan[t] != ReadList(id) && plan[t] != WriteList(id)
    decreases k
  {
    if id in Outdated(plan, certs, k - 1) {
      r, j := OutdatedSince(plan, certs, k - 1, id);
    } else {
      assert id in Pending(plan, k - 1);
      r := PendingSince(plan, k - 1, id);
      j := k - 1;
    }
  }

  lemma {:induction false} PendingSince(plan: seq<Step>, k: nat, id: nat) returns (r: nat)
    requires k <= |plan| && id in Pending(plan, k)
    ensures r < k && plan[r] == ReadList(id)
    ensures forall t | r < t < k :: plan[t] != ReadList(id) && plan[t] != WriteList(id)
    decreases k
  {
    if plan[k - 1] == ReadList(id) {
      r := k - 1;
    } else {
      r := PendingSince(plan, k - 1, id);
    }
  }

  // What a call has seen is the list as it was when it read.
  lemma {:induction false} SeenSince(start: set<string>, plan: seq<Step>, r: nat, k: nat, id: nat, harvests: map<nat, set<string>>)
    requires r < k <= |plan| && plan[r] == ReadList(id)
    requires forall t | r < t < k :: plan[t] != ReadList(id) && plan[t] != WriteList(id)
    ensures id in CellAt(start, plan, k, harvests).seen
    ensures CellAt(start, plan, k, harvests).seen[id] == CellAt(start, plan, r, harvests).ids
    decreases k
  {
    if k > r + 1 {
      SeenSince(start, plan, r, k - 1, id, harvests);
      assert plan[k - 1] != ReadList(id) && plan[k - 1] != WriteList(id);
    }
  }

  // A mark that only one call adds is nowhere before that call writes.
  lemma {:induction false} NotBefore(start: set<string>, plan: seq<Step>, i: nat, j: nat, harvests: map<nat, set<string>>, x: string)
    requires i <= j < |plan| && ReadsOnce(plan) && plan[j].WriteList? && Writes(plan, j, plan[j].id)
    requires x !in start && forall id | id in harvests && id != plan[j].id :: x !in harvests[id]
    ensures var c := CellAt(start, plan, i, harvests); x !in c.ids && forall id | id in c.seen :: x !in c.seen[id]
    decreases i
  {
    if i > 0 {
      NotBefore(start, plan, i - 1, j, harvests, x);
      SeenIsPending(start, plan, i - 1, harvests);
      WritesOnce(plan, i - 1, j, plan[j].id);
    }
  }

  lemma WritesOnce(plan: seq<Step>, i: nat, j: nat, id: nat)
    requires i < j < |plan| && ReadsOnce(plan) && Writes(plan, j, id)
    ensures !Writes(plan, i, id)
  {
    if Writes(plan, i, id) {
      var r := PendingSince(plan, i, id);
      var s := PendingSince(plan, j, id);
    }
  }

  lemma {:induction false} GatheredGrows(start: set<string>, plan: seq<Step>, i: nat, k: nat, harvests: map<nat, set<string>>)
    requires i <= k <= |plan|
    ensures Harvested(start, plan, i, harvests) <= Harvested(start, plan, k, harvests)
    decreases k
  {
    if i < k {
      GatheredGrows(start, plan, i, k - 1, harvests);
    }
  }

  // A list that holds a mark once holds it for good when every call found it there.
  lemma {:induction false} StaysListed(start: set<string>, plan: seq<Step>, i: nat, harvests: map<nat, set<string>>, y: string)
    requires i <= |plan| && y in start
    ensures var c := CellAt(start, plan, i, harvests); y in c.ids && forall id | id in c.seen :: y in c.seen[id]
    decreases i
  {
    if i > 0 {
      StaysListed(start, plan, i - 1, harvests, y);
    }
  }

  /** A plan that is not serial loses a letter, for some harvests and a list that was not empty. */
  lemma UnserialLoses(plan: seq<Step>, certs: set<nat>) returns (start: set<string>, harvests: map<nat, set<string>>)
    requires ReadsOnce(plan) && !Serial(plan, certs)
    ensures start != {} && harvests.Keys == certs && !KeepsAll(start, plan, harvests)
  {
    hide *;
    var k := UnserialWrite(plan, certs);
    var r, j := OutdatedSince(plan, certs, k, plan[k].id);
    start := {"y"};
    harvests := map c | c in certs :: if c == plan[j].id then {"x"} else {};
    StaleWriteLoses(start, plan, r, j, k, harvests);
    LostSomewhere(start, plan, k + 1, harvests, "x");
  }

  lemma UnserialWrite(plan: seq<Step>, certs: set<nat>) returns (k: nat)
    requires !Serial(plan, certs)
    ensures k < |plan| && plan[k].WriteList? && Writes(plan, k, plan[k].id) && plan[k].id in Outdated(plan, certs, k)
  {
    hide Writes, Outdated;
    k :| 0 <= k < |plan| && plan[k].WriteList? && Writes(plan, k, plan[k].id) && plan[k].id in Outdated(plan, certs, k);
  }

  lemma LostSomewhere(start: set<string>, plan: seq<Step>, i: nat, harvests: map<nat, set<string>>, x: string)
    requires i <= |plan| && x in Harvested(start, plan, i, harvests) && x !in CellAt(start, plan, i, harvests).ids
    ensures !KeepsAll(start, plan, harvests)
  {
    hide Harvested, CellAt;
    assert !(Harvested(start, plan, i, harvests) <= CellAt(start, plan, i, harvests).ids);
  }

  // The call that read at r and writes at k takes back what the certificate at j gathered.
  lemma StaleWriteLoses(start: set<string>, plan: seq<Step>, r: nat, j: nat, k: nat, harvests: map<nat, set<string>>)
    requires ReadsOnce(plan) && r < j < k < |plan| && start == {"y"}
    requires plan[k].WriteList? && plan[r] == ReadList(plan[k].id)
    requires forall t | r < t < k :: plan[t] != ReadList(plan[k].id) && plan[t] != WriteList(plan[k].id)
    requires plan[j].WriteList? && Writes(plan, j, plan[j].id) && plan[j].id != plan[k].id
    requires plan[j].id in harvests && forall c | c in harvests :: harvests[c] == if c == plan[j].id then {"x"} else {}
    ensures "x" in Harvested(start, plan, k + 1, harvests) && "x" !in CellAt(start, plan, k + 1, harvests).ids
  {
    assert "x" !in start && "y" in start;
    NotBefore(start, plan, r, j, harvests, "x");
    StaysListed(start, plan, k, harvests, "y");
    SeenSince(start, plan, r, k, plan[k].id, harvests);
    assert CellAt(start, plan, k + 1, harvests) == Move(CellAt(start, plan, k, harvests), plan[k], harvests);
    assert "x" in Harvested(start, plan, j + 1, harvests);
    GatheredGrows(start, plan, j + 1, k + 1, harvests);
    hide CellAt, Harvested;
  }

  /**
   Split from its read, a cursor write loses nothing, whatever has been harvested and whatever the
   list began with, if and only if no certificate or inheritance writes back a list that it read
   before some other certificate wrote.
   */
  lemma CursorKeepsAllIffSerial(plan: seq<Step>, certs: set<nat>)
    requires ReadsOnce(plan)
    ensures (forall start, harvests: map<nat, set<string>> | harvests.Keys == certs :: KeepsAll(start, plan, harvests))
            <==> Serial(plan, certs)
  {
    if Serial(plan, certs) {
      forall start, harvests: map<nat, set<string>> | harvests.Keys == certs ensures KeepsAll(start, plan, harvests) {
        forall i | 0 <= i <= |plan| ensures Harvested(start, plan, i, harvests) <= CellAt(start, plan, i, harvests).ids {
          SerialKeeps(start, plan, i, harvests);
        }
      }
    } else {
      var start, harvests := UnserialLoses(plan, certs);
    }
  }
}
