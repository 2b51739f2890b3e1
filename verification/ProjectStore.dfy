/**
 `relabel` and `reverse` of server/services/project_alias.py as they run: a planning
 loop over the fetched rows, then single-row updates inside one transaction.
 */
module ProjectStore {
  import opened Common
  import opened ProjectMerge
  import PA = ProjectAlias

  datatype Rename = Rename(fromProject: string, key: string, newKey: string, uid: string)

  datatype Report = Report(sources: seq<string>, moved: map<string, nat>, totalMoved: nat, renamed: seq<Rename>, newKey: map<nat, string>)

  datatype Refusal =
    | BadName(name: string) | NoSources | TargetIsAlias(of: string) | PersonAddress(names: set<string>)
    | PlaceTaken    // the table constraint aborted the transaction

  function RenameOf(r: Row, newKey: string): Rename {
    Rename(r.project, r.key, newKey, r.uid)
  }

  function InvolvedIds(rows: map<nat, Row>, sources: seq<string>, target: string): set<nat> {
    set id | id in rows && Involved(rows[id], sources, target)
  }

  function SourceIds(rows: map<nat, Row>, source: string): set<nat> {
    set id | id in rows && rows[id].project == source
  }

  // A fetch returns the matching rows in some order.
  ghost predicate Fetched(order: seq<nat>, ids: set<nat>) {
    && (forall id :: id in order <==> id in ids)
    && (forall i, j | 0 <= i < j < |order| :: order[i] != order[j])
  }

  method Fetch(ids: set<nat>) returns (order: seq<nat>)
    ensures Fetched(order, ids)
  {
    order := [];
    var rest := ids;
    while rest != {}
      invariant rest <= ids && Fetched(order, ids - rest)
    {
      var id :| id in rest;
      order := order + [id];
      rest := rest - {id};
    }
  }

  // ----- validation -----

  // The distinct listed names other than the target, in first-seen order.
  function Sources(names: seq<string>, target: string): seq<string> {
    if names == [] then []
    else
      var n := names[|names| - 1];
      var before := Sources(names[..|names| - 1], target);
      if n != target && n !in before then before + [n] else before
  }

  lemma {:induction false} SourcesAre(names: seq<string>, target: string)
    ensures forall s :: s in Sources(names, target) <==> s in names && s != target
    decreases names
  {
    if names != [] { SourcesAre(names[..|names| - 1], target); }
  }

  lemma {:induction false} IndexInPrefix(p: string, names: seq<string>, n: nat)
    requires n <= |names| && p in names[..n]
    ensures IndexOf(p, names) == IndexOf(p, names[..n]) < n
  {
  }

  /** The sources are the listed names other than the target, each once, in the order they are first listed. */
  lemma {:induction false} SourcesInOrder(names: seq<string>, target: string)
    ensures forall s :: s in Sources(names, target) <==> s in names && s != target
    ensures forall a, b | 0 <= a < b < |Sources(names, target)| ::
              && Sources(names, target)[a] in names && Sources(names, target)[b] in names
              && IndexOf(Sources(names, target)[a], names) < IndexOf(Sources(names, target)[b], names)
    decreases names
  {
    SourcesAre(names, target);
    if names != [] {
      var last := |names| - 1;
      SourcesInOrder(names[..last], target);
      var before, after := Sources(names[..last], target), Sources(names, target);
      hide Sources, IndexOf;
      assert names == names[..last] + [names[last]];
      forall a, b | 0 <= a < b < |after| ensures after[a] in names && after[b] in names && IndexOf(after[a], names) < IndexOf(after[b], names) {
        assert after[a] == before[a];
        IndexInPrefix(before[a], names, last);
        if b < |before| {
          IndexInPrefix(before[b], names, last);
        } else {
          assert after[b] == names[last] && names[last] !in names[..last];
          assert IndexOf(names[last], names) == last;
        }
      }
    }
  }

  method CollectSources(names: seq<string>, target: string) returns (res: Result<seq<string>, Refusal>)
    requires ValidName(target)
    ensures res.Ok? <==> forall n | n in names :: ValidName(n)
    ensures res.Ok? ==> res.value == Sources(names, target) && ValidRequest(res.value, target)
    ensures res.Err? ==> res.error.BadName? && res.error.name in names && !ValidName(res.error.name)
  {
    var srcs := [];
    for i := 0 to |names|
      invariant forall n | n in names[..i] :: ValidName(n)
      invariant srcs == Sources(names[..i], target) && ValidRequest(srcs, target)
    {
      var s := names[i];
      if !ValidName(s) {
        return Err(BadName(s));
      }
      assert names[..i + 1][..i] == names[..i];
      if s != target && s !in srcs {
        srcs := srcs + [s];
      }
    }
    assert names[..|names|] == names;
    return Ok(srcs);
  }

  // ----- the plan -----

  /** The suffix loop: terminates, and stops at the first free name. */
  method FreeName(base: string, ns: string, uid: string, taken: set<Slot>) returns (cand: string, ghost tries: nat)
    ensures 1 <= tries && cand == Candidate(base, tries)
    ensures Slot(ns, uid, cand) !in taken
    ensures forall k | 1 <= k < tries :: Slot(ns, uid, Candidate(base, k)) in taken
  {
    cand := base;
    var n := 2;
    ghost var tried: set<Slot> := {};
    while Slot(ns, uid, cand) in taken
      invariant 2 <= n && cand == Candidate(base, n - 1)
      invariant tried == set k | 1 <= k < n - 1 :: Slot(ns, uid, Candidate(base, k))
      invariant tried <= taken
      decreases |taken - tried|
    {
      forall k | 1 <= k < n - 1 ensures Candidate(base, k) != cand {
        if Candidate(base, k) == cand {
          CandidateInjective(base, k, n - 1);
        }
      }
      ghost var slot := Slot(ns, uid, cand);
      assert slot in taken - tried && taken - (tried + {slot}) == (taken - tried) - {slot};
      tried := tried + {slot};
      cand, n := base + "-" + Decimal(n), n + 1;
    }
    tries := n - 1;
    forall k | 1 <= k < tries ensures Slot(ns, uid, Candidate(base, k)) in taken {
      assert Slot(ns, uid, Candidate(base, k)) in tried;
    }
  }

  // ----- sorting a group by rank -----

  ghost predicate Sorted(rank: map<nat, nat>, ids: seq<nat>) {
    && (forall x | x in ids :: x in rank)
    && (forall i, j | 0 <= i < j < |ids| :: rank[ids[i]] <= rank[ids[j]])
  }

  method LeastRank(rank: map<nat, nat>, ids: set<nat>) returns (least: nat)
    requires ids != {} && ids <= rank.Keys
    ensures least in ids && forall x | x in ids :: rank[least] <= rank[x]
  {
    least :| least in ids;
    var rest := ids - {least};
    while rest != {}
      invariant rest <= ids && least in ids - rest
      invariant forall x | x in ids - rest :: rank[least] <= rank[x]
    {
      var x :| x in rest;
      if rank[x] < rank[least] {
        least := x;
      }
      rest := rest - {x};
    }
  }

  method SortByRank(rank: map<nat, nat>, ids: set<nat>) returns (r: seq<nat>)
    requires ids <= rank.Keys
    ensures Sorted(rank, r) && Fetched(r, ids)
  {
    r := [];
    var rest := ids;
    while rest != {}
      invariant rest <= ids && Fetched(r, ids - rest)
      invariant Sorted(rank, r)
      invariant forall x, y | x in r && y in rest :: rank[x] <= rank[y]
    {
      var least := LeastRank(rank, rest);
      r := r + [least];
      rest := rest - {least};
    }
  }

  // ----- the plan -----

  // The rows grouped so far: each slot's rows, and the slots in first-seen order.
  ghost predicate Grouped(rows: map<nat, Row>, order: seq<nat>, groups: map<Slot, set<nat>>, slots: seq<Slot>)
    requires forall id | id in order :: id in rows
  {
    && (forall i, j | 0 <= i < j < |slots| :: slots[i] != slots[j])
    && (forall sl :: sl in slots <==> sl in groups)
    && (forall sl | sl in groups :: groups[sl] == set id | id in order && SlotOf(rows[id]) == sl)
    && (forall id | id in order :: SlotOf(rows[id]) in groups)
  }

  method Group(rows: map<nat, Row>, order: seq<nat>) returns (groups: map<Slot, set<nat>>, slots: seq<Slot>)
    requires forall id | id in order :: id in rows
    ensures Grouped(rows, order, groups, slots)
  {
    groups, slots := map[], [];
    for i := 0 to |order|
      invariant Grouped(rows, order[..i], groups, slots)
    {
      var id := order[i];
      var sl := SlotOf(rows[id]);
      assert forall x :: x in order[..i + 1] <==> x in order[..i] || x == id;
      if sl !in groups {
        slots := slots + [sl];
        groups := groups[sl := {}];
      }
      groups := groups[sl := groups[sl] + {id}];
    }
    assert order[..|order|] == order;
  }

  // What is spoken for once `newKey` has been handed out.
  function Taken(rows: map<nat, Row>, sources: seq<string>, target: string, newKey: map<nat, string>): set<Slot>
    requires newKey.Keys <= rows.Keys
  {
    (set id | id in rows && Involved(rows[id], sources, target) :: SlotOf(rows[id]))
    + (set id | id in newKey :: NewSlot(rows[id], newKey[id]))
  }

  lemma HandedOutGrows(rows: map<nat, Row>, newKey: map<nat, string>, loser: nat, cand: string, slot: Slot)
    requires newKey.Keys <= rows.Keys && loser in rows && loser !in newKey
    ensures HandedOut(rows, newKey[loser := cand], slot)
            <==> HandedOut(rows, newKey, slot) || slot == NewSlot(rows[loser], cand)
  {
    var after := newKey[loser := cand];
    if HandedOut(rows, newKey, slot) {
      var o :| o in newKey && NewSlot(rows[o], newKey[o]) == slot;
      assert o in after && after[o] == newKey[o];
    }
    if slot == NewSlot(rows[loser], cand) {
      assert loser in after;
    }
  }

  lemma GoodKeysExtend(rows: map<nat, Row>, sources: seq<string>, target: string, newKey: map<nat, string>, loser: nat, cand: string)
    requires GoodKeys(rows, sources, target, newKey) && loser in rows && loser !in newKey
    requires IsCandidate(cand, ArchiveBase(rows[loser]))
    requires !SlotHeld(rows, NewSlot(rows[loser], cand), sources, target)
    requires !HandedOut(rows, newKey, NewSlot(rows[loser], cand))
    requires cand == ArchiveBase(rows[loser])
             || SlotHeld(rows, NewSlot(rows[loser], ArchiveBase(rows[loser])), sources, target)
             || HandedOut(rows, newKey, NewSlot(rows[loser], ArchiveBase(rows[loser])))
    ensures GoodKeys(rows, sources, target, newKey[loser := cand])
  {
    var after := newKey[loser := cand];
    forall id | id in after ensures GoodKey(rows, sources, target, after, id) {
      HandedOutGrows(rows, newKey, loser, cand, NewSlot(rows[id], ArchiveBase(rows[id])));
      if id != loser {
        assert GoodKey(rows, sources, target, newKey, id);
      }
    }
    forall id | id in newKey ensures NewSlot(rows[id], newKey[id]) != NewSlot(rows[loser], cand) {
    }
  }

  lemma TakenMeans(rows: map<nat, Row>, sources: seq<string>, target: string, newKey: map<nat, string>, slot: Slot)
    requires newKey.Keys <= rows.Keys
    ensures slot in Taken(rows, sources, target, newKey)
            <==> SlotHeld(rows, slot, sources, target) || HandedOut(rows, newKey, slot)
  {
  }

  ghost predicate RenamesMatch(rows: map<nat, Row>, newKey: map<nat, string>, renames: seq<Rename>)
    requires newKey.Keys <= rows.Keys
  {
    |renames| == |newKey| && forall id | id in newKey :: RenameOf(rows[id], newKey[id]) in renames
  }

  // The three running records of the plan agree with each other.
  ghost predicate Books(rows: map<nat, Row>, sources: seq<string>, target: string,
                        taken: set<Slot>, newKey: map<nat, string>, renames: seq<Rename>) {
    && GoodKeys(rows, sources, target, newKey)
    && taken == Taken(rows, sources, target, newKey)
    && RenamesMatch(rows, newKey, renames)
  }

  /** One loser gets the first free archive name. */
  method RenameLoser(rows: map<nat, Row>, sources: seq<string>, target: string, loser: nat,
                     taken0: set<Slot>, newKey0: map<nat, string>, renames0: seq<Rename>)
    returns (taken: set<Slot>, newKey: map<nat, string>, renames: seq<Rename>)
    requires loser in rows && loser !in newKey0
    requires Books(rows, sources, target, taken0, newKey0, renames0)
    ensures newKey.Keys == newKey0.Keys + {loser}
    ensures Books(rows, sources, target, taken, newKey, renames)
  {
    hide Books;
    var r := rows[loser];
    var cand, tries := FreeName(ArchiveBase(r), r.ns, r.uid, taken0);
    taken := taken0 + {NewSlot(r, cand)};
    newKey := newKey0[loser := cand];
    renames := renames0 + [RenameOf(r, cand)];
    assert tries > 1 ==> Slot(r.ns, r.uid, Candidate(ArchiveBase(r), 1)) in taken0;
    BooksGrow(rows, sources, target, taken0, newKey0, renames0, loser, cand, tries);
  }

  lemma BooksGrow(rows: map<nat, Row>, sources: seq<string>, target: string,
                  taken: set<Slot>, newKey: map<nat, string>, renames: seq<Rename>, loser: nat, cand: string, tries: nat)
    requires Books(rows, sources, target, taken, newKey, renames)
    requires loser in rows && loser !in newKey
    requires 1 <= tries && cand == Candidate(ArchiveBase(rows[loser]), tries)
    requires NewSlot(rows[loser], cand) !in taken
    requires tries > 1 ==> NewSlot(rows[loser], ArchiveBase(rows[loser])) in taken
    ensures Books(rows, sources, target, taken + {NewSlot(rows[loser], cand)}, newKey[loser := cand],
                  renames + [RenameOf(rows[loser], cand)])
  {
    TakenMeans(rows, sources, target, newKey, NewSlot(rows[loser], cand));
    TakenMeans(rows, sources, target, newKey, NewSlot(rows[loser], ArchiveBase(rows[loser])));
    TakenGrows(rows, sources, target, newKey, loser, cand);
    GoodKeysExtend(rows, sources, target, newKey, loser, cand);
    RenamesGrow(rows, newKey, renames, loser, cand);
    hide GoodKeys, Taken, RenamesMatch;
  }

  lemma RenamesGrow(rows: map<nat, Row>, newKey: map<nat, string>, renames: seq<Rename>, loser: nat, cand: string)
    requires newKey.Keys <= rows.Keys && loser in rows && loser !in newKey
    requires RenamesMatch(rows, newKey, renames)
    ensures RenamesMatch(rows, newKey[loser := cand], renames + [RenameOf(rows[loser], cand)])
  {
    var after, more := newKey[loser := cand], renames + [RenameOf(rows[loser], cand)];
    assert more[|renames|] == RenameOf(rows[loser], cand);
    forall id | id in newKey ensures RenameOf(rows[id], newKey[id]) in more {
      var k :| 0 <= k < |renames| && renames[k] == RenameOf(rows[id], newKey[id]);
      assert more[k] == renames[k];
    }
  }

  lemma TakenGrows(rows: map<nat, Row>, sources: seq<string>, target: string, newKey: map<nat, string>, loser: nat, cand: string)
    requires newKey.Keys <= rows.Keys && loser in rows && loser !in newKey
    ensures Taken(rows, sources, target, newKey[loser := cand])
            == Taken(rows, sources, target, newKey) + {NewSlot(rows[loser], cand)}
  {
    var after := newKey[loser := cand];
    forall id | id in newKey ensures NewSlot(rows[id], newKey[id]) in Taken(rows, sources, target, after) {
      assert id in after && after[id] == newKey[id];
    }
    assert loser in after;
  }

  // The rows of one slot, best rank first.
  ghost predicate GroupOf(rows: map<nat, Row>, sources: seq<string>, target: string, members: seq<nat>, sl: Slot) {
    && (forall id :: id in members <==> id in rows && Involved(rows[id], sources, target) && SlotOf(rows[id]) == sl)
    && (forall i, j | 0 <= i < j < |members| :: members[i] != members[j])
    && (forall i, j | 0 <= i < j < |members| ::
         Rank(rows[members[i]].project, sources, target) <= Rank(rows[members[j]].project, sources, target))
  }

  // Exactly the rows after the best-ranked one lose.
  lemma LosersOfGroup(rows: map<nat, Row>, sources: seq<string>, target: string, sl: Slot, members: seq<nat>, m: nat)
    requires Unique(rows) && GroupOf(rows, sources, target, members, sl) && m < |members|
    ensures Loses(rows, members[m], sources, target) <==> m > 0
  {
    var first := members[0];
    assert first in members && members[m] in members;
    if m > 0 {
      var p, q := rows[first].project, rows[members[m]].project;
      assert p != q;
      assert p != target && q != target ==> IndexOf(p, sources) != IndexOf(q, sources);
    } else {
      forall w | w in rows && Involved(rows[w], sources, target) && SlotOf(rows[w]) == SlotOf(rows[first])
        ensures Rank(rows[first].project, sources, target) <= Rank(rows[w].project, sources, target)
      {
        assert w in members;
      }
    }
  }

  // The rows that lose within the given slots.
  ghost function LosersIn(rows: map<nat, Row>, sources: seq<string>, target: string, slots: seq<Slot>): set<nat> {
    set id | id in rows && Involved(rows[id], sources, target) && Loses(rows, id, sources, target) && SlotOf(rows[id]) in slots
  }

  // The members after the first, up to m.
  ghost function Past(members: seq<nat>, m: nat): set<nat> {
    set k | 1 <= k < m && k < |members| :: members[k]
  }

  lemma PastStep(members: seq<nat>, m: nat)
    requires 1 <= m < |members|
    requires forall i, j | 0 <= i < j < |members| :: members[i] != members[j]
    ensures members[m] !in Past(members, m)
    ensures Past(members, m + 1) == Past(members, m) + {members[m]}
  {
  }

  lemma LosersStep(rows: map<nat, Row>, sources: seq<string>, target: string, slots: seq<Slot>, sl: Slot, members: seq<nat>)
    requires Unique(rows) && GroupOf(rows, sources, target, members, sl) && sl !in slots
    ensures LosersIn(rows, sources, target, slots + [sl]) == LosersIn(rows, sources, target, slots) + Past(members, |members|)
    ensures LosersIn(rows, sources, target, slots) !! (set id | id in members)
  {
    forall id ensures id in LosersIn(rows, sources, target, slots + [sl])
                  <==> id in LosersIn(rows, sources, target, slots) || id in Past(members, |members|)
    {
      if id in members {
        var k :| 0 <= k < |members| && members[k] == id;
        LosersOfGroup(rows, sources, target, sl, members, k);
        assert k > 0 ==> members[k] in Past(members, |members|);
        assert id in Past(members, |members|) ==> k > 0;
      }
    }
  }

  /** One slot: every member after the best-ranked one is renamed. */
  method RenameGroup(rows: map<nat, Row>, sources: seq<string>, target: string, members: seq<nat>,
                     taken0: set<Slot>, newKey0: map<nat, string>, renames0: seq<Rename>)
    returns (taken: set<Slot>, newKey: map<nat, string>, renames: seq<Rename>)
    requires Books(rows, sources, target, taken0, newKey0, renames0)
    requires forall id | id in members :: id in rows && id !in newKey0
    requires forall i, j | 0 <= i < j < |members| :: members[i] != members[j]
    ensures Books(rows, sources, target, taken, newKey, renames)
    ensures newKey.Keys == newKey0.Keys + Past(members, |members|)
  {
    hide Books;
    taken, newKey, renames := taken0, newKey0, renames0;
    var m := 1;
    assert Past(members, 1) == {};
    while m < |members|
      invariant 1 <= m && (m > |members| ==> |members| == 0 && m == 1)
      invariant Books(rows, sources, target, taken, newKey, renames)
      invariant newKey.Keys == newKey0.Keys + Past(members, m)
    {
      var loser := members[m];
      assert loser in members;
      PastStep(members, m);
      taken, newKey, renames := RenameLoser(rows, sources, target, loser, taken, newKey, renames);
      m := m + 1;
    }
    assert |members| == 0 ==> Past(members, |members|) == {};
  }

  // One group in rank order.
  method SortGroup(rows: map<nat, Row>, order: seq<nat>, groups: map<Slot, set<nat>>, ghost slots: seq<Slot>, sl: Slot,
                   sources: seq<string>, target: string) returns (members: seq<nat>)
    requires Fetched(order, InvolvedIds(rows, sources, target))
    requires Grouped(rows, order, groups, slots) && sl in groups
    ensures GroupOf(rows, sources, target, members, sl)
  {
    var rank: map<nat, nat> := map id | id in order :: Rank(rows[id].project, sources, target);
    members := SortByRank(rank, groups[sl]);
    forall i | 0 <= i < |members|
      ensures members[i] in order && rank[members[i]] == Rank(rows[members[i]].project, sources, target)
    {
      assert members[i] in members;
    }
  }

  // The books before slot g has been decided.
  ghost predicate PlanSoFar(rows: map<nat, Row>, sources: seq<string>, target: string, slots: seq<Slot>, g: nat,
                            taken: set<Slot>, newKey: map<nat, string>, renames: seq<Rename>) {
    && g <= |slots|
    && Books(rows, sources, target, taken, newKey, renames)
    && newKey.Keys == LosersIn(rows, sources, target, slots[..g])
  }

  method PlanGroup(rows: map<nat, Row>, order: seq<nat>, groups: map<Slot, set<nat>>, slots: seq<Slot>, g: nat,
                   sources: seq<string>, target: string, taken0: set<Slot>, newKey0: map<nat, string>, renames0: seq<Rename>)
    returns (taken: set<Slot>, newKey: map<nat, string>, renames: seq<Rename>)
    requires Unique(rows) && Fetched(order, InvolvedIds(rows, sources, target))
    requires Grouped(rows, order, groups, slots) && g < |slots|
    requires PlanSoFar(rows, sources, target, slots, g, taken0, newKey0, renames0)
    ensures PlanSoFar(rows, sources, target, slots, g + 1, taken, newKey, renames)
  {
    assert slots[g] in groups && slots[g] !in slots[..g] by {
      assert slots[g] in slots;
    }
    hide Books, LosersIn, GroupOf, Unique, Past, Fetched, Grouped;
    var members := SortGroup(rows, order, groups, slots, slots[g], sources, target);
    GroupIds(rows, sources, target, members, slots[g]);
    LosersStep(rows, sources, target, slots[..g], slots[g], members);
    taken, newKey, renames := RenameGroup(rows, sources, target, members, taken0, newKey0, renames0);
    assert slots[..g + 1] == slots[..g] + [slots[g]];
  }

  /** `_plan`: decide the final key of every fetched row. */
  method Plan(rows: map<nat, Row>, order: seq<nat>, sources: seq<string>, target: string)
    returns (newKey: map<nat, string>, renames: seq<Rename>)
    requires Unique(rows) && Fetched(order, InvolvedIds(rows, sources, target))
    ensures GoodPlan(rows, sources, target, newKey)
    ensures RenamesMatch(rows, newKey, renames)
  {
    var groups, slots := Group(rows, order);
    var taken := set id | id in order :: SlotOf(rows[id]);
    newKey, renames := map[], [];
    EmptyBooks(rows, order, slots, sources, target, taken);
    hide PlanSoFar, Unique, Grouped, GoodPlan, RenamesMatch;
    for g := 0 to |slots|
      invariant PlanSoFar(rows, sources, target, slots, g, taken, newKey, renames)
    {
      taken, newKey, renames := PlanGroup(rows, order, groups, slots, g, sources, target, taken, newKey, renames);
    }
    PlanDone(rows, order, groups, slots, sources, target, taken, newKey, renames);
  }

  lemma GroupIds(rows: map<nat, Row>, sources: seq<string>, target: string, members: seq<nat>, sl: Slot)
    requires GroupOf(rows, sources, target, members, sl)
    ensures forall id | id in members :: id in rows
    ensures forall i, j | 0 <= i < j < |members| :: members[i] != members[j]
  {
  }

  lemma EmptyBooks(rows: map<nat, Row>, order: seq<nat>, slots: seq<Slot>, sources: seq<string>, target: string, taken: set<Slot>)
    requires Fetched(order, InvolvedIds(rows, sources, target))
    requires taken == set id | id in order :: SlotOf(rows[id])
    ensures PlanSoFar(rows, sources, target, slots, 0, taken, map[], [])
  {
  }

  lemma PlanDone(rows: map<nat, Row>, order: seq<nat>, groups: map<Slot, set<nat>>, slots: seq<Slot>,
                 sources: seq<string>, target: string, taken: set<Slot>, newKey: map<nat, string>, renames: seq<Rename>)
    requires Fetched(order, InvolvedIds(rows, sources, target))
    requires Grouped(rows, order, groups, slots)
    requires PlanSoFar(rows, sources, target, slots, |slots|, taken, newKey, renames)
    ensures GoodPlan(rows, sources, target, newKey) && RenamesMatch(rows, newKey, renames)
  {
    assert slots[..|slots|] == slots;
    hide GoodKeys, RenamesMatch, Taken;
    forall id | id in rows && Involved(rows[id], sources, target) ensures SlotOf(rows[id]) in slots {
      assert id in order;
    }
  }

  // ----- counts -----

  function SeenOf(rows: map<nat, Row>, order: seq<nat>, source: string): set<nat> {
    set id | id in order && id in rows && rows[id].project == source
  }

  lemma SeenStep(rows: map<nat, Row>, order: seq<nat>, i: nat, source: string)
    requires i < |order| && order[i] in rows && order[i] !in order[..i]
    ensures |SeenOf(rows, order[..i + 1], source)|
            == |SeenOf(rows, order[..i], source)| + if rows[order[i]].project == source then 1 else 0
  {
    assert order[..i + 1] == order[..i] + [order[i]];
    var was, all := SeenOf(rows, order[..i], source), SeenOf(rows, order[..i + 1], source);
    assert all == if rows[order[i]].project == source then was + {order[i]} else was;
  }

  method CountRows(rows: map<nat, Row>, order: seq<nat>, sources: seq<string>, ghost target: string) returns (counts: map<string, nat>)
    requires Fetched(order, InvolvedIds(rows, sources, target))
    ensures forall s :: s in counts <==> s in sources
    ensures forall s | s in sources :: counts[s] == |SourceIds(rows, s)|
  {
    counts := map s | s in sources :: 0;
    for i := 0 to |order|
      invariant forall s :: s in counts <==> s in sources
      invariant forall s | s in sources :: counts[s] == |SeenOf(rows, order[..i], s)|
    {
      assert order[i] in order;
      forall s | s in sources
        ensures |SeenOf(rows, order[..i + 1], s)|
                == |SeenOf(rows, order[..i], s)| + if rows[order[i]].project == s then 1 else 0
      {
        SeenStep(rows, order, i, s);
      }
      var p := rows[order[i]].project;
      if p in counts {
        counts := counts[p := counts[p] + 1];
      }
    }
    assert order[..|order|] == order;
    forall s | s in sources ensures counts[s] == |SourceIds(rows, s)| {
      assert SourceIds(rows, s) == SeenOf(rows, order, s);
    }
  }

  function MovedIds(rows: map<nat, Row>, sources: seq<string>): set<nat> {
    set id | id in rows && rows[id].project in sources
  }

  /** The total reported is the number of rows that leave the sources. */
  method Total(rows: map<nat, Row>, counts: map<string, nat>, sources: seq<string>) returns (total: nat)
    requires forall i, j | 0 <= i < j < |sources| :: sources[i] != sources[j]
    requires forall s | s in sources :: s in counts && counts[s] == |SourceIds(rows, s)|
    ensures total == |MovedIds(rows, sources)|
  {
    total := 0;
    for i := 0 to |sources|
      invariant total == |MovedIds(rows, sources[..i])|
    {
      assert MovedIds(rows, sources[..i + 1]) == MovedIds(rows, sources[..i]) + SourceIds(rows, sources[i]);
      total := total + counts[sources[i]];
    }
    assert sources[..|sources|] == sources;
  }

  // ----- the store -----

  /** The scope=project rows, the alias table, and the names that are people's or logins' addresses. */
  class Store {
    var rows: map<nat, Row>
    var aliases: PA.Aliases
    const persons: set<string>

    ghost predicate Valid()
      reads this
    {
      Unique(rows) && PA.Flat(aliases)
    }

    constructor (persons: set<string>)
      ensures Valid() && rows == map[] && aliases == map[] && this.persons == persons
    {
      rows, aliases, this.persons := map[], map[], persons;
    }

    // The request is refused, and nothing is written, unless every check passes.
    predicate Accepts(names: seq<string>, target: string)
      reads this
    {
      && ValidName(target)
      && (forall n | n in names :: ValidName(n))
      && Sources(names, target) != []
      && target !in aliases
      && (forall s | s in Sources(names, target) :: s !in persons)
    }

    /** `relabel`, all of it. */
    method Relabel(names: seq<string>, target: string, dryRun: bool) returns (res: Result<Report, Refusal>)
      requires Valid()
      modifies this
      ensures Valid()
      ensures res.Ok? <==> old(Accepts(names, target))
      // accepted: good names, something to merge, into no alias, and nobody's address goes away
      ensures res.Ok? <==>
                && ValidName(target) && (forall n | n in names :: ValidName(n)) && (exists n | n in names :: n != target)
                && target !in old(aliases) && (forall n | n in names && n != target :: n !in persons)
      ensures res.Err? || dryRun ==> rows == old(rows) && aliases == old(aliases)
      ensures res.Ok? ==>
                && res.value.sources == Sources(names, target)
                && ValidRequest(res.value.sources, target)
                && GoodPlan(old(rows), res.value.sources, target, res.value.newKey)
                && RenamesMatch(old(rows), res.value.newKey, res.value.renamed)
                && res.value.totalMoved == |MovedIds(old(rows), res.value.sources)|
                && Counted(old(rows), res.value.moved, res.value.sources)
      ensures res.Ok? && !dryRun ==>
                && rows == Relabeled(old(rows), res.value.sources, target, res.value.newKey)
                && aliases == PA.Relabel(old(aliases), res.value.sources, target)
      // who keeps the key, what is reported, and where every row ends up
      ensures res.Ok? ==> ReportMeans(old(rows), res.value, names, target)
      ensures res.Ok? && !dryRun ==> AllLanded(old(rows), rows, res.value.sources, target, res.value.newKey)
    {
      ghost var before := rows;
      AcceptsMeans(names, target, aliases, persons);
      res := Merge(names, target, dryRun);
      if res.Ok? {
        ReportIs(before, res.value, names, target);
        LandedAll(before, res.value.sources, target, res.value.newKey);
      }
      hide *;
    }

    // The checks, the plan, and unless it is a dry run the writes.
    method Merge(names: seq<string>, target: string, dryRun: bool) returns (res: Result<Report, Refusal>)
      requires Valid()
      modifies this
      ensures Valid()
      ensures res.Ok? <==> old(Accepts(names, target))
      ensures res.Err? || dryRun ==> rows == old(rows) && aliases == old(aliases)
      ensures res.Ok? ==>
                && res.value.sources == Sources(names, target)
                && ValidRequest(res.value.sources, target)
                && GoodPlan(old(rows), res.value.sources, target, res.value.newKey)
                && RenamesMatch(old(rows), res.value.newKey, res.value.renamed)
                && res.value.totalMoved == |MovedIds(old(rows), res.value.sources)|
                && Counted(old(rows), res.value.moved, res.value.sources)
      ensures res.Ok? && !dryRun ==>
                && rows == Relabeled(old(rows), res.value.sources, target, res.value.newKey)
                && aliases == PA.Relabel(old(aliases), res.value.sources, target)
    {
      if !ValidName(target) {
        return Err(BadName(target));
      }
      var collected := CollectSources(names, target);
      if collected.Err? {
        return Err(collected.error);
      }
      var srcs := collected.value;
      if srcs == [] {
        return Err(NoSources);
      }
      if target in aliases {
        return Err(TargetIsAlias(aliases[target]));
      }
      var clash := set s | s in srcs && s in persons;
      if clash != {} {
        var s :| s in clash;
        assert s in srcs && s in persons;
        return Err(PersonAddress(clash));
      }
      forall s | s in srcs ensures s !in persons {
        assert s !in clash;
      }
      hide Unique, GoodPlan, RenamesMatch, ValidRequest, Relabeled;
      var order := Fetch(InvolvedIds(rows, srcs, target));
      var newKey, renames := Plan(rows, order, srcs, target);
      var counts := CountRows(rows, order, srcs, target);
      DistinctSources(srcs, target);
      var total := Total(rows, counts, srcs);
      if !dryRun {
        Write(srcs, target, newKey);
      }
      return Ok(Report(srcs, counts, total, renames, newKey));
    }

    // The four kinds of write of the relabel transaction.
    method Write(srcs: seq<string>, target: string, newKey: map<nat, string>)
      requires Valid() && ValidRequest(srcs, target) && target !in aliases
      requires GoodPlan(rows, srcs, target, newKey)
      modifies this
      ensures Valid()
      ensures rows == Relabeled(old(rows), srcs, target, newKey)
      ensures aliases == PA.Relabel(old(aliases), srcs, target)
    {
      ghost var before := rows;
      UpdateKeys(srcs, target, newKey);
      UpdateProjects(before, srcs, target, newKey);
      AliasesStayFlat(aliases, srcs, target);
      hide Unique, GoodPlan, Relabeled, ValidRequest;
      UpdateAliases(srcs, target);
    }

    // The flattening UPDATE and one upsert per source.
    method UpdateAliases(srcs: seq<string>, target: string)
      modifies this`aliases
      ensures aliases == PA.Relabel(old(aliases), srcs, target)
    {
      var known := aliases;
      var flattened := map o | o in known :: if known[o] in srcs then target else known[o];
      var table := flattened;
      for i := 0 to |srcs|
        invariant table == flattened + Pointing(srcs[..i], target)
      {
        assert srcs[..i + 1] == srcs[..i] + [srcs[i]];
        PointOneMore(flattened, srcs[..i], srcs[i], target);
        table := table[srcs[i] := target];
      }
      assert srcs[..|srcs|] == srcs;
      aliases := table;
    }

    // One UPDATE per renamed row; the table constraint holds after each of them.
    method UpdateKeys(srcs: seq<string>, target: string, newKey: map<nat, string>)
      requires Unique(rows) && GoodPlan(rows, srcs, target, newKey)
      modifies this`rows
      ensures rows == Rekeyed(old(rows), newKey, newKey.Keys)
    {
      hide Unique, GoodPlan, Rekeyed;
      ghost var before := rows;
      PlanIds(rows, srcs, target, newKey);
      var rest := newKey.Keys;
      ghost var done: set<nat> := {};
      RekeyNone(rows, newKey);
      while rest != {}
        invariant rest + done == newKey.Keys && rest !! done
        invariant rows == Rekeyed(before, newKey, done) && Unique(rows)
      {
        var id :| id in rest;
        RekeyOne(before, newKey, done, id);
        rows := rows[id := rows[id].(key := newKey[id])];
        rest, done := rest - {id}, done + {id};
        RekeyKeepsUnique(before, srcs, target, newKey, done);
      }
    }

    // The one UPDATE of the project column, row by row; the constraint holds after each row.
    method UpdateProjects(ghost before: map<nat, Row>, srcs: seq<string>, target: string, ghost newKey: map<nat, string>)
      requires ValidRequest(srcs, target) && Unique(before) && GoodPlan(before, srcs, target, newKey)
      requires rows == Rekeyed(before, newKey, newKey.Keys)
      modifies this`rows
      ensures rows == Relabeled(before, srcs, target, newKey) && Unique(rows)
    {
      ghost var mid := rows;
      hide Unique, GoodPlan, ValidRequest, Rekeyed;
      var rest := rows.Keys;
      ghost var done: set<nat> := {};
      MoveKeepsUnique(before, srcs, target, newKey, {});
      assert Moved(mid, srcs, target, {}) == mid;
      while rest != {}
        invariant rest + done == mid.Keys && rest !! done
        invariant rows == Moved(mid, srcs, target, done) && Unique(rows)
      {
        var id :| id in rest;
        if rows[id].project in srcs {
          rows := rows[id := rows[id].(project := target, movedFrom := Some(rows[id].project))];
        }
        rest, done := rest - {id}, done + {id};
        MoveKeepsUnique(before, srcs, target, newKey, done);
      }
      RekeyedKeys(before, newKey);
    }

    /** `reverse`, all of it: the rows stamped with this source go home and its alias is dropped;
        a row that cannot go home because its place is taken aborts the whole transaction. */
    method Reverse(source: string, target: string) returns (res: Result<nat, Refusal>)
      requires Valid()
      modifies this
      ensures Valid()
      ensures res.Err? && res.error.BadName? <==> !ValidName(source) || !ValidName(target)
      ensures res.Err? ==> res.error.BadName? || res.error.PlaceTaken?
      ensures res.Ok? ==> Unique(Reversed(old(rows), source, target))
      ensures res.Err? && res.error.PlaceTaken? && source != target ==> !Unique(Reversed(old(rows), source, target))
      ensures res.Ok? ==> rows == Reversed(old(rows), source, target) && aliases == PA.Reverse(old(aliases), source)
      ensures res.Ok? ==> res.value == |Stamped(old(rows), source, target)|
      // the alias is gone and no other is touched
      ensures res.Ok? ==> source !in aliases && forall o | o != source ::
                (o in aliases <==> o in old(aliases)) && (o in aliases ==> aliases[o] == old(aliases)[o])
      ensures res.Ok? ==> rows.Keys == old(rows).Keys && forall id | id in rows ::
                WentHome(old(rows)[id], rows[id], source, target)
      ensures res.Err? ==> rows == old(rows) && aliases == old(aliases)
    {
      if !ValidName(source) {
        return Err(BadName(source));
      }
      if !ValidName(target) {
        return Err(BadName(target));
      }
      var known := aliases;
      assert PA.Flat(PA.Reverse(known, source));
      var ok, now := SendHome(rows, source, target);
      if !ok {
        return Err(PlaceTaken);
      }
      res := Ok(|Stamped(rows, source, target)|);
      rows := now;
      aliases := PA.Reverse(known, source);
    }
  }

  // One row as the reverse leaves it: a stamped row of the target is home, its archive prefix gone.
  predicate WentHome(before: Row, after: Row, source: string, target: string) {
    if before.project == target && before.movedFrom == Some(source) then
      var prefix := "archive/" + source + "/";
      after == Row(before.ns, before.uid, if StartsWith(before.key, prefix) then before.key[|prefix|..] else before.key, source, None)
    else after == before
  }

  function Pointing(srcs: seq<string>, target: string): map<string, string> {
    map s | s in srcs :: target
  }

  lemma PointOneMore(m: map<string, string>, srcs: seq<string>, s: string, target: string)
    ensures (m + Pointing(srcs, target))[s := target] == m + Pointing(srcs + [s], target)
  {
  }

  // The UPDATEs of `reverse`, one row at a time, until one of them breaks the table constraint.
  method SendHome(before: map<nat, Row>, source: string, target: string) returns (ok: bool, now: map<nat, Row>)
    requires Unique(before)
    ensures ok ==> now == Reversed(before, source, target) && Unique(now)
    ensures !ok && source != target ==> !Unique(Reversed(before, source, target))
  {
    now := before;
    var rest := Stamped(before, source, target);
    ghost var done: set<nat> := {};
    while rest != {}
      invariant rest + done == Stamped(before, source, target) && rest !! done
      invariant now == PartlyReversed(before, source, target, done) && Unique(now)
    {
      hide Unique, Reversed;
      var id :| id in rest;
      assert id in Stamped(before, source, target) && now[id] == before[id];
      var home := ReversedRow(now[id], source, target);
      if Occupied(now, id, home) {
        if source != target {
          CollisionStays(before, source, target, done, id);
        }
        return false, now;
      }
      RowGoesHome(now, id, home);
      now := now[id := home];
      rest, done := rest - {id}, done + {id};
      assert now == PartlyReversed(before, source, target, done);
    }
    assert done == Stamped(before, source, target);
    AllReversed(before, source, target);
    return true, now;
  }

  // Each source with the number of its rows.
  ghost predicate Counted(rows: map<nat, Row>, moved: map<string, nat>, sources: seq<string>) {
    && (forall s :: s in moved <==> s in sources)
    && forall s | s in sources :: s in moved && moved[s] == |SourceIds(rows, s)|
  }

  // The sources are the listed names but the target, each once, in the order first listed.
  ghost predicate SourcesListed(r: Report, names: seq<string>, target: string) {
    && (forall s :: s in r.sources <==> s in names && s != target)
    && forall a, b | 0 <= a < b < |r.sources| ::
         r.sources[a] in names && r.sources[b] in names && IndexOf(r.sources[a], names) < IndexOf(r.sources[b], names)
  }

  // Exactly the rows that do not keep their key by list position get a new one, and each change is listed.
  ghost predicate ChangesListed(before: map<nat, Row>, r: Report, target: string) {
    && (forall id | id in before ::
          id in r.newKey <==> (before[id].project == target || before[id].project in r.sources) && !KeepsByPosition(before, r.sources, target, id))
    && |r.renamed| == |r.newKey|
    && forall id | id in r.newKey ::
         id in before && Rename(before[id].project, before[id].key, r.newKey[id], before[id].uid) in r.renamed
  }

  // How many rows each source had, and all of them.
  ghost predicate RowsCounted(before: map<nat, Row>, r: Report) {
    && (forall s :: s in r.moved <==> s in r.sources)
    && (forall s | s in r.sources :: s in r.moved && r.moved[s] == |set id | id in before && before[id].project == s|)
    && r.totalMoved == |set id | id in before && before[id].project in r.sources|
  }

  /** What a report says, in terms of the request and the rows before. */
  ghost predicate ReportMeans(before: map<nat, Row>, r: Report, names: seq<string>, target: string) {
    SourcesListed(r, names, target) && ChangesListed(before, r, target) && RowsCounted(before, r)
  }

  ghost predicate AllLanded(before: map<nat, Row>, after: map<nat, Row>, sources: seq<string>, target: string, newKey: map<nat, string>) {
    && after.Keys == before.Keys
    && forall id | id in before ::
         Landed(before[id], after[id], sources, target, if id in newKey then Some(newKey[id]) else None)
  }

  lemma ReportIs(before: map<nat, Row>, r: Report, names: seq<string>, target: string)
    requires r.sources == Sources(names, target) && ValidRequest(r.sources, target) && GoodPlan(before, r.sources, target, r.newKey)
    requires RenamesMatch(before, r.newKey, r.renamed) && Counted(before, r.moved, r.sources)
    requires r.totalMoved == |MovedIds(before, r.sources)|
    ensures ReportMeans(before, r, names, target)
  {
    hide *;
    SourcesAreListed(r, names, target);
    ChangesAreListed(before, r, target);
    CountsListed(before, r);
    AllMeant(before, r, names, target);
  }

  lemma AllMeant(before: map<nat, Row>, r: Report, names: seq<string>, target: string)
    requires SourcesListed(r, names, target) && ChangesListed(before, r, target) && RowsCounted(before, r)
    ensures ReportMeans(before, r, names, target)
  {
    hide SourcesListed, ChangesListed, RowsCounted;
  }

  lemma SourcesAreListed(r: Report, names: seq<string>, target: string)
    requires r.sources == Sources(names, target)
    ensures SourcesListed(r, names, target)
  {
    SourcesInOrder(names, target);
    hide Sources, IndexOf;
  }

  lemma ChangesAreListed(before: map<nat, Row>, r: Report, target: string)
    requires ValidRequest(r.sources, target) && GoodPlan(before, r.sources, target, r.newKey)
    requires RenamesMatch(before, r.newKey, r.renamed)
    ensures ChangesListed(before, r, target)
  {
    hide KeepsByPosition, GoodPlan, ValidRequest, RenamesMatch, RenameOf;
    PlanIds(before, r.sources, target, r.newKey);
    ByPosition(before, r.sources, target, r.newKey);
    EachRenameListed(before, r.newKey, r.renamed);
  }

  lemma EachRenameListed(rows: map<nat, Row>, newKey: map<nat, string>, renames: seq<Rename>)
    requires newKey.Keys <= rows.Keys && RenamesMatch(rows, newKey, renames)
    ensures |renames| == |newKey|
    ensures forall id | id in newKey :: id in rows && Rename(rows[id].project, rows[id].key, newKey[id], rows[id].uid) in renames
  {
    forall id | id in newKey ensures id in rows && Rename(rows[id].project, rows[id].key, newKey[id], rows[id].uid) in renames {
      assert RenameOf(rows[id], newKey[id]) in renames;
    }
  }

  lemma CountsListed(before: map<nat, Row>, r: Report)
    requires Counted(before, r.moved, r.sources) && r.totalMoved == |MovedIds(before, r.sources)|
    ensures RowsCounted(before, r)
  {
    forall s | s in r.sources ensures s in r.moved && r.moved[s] == |set id | id in before && before[id].project == s| {
      assert SourceIds(before, s) == set id | id in before && before[id].project == s;
    }
    assert MovedIds(before, r.sources) == set id | id in before && before[id].project in r.sources;
  }

  lemma AcceptsMeans(names: seq<string>, target: string, aliases: PA.Aliases, persons: set<string>)
    ensures Sources(names, target) != [] <==> exists n | n in names :: n != target
    ensures (forall s | s in Sources(names, target) :: s !in persons) <==> forall n | n in names && n != target :: n !in persons
  {
    SourcesAre(names, target);
    hide Sources;
    if Sources(names, target) != [] { assert Sources(names, target)[0] in names; }
    if n :| n in names && n != target { assert n in Sources(names, target); }
  }

  lemma ByPosition(rows: map<nat, Row>, sources: seq<string>, target: string, newKey: map<nat, string>)
    requires ValidRequest(sources, target) && GoodPlan(rows, sources, target, newKey)
    ensures forall id | id in rows ::
              id in newKey <==> Involved(rows[id], sources, target) && !KeepsByPosition(rows, sources, target, id)
  {
    forall id | id in rows && Involved(rows[id], sources, target) ensures id !in newKey <==> KeepsByPosition(rows, sources, target, id) {
      KeepersByPosition(rows, sources, target, newKey, id);
    }
  }

  lemma LandedAll(rows: map<nat, Row>, sources: seq<string>, target: string, newKey: map<nat, string>)
    requires GoodPlan(rows, sources, target, newKey)
    ensures AllLanded(rows, Relabeled(rows, sources, target, newKey), sources, target, newKey)
  {
  }

  lemma AliasesStayFlat(m: PA.Aliases, sources: seq<string>, target: string)
    requires PA.Flat(m) && target !in m && ValidRequest(sources, target)
    ensures PA.Flat(PA.Relabel(m, sources, target))
  {
  }

  lemma PlanIds(rows: map<nat, Row>, sources: seq<string>, target: string, newKey: map<nat, string>)
    requires GoodPlan(rows, sources, target, newKey)
    ensures newKey.Keys <= rows.Keys
  {
  }

  lemma RekeyNone(rows: map<nat, Row>, newKey: map<nat, string>)
    ensures Rekeyed(rows, newKey, {}) == rows
  {
  }

  lemma RekeyOne(rows: map<nat, Row>, newKey: map<nat, string>, done: set<nat>, id: nat)
    requires id in newKey && id in rows && id !in done
    ensures id in Rekeyed(rows, newKey, done)
    ensures Rekeyed(rows, newKey, done + {id})
            == Rekeyed(rows, newKey, done)[id := Rekeyed(rows, newKey, done)[id].(key := newKey[id])]
  {
  }

  lemma RekeyedKeys(rows: map<nat, Row>, newKey: map<nat, string>)
    ensures Rekeyed(rows, newKey, newKey.Keys).Keys == rows.Keys
    ensures forall sources, target ::
              Moved(Rekeyed(rows, newKey, newKey.Keys), sources, target, rows.Keys)
              == Relabeled(rows, sources, target, newKey)
  {
  }

  lemma AllReversed(rows: map<nat, Row>, source: string, target: string)
    ensures PartlyReversed(rows, source, target, Stamped(rows, source, target)) == Reversed(rows, source, target)
  {
  }

  // Another row already sits where this one wants to go.
  predicate Occupied(rows: map<nat, Row>, id: nat, home: Row) {
    exists o | o in rows && o != id :: SlotOf(rows[o]) == SlotOf(home) && rows[o].project == home.project
  }

  lemma RowGoesHome(rows: map<nat, Row>, id: nat, home: Row)
    requires Unique(rows) && id in rows && !Occupied(rows, id, home)
    ensures Unique(rows[id := home])
  {
  }

  lemma DistinctSources(srcs: seq<string>, target: string)
    requires ValidRequest(srcs, target)
    ensures forall i, j | 0 <= i < j < |srcs| :: srcs[i] != srcs[j]
  {
  }

  function Stamped(rows: map<nat, Row>, source: string, target: string): set<nat> {
    set id | id in rows && rows[id].project == target && rows[id].movedFrom == Some(source)
  }

  function PartlyReversed(rows: map<nat, Row>, source: string, target: string, done: set<nat>): map<nat, Row> {
    map id | id in rows :: if id in done then ReversedRow(rows[id], source, target) else rows[id]
  }

  // A row whose place is taken part-way through still finds it taken at the end.
  lemma CollisionStays(rows: map<nat, Row>, source: string, target: string, done: set<nat>, id: nat)
    requires source != target
    requires done <= Stamped(rows, source, target) && id in Stamped(rows, source, target) - done
    requires Occupied(PartlyReversed(rows, source, target, done), id, ReversedRow(rows[id], source, target))
    ensures !Unique(Reversed(rows, source, target))
  {
    var now := PartlyReversed(rows, source, target, done);
    var home := ReversedRow(rows[id], source, target);
    var o :| o in now && o != id && SlotOf(now[o]) == SlotOf(home) && now[o].project == home.project;
    var after := Reversed(rows, source, target);
    assert after[id] == home;
    assert after[o] == now[o];
  }
}
