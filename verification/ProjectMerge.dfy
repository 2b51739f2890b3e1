/**
 The merge plan and the undo of server/services/project_alias.py.

 A row is one scope=project row of the memories table.  `Relabeled` and `Reversed`
 are the whole effect of the two transactions on the rows; class ProjectStore
 (ProjectStore.dfy) carries them out statement by statement.
 */
module ProjectMerge {
  import opened Common

  datatype Row = Row(ns: string, uid: string, key: string, project: string, movedFrom: Option<string>)

  // Where a row sits once every project has been merged into one.
  datatype Slot = Slot(ns: string, uid: string, key: string)

  function SlotOf(r: Row): Slot {
    Slot(r.ns, r.uid, r.key)
  }

  // The table constraint: no two rows agree on namespace, key, user and project.
  ghost predicate Unique(rows: map<nat, Row>) {
    forall a, b | a in rows && b in rows && a != b ::
      SlotOf(rows[a]) != SlotOf(rows[b]) || rows[a].project != rows[b].project
  }

  predicate NameStart(c: char) {
    'a' <= c <= 'z' || IsDigit(c)
  }

  predicate NameChar(c: char) {
    NameStart(c) || c == '.' || c == '_' || c == '-'
  }

  predicate ValidName(n: string) {
    && 1 <= |n| <= 128
    && NameStart(n[0])
    && forall i :: 0 <= i < |n| ==> NameChar(n[i])
  }

  // A request that has passed validation: distinct sources, none of them the target.
  ghost predicate ValidRequest(sources: seq<string>, target: string) {
    && ValidName(target)
    && (forall s | s in sources :: ValidName(s) && s != target)
    && (forall i, j | 0 <= i < j < |sources| :: sources[i] != sources[j])
  }

  predicate Involved(r: Row, sources: seq<string>, target: string) {
    r.project == target || r.project in sources
  }

  function IndexOf(p: string, sources: seq<string>): (i: nat)
    requires p in sources
    ensures i < |sources| && sources[i] == p
    ensures forall j | 0 <= j < i :: sources[j] != p
  {
    if sources[0] == p then 0 else 1 + IndexOf(p, sources[1..])
  }

  // The target outranks the sources, and the sources outrank each other in listed order.
  function Rank(p: string, sources: seq<string>, target: string): nat
    requires p == target || p in sources
  {
    if p == target then 0 else 1 + IndexOf(p, sources)
  }

  // A row loses its key when an involved row of better rank already holds it.
  predicate Loses(rows: map<nat, Row>, id: nat, sources: seq<string>, target: string)
    requires id in rows && Involved(rows[id], sources, target)
  {
    exists w | w in rows ::
      && Involved(rows[w], sources, target)
      && SlotOf(rows[w]) == SlotOf(rows[id])
      && Rank(rows[w].project, sources, target) < Rank(rows[id].project, sources, target)
  }

  function ArchivePrefix(p: string): string {
    "archive/" + p + "/"
  }

  // The archive name a losing row asks for first.
  function ArchiveBase(r: Row): string {
    ArchivePrefix(r.project) + r.key
  }

  // The names tried in turn: the base, then base-2, base-3, ...
  function Candidate(base: string, n: nat): string {
    if n < 2 then base else base + "-" + Decimal(n)
  }

  function NewSlot(r: Row, newKey: string): Slot {
    Slot(r.ns, r.uid, newKey)
  }

  ghost predicate SlotHeld(rows: map<nat, Row>, slot: Slot, sources: seq<string>, target: string) {
    exists h | h in rows :: Involved(rows[h], sources, target) && SlotOf(rows[h]) == slot
  }

  // Some renamed row ends up at this slot.
  ghost predicate HandedOut(rows: map<nat, Row>, newKey: map<nat, string>, slot: Slot)
    requires newKey.Keys <= rows.Keys
  {
    exists o | o in newKey :: NewSlot(rows[o], newKey[o]) == slot
  }

  // One new key: an archive name of its row, free in the table, suffixed only when the plain one is spoken for.
  ghost predicate GoodKey(rows: map<nat, Row>, sources: seq<string>, target: string, newKey: map<nat, string>, id: nat)
    requires newKey.Keys <= rows.Keys && id in newKey
  {
    var r := rows[id];
    && IsCandidate(newKey[id], ArchiveBase(r))
    && !SlotHeld(rows, NewSlot(r, newKey[id]), sources, target)
    && (|| newKey[id] == ArchiveBase(r)
        || SlotHeld(rows, NewSlot(r, ArchiveBase(r)), sources, target)
        || HandedOut(rows, newKey, NewSlot(r, ArchiveBase(r))))
  }

  ghost predicate Apart(rows: map<nat, Row>, newKey: map<nat, string>)
    requires newKey.Keys <= rows.Keys
  {
    forall a, b | a in newKey && b in newKey && a != b ::
      NewSlot(rows[a], newKey[a]) != NewSlot(rows[b], newKey[b])
  }

  /** What the plan promises about the new keys it hands out. */
  ghost predicate GoodKeys(rows: map<nat, Row>, sources: seq<string>, target: string, newKey: map<nat, string>) {
    && newKey.Keys <= rows.Keys
    && (forall id | id in newKey :: GoodKey(rows, sources, target, newKey, id))
    && Apart(rows, newKey)
  }

  /** The whole plan: exactly the losing rows are renamed, so the target's row,
      else the first listed source's, keeps its key. */
  ghost predicate GoodPlan(rows: map<nat, Row>, sources: seq<string>, target: string, newKey: map<nat, string>) {
    && (forall id :: id in newKey <==> id in rows && Involved(rows[id], sources, target) && Loses(rows, id, sources, target))
    && GoodKeys(rows, sources, target, newKey)
  }

  ghost predicate IsCandidate(key: string, base: string) {
    exists n :: key == Candidate(base, n)
  }

  // ----- the two updates of the relabel transaction -----

  // The rows after the single-key updates of `done`.
  function Rekeyed(rows: map<nat, Row>, newKey: map<nat, string>, done: set<nat>): map<nat, Row> {
    map id | id in rows :: if id in newKey && id in done then rows[id].(key := newKey[id]) else rows[id]
  }

  // The rows after the project update has reached `done`.
  function Moved(rows: map<nat, Row>, sources: seq<string>, target: string, done: set<nat>): map<nat, Row> {
    map id | id in rows ::
      if id in done && rows[id].project in sources
      then rows[id].(project := target, movedFrom := Some(rows[id].project))
      else rows[id]
  }

  function Relabeled(rows: map<nat, Row>, sources: seq<string>, target: string, newKey: map<nat, string>): map<nat, Row> {
    Moved(Rekeyed(rows, newKey, newKey.Keys), sources, target, rows.Keys)
  }

  lemma CandidateInjective(base: string, m: nat, n: nat)
    requires 1 <= m && 1 <= n
    requires Candidate(base, m) == Candidate(base, n)
    ensures m == n
  {
    var b := base + "-";
    assert m >= 2 ==> Candidate(base, m)[|b|..] == Decimal(m);
    assert n >= 2 ==> Candidate(base, n)[|b|..] == Decimal(n);
    if m >= 2 && n >= 2 {
      DecimalInjective(m, n);
    } else {
      assert |Candidate(base, m)| == |Candidate(base, n)|;
    }
  }

  // Two rows of one slot that do not lose are the same row.
  lemma KeeperIsOne(rows: map<nat, Row>, sources: seq<string>, target: string, a: nat, b: nat)
    requires Unique(rows) && a in rows && b in rows && a != b
    requires Involved(rows[a], sources, target) && Involved(rows[b], sources, target)
    requires SlotOf(rows[a]) == SlotOf(rows[b])
    ensures Loses(rows, a, sources, target) || Loses(rows, b, sources, target)
  {
    var p, q := rows[a].project, rows[b].project;
    assert p != q;
    assert p != target && q != target ==> IndexOf(p, sources) != IndexOf(q, sources);
  }

  function FinalSlot(rows: map<nat, Row>, newKey: map<nat, string>, id: nat): Slot
    requires id in rows
  {
    NewSlot(rows[id], if id in newKey then newKey[id] else rows[id].key)
  }

  /** The final keys of the involved rows are pairwise distinct within a namespace and user. */
  lemma FinalSlotsDistinct(rows: map<nat, Row>, sources: seq<string>, target: string, newKey: map<nat, string>, a: nat, b: nat)
    requires Unique(rows) && GoodPlan(rows, sources, target, newKey)
    requires a in rows && b in rows && a != b
    requires Involved(rows[a], sources, target) && Involved(rows[b], sources, target)
    ensures FinalSlot(rows, newKey, a) != FinalSlot(rows, newKey, b)
  {
    if a !in newKey && b !in newKey && SlotOf(rows[a]) == SlotOf(rows[b]) {
      KeeperIsOne(rows, sources, target, a, b);
    }
  }

  /** Every single key update keeps the table constraint, whichever of them have already run. */
  lemma RekeyKeepsUnique(rows: map<nat, Row>, sources: seq<string>, target: string, newKey: map<nat, string>, done: set<nat>)
    requires Unique(rows) && GoodPlan(rows, sources, target, newKey)
    ensures Unique(Rekeyed(rows, newKey, done))
  {
    var after := Rekeyed(rows, newKey, done);
    forall a, b | a in after && b in after && a != b && after[a].project == after[b].project
      ensures SlotOf(after[a]) != SlotOf(after[b])
    {
      if a in newKey && a in done && !(b in newKey && b in done) {
        assert SlotOf(rows[b]) == SlotOf(after[b]);
      } else if b in newKey && b in done && !(a in newKey && a in done) {
        assert SlotOf(rows[a]) == SlotOf(after[a]);
      }
    }
  }

  /** The project update keeps the table constraint row by row, in any order. */
  lemma MoveKeepsUnique(rows: map<nat, Row>, sources: seq<string>, target: string, newKey: map<nat, string>, done: set<nat>)
    requires ValidRequest(sources, target)
    requires Unique(rows) && GoodPlan(rows, sources, target, newKey)
    ensures Unique(Moved(Rekeyed(rows, newKey, newKey.Keys), sources, target, done))
  {
    var mid := Rekeyed(rows, newKey, newKey.Keys);
    var after := Moved(mid, sources, target, done);
    RekeyKeepsUnique(rows, sources, target, newKey, newKey.Keys);
    forall a, b | a in after && b in after && a != b && after[a].project == after[b].project
      ensures SlotOf(after[a]) != SlotOf(after[b])
    {
      if Involved(rows[a], sources, target) && Involved(rows[b], sources, target) {
        FinalSlotsDistinct(rows, sources, target, newKey, a, b);
      } else {
        assert after[a] == mid[a] && after[b] == mid[b];
      }
    }
  }

  // ----- who keeps the key, by list position -----

  // Some row of this project sits in the slot.
  ghost predicate Occupies(rows: map<nat, Row>, slot: Slot, project: string) {
    exists h | h in rows :: SlotOf(rows[h]) == slot && rows[h].project == project
  }

  // The target's row, or without one in its slot the row of the first listed source that has one there.
  ghost predicate KeepsByPosition(rows: map<nat, Row>, sources: seq<string>, target: string, id: nat)
    requires id in rows
  {
    var r := rows[id];
    || r.project == target
    || (!Occupies(rows, SlotOf(r), target)
        && exists i :: 0 <= i < |sources| && sources[i] == r.project && forall j :: 0 <= j < i ==> !Occupies(rows, SlotOf(r), sources[j]))
  }

  lemma RankByPosition(p: string, sources: seq<string>, target: string, i: nat)
    requires p != target && i < |sources| && sources[i] == p
    requires forall a, b | 0 <= a < b < |sources| :: sources[a] != sources[b]
    ensures Rank(p, sources, target) == i + 1
  {
  }

  lemma LosesByPosition(rows: map<nat, Row>, sources: seq<string>, target: string, id: nat)
    requires ValidRequest(sources, target) && id in rows && Involved(rows[id], sources, target)
    ensures Loses(rows, id, sources, target) <==> !KeepsByPosition(rows, sources, target, id)
  {
    if Loses(rows, id, sources, target) {
      LoserDoesNotKeep(rows, sources, target, id);
    }
    if !KeepsByPosition(rows, sources, target, id) {
      OthersLose(rows, sources, target, id);
    }
  }

  lemma LoserDoesNotKeep(rows: map<nat, Row>, sources: seq<string>, target: string, id: nat)
    requires ValidRequest(sources, target) && id in rows && Involved(rows[id], sources, target)
    requires Loses(rows, id, sources, target)
    ensures !KeepsByPosition(rows, sources, target, id)
  {
    var r := rows[id];
    var w :| w in rows && Involved(rows[w], sources, target) && SlotOf(rows[w]) == SlotOf(r)
             && Rank(rows[w].project, sources, target) < Rank(r.project, sources, target);
    assert Occupies(rows, SlotOf(r), rows[w].project);
    var i :| 0 <= i < |sources| && sources[i] == r.project;
    RankByPosition(r.project, sources, target, i);
    if rows[w].project != target {
      var j :| 0 <= j < |sources| && sources[j] == rows[w].project;
      RankByPosition(rows[w].project, sources, target, j);
      assert j < i && Occupies(rows, SlotOf(r), sources[j]);
    }
  }

  lemma OthersLose(rows: map<nat, Row>, sources: seq<string>, target: string, id: nat)
    requires ValidRequest(sources, target) && id in rows && Involved(rows[id], sources, target)
    requires !KeepsByPosition(rows, sources, target, id)
    ensures Loses(rows, id, sources, target)
  {
    var r := rows[id];
    var i :| 0 <= i < |sources| && sources[i] == r.project;
    RankByPosition(r.project, sources, target, i);
    var h;
    if Occupies(rows, SlotOf(r), target) {
      h :| h in rows && SlotOf(rows[h]) == SlotOf(r) && rows[h].project == target;
    } else {
      var j :| 0 <= j < i && Occupies(rows, SlotOf(r), sources[j]);
      h :| h in rows && SlotOf(rows[h]) == SlotOf(r) && rows[h].project == sources[j];
      RankByPosition(sources[j], sources, target, j);
    }
    assert Involved(rows[h], sources, target) && Rank(rows[h].project, sources, target) < Rank(r.project, sources, target);
  }

  /**
   Who keeps the key: in each slot the target's row, or without one the row of the first listed
   source that has one there; every other involved row is renamed to an archive name of its own
   project and key.
   */
  lemma KeepersByPosition(rows: map<nat, Row>, sources: seq<string>, target: string, newKey: map<nat, string>, id: nat)
    requires ValidRequest(sources, target) && GoodPlan(rows, sources, target, newKey)
    requires id in rows && Involved(rows[id], sources, target)
    ensures id !in newKey <==> KeepsByPosition(rows, sources, target, id)
    ensures id in newKey ==>
              var archived := "archive/" + rows[id].project + "/" + rows[id].key;
              newKey[id] == archived || exists n :: n >= 2 && newKey[id] == archived + "-" + Decimal(n)
  {
    LosesByPosition(rows, sources, target, id);
    if id in newKey {
      assert GoodKey(rows, sources, target, newKey, id);
      var n :| newKey[id] == Candidate(ArchiveBase(rows[id]), n);
      var archived := "archive/" + rows[id].project + "/" + rows[id].key;
      assert ArchiveBase(rows[id]) == archived;
      if n >= 2 {
        assert newKey[id] == archived + "-" + Decimal(n);
      }
    }
  }

  // One row as the relabel leaves it.
  predicate Landed(before: Row, after: Row, sources: seq<string>, target: string, newKey: Option<string>) {
    && after.ns == before.ns && after.uid == before.uid
    && after.key == (if newKey.Some? then newKey.value else before.key)
    && after.project == (if before.project in sources then target else before.project)
    && after.movedFrom == (if before.project in sources then Some(before.project) else before.movedFrom)
  }

  // ----- undo -----

  // One row under the update of `reverse(source, target)`.
  function ReversedRow(r: Row, source: string, target: string): Row {
    if r.project == target && r.movedFrom == Some(source) then
      var prefix := ArchivePrefix(source);
      Row(r.ns, r.uid, if StartsWith(r.key, prefix) then r.key[|prefix|..] else r.key, source, None)
    else r
  }

  function Reversed(rows: map<nat, Row>, source: string, target: string): map<nat, Row> {
    map id | id in rows :: ReversedRow(rows[id], source, target)
  }

  function ReversedRowAll(r: Row, order: seq<string>, target: string): Row
    decreases order
  {
    if order == [] then r else ReversedRowAll(ReversedRow(r, order[0], target), order[1..], target)
  }

  function ReversedAll(rows: map<nat, Row>, order: seq<string>, target: string): map<nat, Row> {
    if order == [] then rows else ReversedAll(Reversed(rows, order[0], target), order[1..], target)
  }

  lemma {:induction false} ReversedAllPointwise(rows: map<nat, Row>, order: seq<string>, target: string)
    ensures ReversedAll(rows, order, target) == map id | id in rows :: ReversedRowAll(rows[id], order, target)
  {
    if order != [] {
      ReversedAllPointwise(Reversed(rows, order[0], target), order[1..], target);
    }
  }

  // Only the reverse that names a row's own stamp ever touches it.
  lemma {:induction false} ReversedRowAllIs(r: Row, order: seq<string>, target: string)
    requires target !in order
    ensures ReversedRowAll(r, order, target) ==
            if r.project == target && r.movedFrom.Some? && r.movedFrom.value in order
            then ReversedRow(r, r.movedFrom.value, target)
            else r
    decreases order
  {
    if order != [] {
      ReversedRowAllIs(ReversedRow(r, order[0], target), order[1..], target);
    }
  }

  // A row's identity before the merge: what undo has to bring back.
  predicate SameHome(a: Row, b: Row) {
    SlotOf(a) == SlotOf(b) && a.project == b.project
  }

  ghost predicate Restored(before: map<nat, Row>, after: map<nat, Row>) {
    before.Keys == after.Keys && forall id | id in before :: SameHome(before[id], after[id])
  }

  /** The condition, checkable on the rows before the relabel, under which undo is exact. */
  ghost predicate Reversible(rows: map<nat, Row>, sources: seq<string>, target: string) {
    forall id | id in rows && Involved(rows[id], sources, target) :: RowReversible(rows, id, sources, target)
  }

  ghost predicate RowReversible(rows: map<nat, Row>, id: nat, sources: seq<string>, target: string)
    requires id in rows && Involved(rows[id], sources, target)
  {
    var r := rows[id];
    if r.project == target then
      // not already stamped as having come from one of the sources
      r.movedFrom.None? || r.movedFrom.value !in sources
    else if Loses(rows, id, sources, target) then
      // its archive name is free, so it gets no numeric suffix
      !SlotHeld(rows, NewSlot(r, ArchiveBase(r)), sources, target)
    else
      // the key it keeps does not look like an archived key of its own project
      !StartsWith(r.key, ArchivePrefix(r.project))
  }

  // Archive names of different rows are different: a project name contains no slash.
  lemma ArchiveBaseInjective(a: Row, b: Row)
    requires ValidName(a.project) && ValidName(b.project)
    requires ArchiveBase(a) == ArchiveBase(b)
    ensures a.project == b.project && a.key == b.key
  {
    var s := ArchiveBase(a);
    assert '/' !in a.project && '/' !in b.project;
    assert s[8..] == a.project + ("/" + a.key);
    assert s[8..] == b.project + ("/" + b.key);
    BeforeOf(a.project, '/', "/" + a.key);
    BeforeOf(b.project, '/', "/" + b.key);
    assert a.key == s[|ArchivePrefix(a.project)|..];
  }

  // When every wanted archive name is free in the table, no row gets a suffix.
  lemma {:induction false} NoSuffix(rows: map<nat, Row>, sources: seq<string>, target: string, newKey: map<nat, string>, id: nat)
    requires ValidRequest(sources, target) && Unique(rows) && GoodPlan(rows, sources, target, newKey)
    requires forall l | l in newKey :: !SlotHeld(rows, NewSlot(rows[l], ArchiveBase(rows[l])), sources, target)
    requires id in newKey
    ensures newKey[id] == ArchiveBase(rows[id])
    decreases |ArchiveBase(rows[id])|
  {
    if newKey[id] != ArchiveBase(rows[id]) {
      assert GoodKey(rows, sources, target, newKey, id);
      var o :| o in newKey && NewSlot(rows[o], newKey[o]) == NewSlot(rows[id], ArchiveBase(rows[id]));
      assert GoodKey(rows, sources, target, newKey, o);
      if newKey[o] == ArchiveBase(rows[o]) {
        ArchiveBaseInjective(rows[o], rows[id]);
        assert false;
      } else {
        var n :| newKey[o] == Candidate(ArchiveBase(rows[o]), n);
        NoSuffix(rows, sources, target, newKey, o);
      }
    }
  }

  // A relabelled row, with whatever key the plan gave it.
  function MovedRow(r: Row, key: string, target: string): Row {
    Row(r.ns, r.uid, key, target, Some(r.project))
  }

  // A row that kept its key comes back unless the key itself looks archived.
  lemma KeptComesBack(r: Row, target: string)
    ensures SameHome(r, ReversedRow(MovedRow(r, r.key, target), r.project, target))
            <==> !StartsWith(r.key, ArchivePrefix(r.project))
  {
    var prefix := ArchivePrefix(r.project);
    if StartsWith(r.key, prefix) {
      assert |r.key[|prefix|..]| < |r.key|;
    }
  }

  // A renamed row comes back exactly when it got its archive name without a suffix.
  lemma RenamedComesBack(r: Row, key: string, target: string)
    requires IsCandidate(key, ArchiveBase(r))
    ensures SameHome(r, ReversedRow(MovedRow(r, key, target), r.project, target))
            <==> key == ArchiveBase(r)
  {
    var prefix := ArchivePrefix(r.project);
    var n :| key == Candidate(ArchiveBase(r), n);
    assert key == prefix + Candidate(r.key, n);
    assert key[|prefix|..] == Candidate(r.key, n);
    assert |Candidate(r.key, n)| == |r.key| <==> n < 2;
  }

  // What the plan and the stamps say about one row coming back.
  ghost predicate ComesBack(rows: map<nat, Row>, sources: seq<string>, target: string, newKey: map<nat, string>, id: nat)
    requires id in rows
  {
    var r := rows[id];
    if r.project == target then r.movedFrom.None? || r.movedFrom.value !in sources
    else if id in newKey then newKey[id] == ArchiveBase(r)
    else !StartsWith(r.key, ArchivePrefix(r.project))
  }

  lemma RowRestoredIff(rows: map<nat, Row>, sources: seq<string>, target: string, newKey: map<nat, string>, id: nat, order: seq<string>)
    requires ValidRequest(sources, target) && GoodPlan(rows, sources, target, newKey)
    requires forall s :: s in order <==> s in sources
    requires id in rows && Involved(rows[id], sources, target)
    ensures SameHome(rows[id], ReversedRowAll(Relabeled(rows, sources, target, newKey)[id], order, target))
            <==> ComesBack(rows, sources, target, newKey, id)
  {
    var r := rows[id];
    var there := Relabeled(rows, sources, target, newKey)[id];
    ReversedRowAllIs(there, order, target);
    if r.project == target {
      TargetKeeps(rows, sources, target, id);
      assert there == r;
    } else if id in newKey {
      assert there == MovedRow(r, newKey[id], target);
      RenamedComesBack(r, newKey[id], target);
    } else {
      assert there == MovedRow(r, r.key, target);
      KeptComesBack(r, target);
    }
  }

  // The target's own rows never lose.
  lemma TargetKeeps(rows: map<nat, Row>, sources: seq<string>, target: string, id: nat)
    requires id in rows && rows[id].project == target
    ensures !Loses(rows, id, sources, target)
  {
  }

  lemma OtherRowUntouched(rows: map<nat, Row>, sources: seq<string>, target: string, newKey: map<nat, string>, id: nat, order: seq<string>)
    requires ValidRequest(sources, target) && GoodPlan(rows, sources, target, newKey)
    requires forall s | s in order :: s in sources
    requires id in rows && !Involved(rows[id], sources, target)
    ensures ReversedRowAll(Relabeled(rows, sources, target, newKey)[id], order, target) == rows[id]
  {
    assert Relabeled(rows, sources, target, newKey)[id] == rows[id];
    ReversedRowAllIs(rows[id], order, target);
  }

  // Before the plan has run: the same question, asked of the table alone.
  lemma ReversibleIff(rows: map<nat, Row>, sources: seq<string>, target: string, newKey: map<nat, string>)
    requires ValidRequest(sources, target) && Unique(rows) && GoodPlan(rows, sources, target, newKey)
    ensures Reversible(rows, sources, target) <==>
            forall id | id in rows && Involved(rows[id], sources, target) :: ComesBack(rows, sources, target, newKey, id)
  {
    if Reversible(rows, sources, target) {
      forall l | l in newKey ensures !SlotHeld(rows, NewSlot(rows[l], ArchiveBase(rows[l])), sources, target) {
        assert RowReversible(rows, l, sources, target);
      }
      forall id | id in rows && Involved(rows[id], sources, target) ensures ComesBack(rows, sources, target, newKey, id) {
        assert RowReversible(rows, id, sources, target);
        if id in newKey {
          NoSuffix(rows, sources, target, newKey, id);
        }
      }
    } else {
      var id :| id in rows && Involved(rows[id], sources, target) && !RowReversible(rows, id, sources, target);
      assert !ComesBack(rows, sources, target, newKey, id);
    }
  }

  /** Undo is exact, for every order of the reverses, precisely when `Reversible` held before the relabel. */
  lemma UndoExactly(rows: map<nat, Row>, sources: seq<string>, target: string, newKey: map<nat, string>, order: seq<string>)
    requires ValidRequest(sources, target) && Unique(rows) && GoodPlan(rows, sources, target, newKey)
    requires forall s :: s in order <==> s in sources
    ensures Restored(rows, ReversedAll(Relabeled(rows, sources, target, newKey), order, target))
            <==> Reversible(rows, sources, target)
  {
    var there := Relabeled(rows, sources, target, newKey);
    ReversedAllPointwise(there, order, target);
    ReversibleIff(rows, sources, target, newKey);
    forall id | id in rows
      ensures SameHome(rows[id], ReversedRowAll(there[id], order, target)) <==>
              (Involved(rows[id], sources, target) ==> ComesBack(rows, sources, target, newKey, id))
    {
      if Involved(rows[id], sources, target) {
        RowRestoredIff(rows, sources, target, newKey, id, order);
      } else {
        OtherRowUntouched(rows, sources, target, newKey, id, order);
      }
    }
  }

  // Under way, a row is either still where the relabel put it or back home.
  lemma ThereOrHome(rows: map<nat, Row>, sources: seq<string>, target: string, newKey: map<nat, string>, order: seq<string>, id: nat)
    requires ValidRequest(sources, target) && Unique(rows) && GoodPlan(rows, sources, target, newKey)
    requires Reversible(rows, sources, target)
    requires forall s | s in order :: s in sources
    requires id in rows
    ensures var there := Relabeled(rows, sources, target, newKey)[id];
            var back := ReversedRowAll(there, order, target);
            if back.project == target then back == there else SameHome(rows[id], back)
  {
    var there := Relabeled(rows, sources, target, newKey)[id];
    ReversedRowAllIs(there, order, target);
    if Involved(rows[id], sources, target) {
      ReversedRowAllIs(there, sources, target);
      ReversibleIff(rows, sources, target, newKey);
      RowRestoredIff(rows, sources, target, newKey, id, sources);
    }
  }

  /** While a reversible undo is under way, every intermediate table obeys the constraint. */
  lemma UndoKeepsUnique(rows: map<nat, Row>, sources: seq<string>, target: string, newKey: map<nat, string>, order: seq<string>)
    requires ValidRequest(sources, target) && Unique(rows) && GoodPlan(rows, sources, target, newKey)
    requires Reversible(rows, sources, target)
    requires forall s | s in order :: s in sources
    ensures Unique(ReversedAll(Relabeled(rows, sources, target, newKey), order, target))
  {
    var there := Relabeled(rows, sources, target, newKey);
    ReversedAllPointwise(there, order, target);
    MoveKeepsUnique(rows, sources, target, newKey, rows.Keys);
    forall id | id in rows
      ensures var back := ReversedRowAll(there[id], order, target);
              if back.project == target then back == there[id] else SameHome(rows[id], back)
    {
      ThereOrHome(rows, sources, target, newKey, order, id);
    }
  }

  /** A key that already looks archived is damaged by undo: the guard in `reverse` strips it. */
  lemma UndoCanLose()
    ensures var rows := map[0 as nat := Row("n", "u", "archive/a/k", "a", None)];
            && ValidRequest(["a"], "b") && Unique(rows) && GoodPlan(rows, ["a"], "b", map[])
            && ReversedAll(Relabeled(rows, ["a"], "b", map[]), ["a"], "b")[0].key == "k"
  {
    var rows := map[0 as nat := Row("n", "u", "archive/a/k", "a", None)];
    assert ArchivePrefix("a") == "archive/a/";
    assert Relabeled(rows, ["a"], "b", map[])[0] == Row("n", "u", "archive/a/k", "b", Some("a"));
    var back := ReversedRow(Row("n", "u", "archive/a/k", "b", Some("a")), "a", "b");
    assert back.key == "archive/a/k"[10..] == "k";
    ReversedAllPointwise(Relabeled(rows, ["a"], "b", map[]), ["a"], "b");
    ReversedRowAllIs(Row("n", "u", "archive/a/k", "b", Some("a")), ["a"], "b");
  }
}
