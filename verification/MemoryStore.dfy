/**
 The verbs of server/services/memory_service.py as whole calls, and how a call relates to the
 statements of MemoryRows.
 */
module MemoryStore {
  import opened Common
  import opened MemoryRows
  import opened MemoryCollapse

  datatype Verdict =
    | Stored(created: bool)
    | OwnershipConflict(owner: string)
    | VersionConflict(current: Option<string>)

  datatype Forgotten = Gone | Missing | ForgetDenied(controller: string)

  datatype Complaint = WrongScope | NoReason

  predicate Blank(s: string) {
    forall i | 0 <= i < |s| :: IsSpace(s[i])
  }

  // Shared rows carry no project.
  function Shelf(s: Slot): Slot {
    if s.scope == "shared" then s.(project := None) else s
  }

  // The rows one supersede is after: the same key in any of the namespaces.
  predicate Sought(nss: set<string>, s: Slot, t: Slot) {
    t.ns in nss && t == s.(ns := t.ns)
  }

  function SupersededIn(rows: Table, nss: set<string>, s: Slot): Table {
    map t | t in rows :: if Sought(nss, s, t) && rows[t].status != Superseded then rows[t].(status := Superseded) else rows[t]
  }

  /** In one namespace a correction is the single statement of the machine: that row, if there, is superseded and nothing else. */
  lemma OneNamespaceIsOneRow(rows: Table, s: Slot)
    ensures SupersededIn(rows, {s.ns}, s) == SupersededAt(rows, s)
    ensures SupersededAt(rows, s) == if s in rows then rows[s := rows[s].(status := Superseded)] else rows
  {
    assert forall t: Slot :: Sought({s.ns}, s, t) <==> t == s;
    if s in rows && rows[s].status == Superseded {
      assert rows[s := rows[s].(status := Superseded)] == rows;
    }
  }

  // May this request write over what is stored?
  predicate Allowed(rows: Table, r: Request) {
    !(EnforcesOwner(r) && r.slot in rows && OwnedByOther(r, rows[r.slot]))
  }

  predicate Matches(rows: Table, r: Request, ver: string -> string) {
    match r.ifMatch
    case None => true
    case Some(v) =>
      if v == "" then r.slot !in rows || Drained(rows[r.slot])
      else r.slot in rows && ver(rows[r.slot].value) == v
  }

  // The table after a call that succeeds.
  function AfterSet(rows: Table, r: Request, now: int): Table {
    var written := Upserted(rows, r, now);
    if r.slot.scope == "project" && !CreateOnly(r) then Collapsed(written, r.slot) else written
  }

  // The row's controller for destruction: its custodian, else its owner.
  function Controller(row: Row): Option<string> {
    if row.custodian.Some? && row.custodian.value != "" then row.custodian else row.owner
  }

  predicate Unexpired(row: Row, now: int) {
    row.expiresAt.Some? ==> row.expiresAt.value > now
  }

  // What an exact read returns: history stays readable, a flagged row does not.
  function ReadOf(rows: Table, s: Slot, now: int): Option<string> {
    if s in rows && rows[s].status != DeletionRequested && Unexpired(rows[s], now) then Some(rows[s].value) else None
  }

  // What an all-writers read may return for the key.
  predicate Visible(rows: Table, k: Slot, now: int, s: Slot) {
    SameKey(k, s) && IsLive(rows, s) && Unexpired(rows[s], now)
  }

  ghost predicate Newest(rows: Table, k: Slot, now: int, s: Slot) {
    && Visible(rows, k, now, s)
    && forall t | Visible(rows, k, now, t) :: rows[t].createdAt <= rows[s].createdAt
  }

  // The row a write leaves: its value and owner, live; the age and the custodian of the row it updated.
  predicate StoredAs(row: Row, r: Request, before: Option<Row>, now: int) {
    && row.value == r.value && row.owner == r.owner && row.status == Live && row.priorStatus == None && row.expiresAt == r.expiresAt
    && row.createdAt == (if before.Some? then before.value.createdAt else now)
    && row.custodian == (if before.Some? then before.value.custodian else None)
  }

  // A project write that is not create-only retires the other writers' rows of its key.
  predicate Replaces(r: Request, t: Slot) {
    && r.slot.scope == "project" && r.ifMatch != Some("")
    && t.ns == r.slot.ns && t.key == r.slot.key && t.scope == r.slot.scope && t.project == r.slot.project && t.user != r.slot.user
  }

  lemma SetMeans(rows: Table, r: Request, now: int)
    ensures var after := AfterSet(rows, r, now);
            && r.slot in after && StoredAs(after[r.slot], r, if r.slot in rows then Some(rows[r.slot]) else None, now)
            && after.Keys == rows.Keys + {r.slot}
            && forall t | t in rows && t != r.slot ::
                 after[t] == if Replaces(r, t) && rows[t].status == Live then rows[t].(status := Superseded) else rows[t]
  {
    assert forall t: Slot | t.user == r.slot.user && t.(user := "") == r.slot.(user := "") :: t == r.slot;
    assert forall t: Slot :: t.(user := "") == r.slot.(user := "") <==>
             t.ns == r.slot.ns && t.key == r.slot.key && t.scope == r.slot.scope && t.project == r.slot.project;
  }

  class Store {
    var rows: Table

    constructor ()
      ensures rows == map[]
    {
      rows := map[];
    }

    /** Store or update one row; a refusal changes nothing. */
    method Set(r: Request, now: int, ver: string -> string) returns (v: Verdict)
      modifies this
      ensures v.Stored? <==> Allowed(old(rows), r) && Matches(old(rows), r, ver)
      ensures v.Stored? ==> rows == AfterSet(old(rows), r, now)
      ensures v.Stored? ==> v.created == (r.slot !in old(rows) || CreateOnly(r))
      ensures !v.Stored? ==> rows == old(rows)
      ensures v.OwnershipConflict? <==> !Allowed(old(rows), r)
      ensures v.OwnershipConflict? ==> old(rows)[r.slot].owner == Some(v.owner)
      ensures v.VersionConflict? ==>
                v.current == if r.slot in old(rows) then Some(old(rows)[r.slot].value) else None
      // ownership, from the row: a live project row of another recorded owner, unless an admin writes
      ensures v.OwnershipConflict? <==>
                && r.slot.scope == "project" && !r.admin && r.slot in old(rows) && old(rows)[r.slot].status == Live
                && old(rows)[r.slot].owner.Some? && old(rows)[r.slot].owner != r.owner
      // what is stored, and what becomes of every other row
      ensures v.Stored? ==> r.slot in rows && StoredAs(rows[r.slot], r, if r.slot in old(rows) then Some(old(rows)[r.slot]) else None, now)
      ensures v.Stored? ==> rows.Keys == old(rows).Keys + {r.slot}
      ensures v.Stored? ==> forall t | t in old(rows) && t != r.slot ::
                rows[t] == if Replaces(r, t) && old(rows)[t].status == Live then old(rows)[t].(status := Superseded) else old(rows)[t]
    {
      SetMeans(rows, r, now);
      var present := r.slot in rows;
      if EnforcesOwner(r) && present {
        var row := rows[r.slot];
        if row.owner.Some? && row.owner != r.owner && !Drained(row) {
          return OwnershipConflict(row.owner.value);
        }
      }
      if CreateOnly(r) {
        if present && !Drained(rows[r.slot]) {
          return VersionConflict(Some(rows[r.slot].value));
        }
        rows := Upserted(rows, r, now);
        return Stored(true);
      }
      if r.ifMatch.Some? {
        if !present {
          return VersionConflict(None);
        }
        if ver(rows[r.slot].value) != r.ifMatch.value {
          return VersionConflict(Some(rows[r.slot].value));
        }
      }
      rows := Upserted(rows, r, now);
      if r.slot.scope == "project" {
        rows := Collapsed(rows, r.slot);
      }
      return Stored(!present);
    }

    /** All-writers read: the newest created live row of the key. */
    method GetAny(k: Slot, now: int) returns (found: Option<Slot>)
      ensures found.None? <==> forall s :: !Visible(rows, k, now, s)
      ensures found.Some? ==> Newest(rows, k, now, found.value)
    {
      var table := rows;
      var todo := table.Keys;
      found := None;
      while todo != {}
        invariant todo <= table.Keys
        invariant found.Some? ==> Visible(table, k, now, found.value)
        invariant forall s | Visible(table, k, now, s) && s !in todo ::
                    found.Some? && table[s].createdAt <= table[found.value].createdAt
        decreases |todo|
      {
        var s :| s in todo;
        todo := todo - {s};
        if Visible(table, k, now, s) && (found.None? || table[s].createdAt > table[found.value].createdAt) {
          found := Some(s);
        }
      }
    }

    /** Correction, not deletion: the rows stay, only their status changes.  Project and shared rows only. */
    method Supersede(nss: set<string>, s: Slot, reason: string) returns (res: Result<bool, Complaint>)
      modifies this
      ensures res == Err(WrongScope) <==> s.scope !in {"project", "shared"}
      ensures res == Err(NoReason) <==> s.scope in {"project", "shared"} && Blank(reason)
      ensures res.Ok? ==> rows == SupersededIn(old(rows), nss, Shelf(s))
      ensures res.Ok? ==> (res.value <==> exists t | t in old(rows) :: Sought(nss, Shelf(s), t) && old(rows)[t].status != Superseded)
      ensures res.Err? ==> rows == old(rows)
    {
      if s.scope !in {"project", "shared"} { return Err(WrongScope); }
      if Blank(reason) { return Err(NoReason); }
      var slot := if s.scope == "shared" then s.(project := None) else s;
      var table := rows;
      var hit := set t | t in table && Sought(nss, slot, t) && table[t].status != Superseded;
      rows := map t | t in table :: if t in hit then table[t].(status := Superseded) else table[t];
      if hit != {} {
        var t :| t in hit;
        assert Sought(nss, Shelf(s), t) && table[t].status != Superseded;
      } else {
        assert forall t | t in table && Sought(nss, Shelf(s), t) && table[t].status != Superseded :: t in hit;
      }
      return Ok(hit != {});
    }

    /** A deletion request hides the row at once; the first one stands.  Data scopes only. */
    method Flag(s: Slot, reason: string) returns (res: Result<bool, Complaint>)
      modifies this
      ensures res == Err(WrongScope) <==> s.scope !in {"project", "shared", "user", "machine"}
      ensures res == Err(NoReason) <==> s.scope in {"project", "shared", "user", "machine"} && Blank(reason)
      ensures res.Ok? ==> rows == FlaggedAt(old(rows), s)
      ensures res.Ok? && s in old(rows) ==>
                && s in rows && rows[s].status == DeletionRequested && rows[s].value == old(rows)[s].value
                && rows == old(rows)[s := rows[s]]
      ensures res.Ok? && s !in old(rows) ==> rows == old(rows)
      ensures res.Ok? ==> (res.value <==> s in old(rows) && old(rows)[s].status != DeletionRequested)
      ensures res.Err? ==> rows == old(rows)
    {
      if s.scope !in {"project", "shared", "user", "machine"} { return Err(WrongScope); }
      if Blank(reason) { return Err(NoReason); }
      var changed := s in rows && rows[s].status != DeletionRequested;
      if changed {
        var row := rows[s];
        if row.status != Live {
          row := row.(priorStatus := Some(row.status));
        }
        rows := rows[s := row.(status := DeletionRequested)];
      }
      return Ok(changed);
    }

    /** Declining a request puts back the status it replaced. */
    method Reject(s: Slot, reason: string) returns (res: Result<bool, Complaint>)
      modifies this
      ensures res.Err? <==> Blank(reason)
      ensures res.Ok? ==> rows == RejectedAt(old(rows), s)
      ensures res.Ok? && res.value ==>
                && s in rows && rows == old(rows)[s := rows[s]] && rows[s].value == old(rows)[s].value
                && rows[s].status == if old(rows)[s].priorStatus.Some? then old(rows)[s].priorStatus.value else Live
      ensures res.Ok? && !res.value ==> rows == old(rows)
      ensures res.Ok? ==> (res.value <==> s in old(rows) && old(rows)[s].status == DeletionRequested)
      ensures res.Err? ==> rows == old(rows)
    {
      if Blank(reason) { return Err(NoReason); }
      var changed := s in rows && rows[s].status == DeletionRequested;
      if changed {
        var prior := rows[s].priorStatus;
        rows := rows[s := rows[s].(priorStatus := None, status := if prior.Some? then prior.value else Live)];
      }
      return Ok(changed);
    }

    /** Hard delete: only the controller or an admin, except where nobody is recorded or nobody is asking. */
    method Forget(s: Slot, actor: Option<string>, admin: bool) returns (v: Forgotten)
      modifies this
      // a recorded custodian decides, and only without one the owner
      ensures v.ForgetDenied? <==>
                && actor.Some? && !admin && s in old(rows)
                && var row := old(rows)[s];
                   if row.custodian.Some? && row.custodian.value != "" then row.custodian != actor
                   else row.owner.Some? && row.owner != actor
      ensures v.ForgetDenied? ==>
                var row := old(rows)[s];
                Some(v.controller) == if row.custodian.Some? && row.custodian.value != "" then row.custodian else row.owner
      ensures v.Gone? ==> s in old(rows) && rows == old(rows) - {s}
      ensures !v.Gone? ==> rows == old(rows)
      ensures v.Missing? <==> s !in old(rows)
    {
      if actor.Some? && !admin && s in rows {
        var controller := Controller(rows[s]);
        if controller.Some? && controller != actor {
          return ForgetDenied(controller.value);
        }
      }
      if s !in rows {
        return Missing;
      }
      rows := rows - {s};
      return Gone;
    }
  }

  /**
   With calls atomic: after a project write that is not create-only, the writer's row is the one
   live row of the key, and the all-writers read returns it and its value while it has not expired.
   */
  lemma LastWriterIsCurrent(rows: Table, r: Request, now: int, later: int, s: Slot)
    requires r.slot.scope == "project" && !CreateOnly(r) && SameKey(r.slot, s)
    ensures var after := AfterSet(rows, r, now);
            && (IsLive(after, s) <==> s == r.slot)
            && after[r.slot].value == r.value
            && (Newest(after, r.slot, later, s) <==>
                  s == r.slot && (r.expiresAt.Some? ==> r.expiresAt.value > later))
  {
    var after := AfterSet(rows, r, now);
    assert forall t | Twins(r.slot, t) && t in after :: after[t].status != Live;
    assert forall t | SameKey(r.slot, t) && IsLive(after, t) :: t == r.slot;
  }

  /** A create-only write adds its own row and leaves every other live row of the key live. */
  lemma CreateOnlyKeepsTwins(rows: Table, r: Request, now: int, s: Slot)
    requires CreateOnly(r)
    ensures IsLive(AfterSet(rows, r, now), s) <==> s == r.slot || IsLive(rows, s)
  {
  }

  /** What was stored is read back, by exact key, for as long as it has not expired. */
  lemma SetIsRead(rows: Table, r: Request, now: int, later: int)
    ensures ReadOf(AfterSet(rows, r, now), r.slot, later)
            == if r.expiresAt.Some? && r.expiresAt.value <= later then None else Some(r.value)
  {
  }

  // ----- a flagged row stays hidden -----

  datatype Verb =
    | Write(r: Request)
    | Correct(nss: set<string>, at: Slot, reason: string)
    | Ask(at: Slot, reason: string)
    | Decline(at: Slot, reason: string)
    | Erase(at: Slot)
    | Wait(time: nat)

  // What each verb does to the table; a refused one does nothing.
  function Did(rows: Table, v: Verb, now: int, ver: string -> string): Table {
    match v
    case Write(r) => if Allowed(rows, r) && Matches(rows, r, ver) then AfterSet(rows, r, now) else rows
    case Correct(nss, s, reason) =>
      if s.scope in {"project", "shared"} && !Blank(reason) then SupersededIn(rows, nss, Shelf(s)) else rows
    case Ask(s, reason) =>
      if s.scope in {"project", "shared", "user", "machine"} && !Blank(reason) then FlaggedAt(rows, s) else rows
    case Decline(s, reason) => if !Blank(reason) then RejectedAt(rows, s) else rows
    case Erase(s) => rows - {s}
    case Wait(_) => rows
  }

  // A run of verbs, as the tables between them; the clock is each verb's own affair.
  ghost predicate IsHistory(trace: seq<Table>, run: seq<Verb>, clock: seq<int>, ver: string -> string) {
    && |trace| == |run| + 1 && |clock| == |run|
    && forall k | 0 <= k < |run| :: trace[k + 1] == Did(trace[k], run[k], clock[k], ver)
  }

  // There is no row, or it awaits deletion.
  predicate Hidden(rows: Table, s: Slot) {
    s in rows ==> rows[s].status == DeletionRequested
  }

  // A flag never replaces a flag.
  ghost predicate PriorsAreSound(rows: Table) {
    forall s | s in rows :: rows[s].priorStatus != Some(DeletionRequested)
  }

  // A write, a correction or a rejection of this row goes through.
  predicate Unhides(rows: Table, v: Verb, s: Slot, ver: string -> string) {
    match v
    case Write(r) => r.slot == s && Allowed(rows, r) && Matches(rows, r, ver)
    case Correct(nss, at, reason) =>
      s in rows && at.scope in {"project", "shared"} && !Blank(reason) && Sought(nss, Shelf(at), s)
    case Decline(at, reason) => at == s && !Blank(reason) && s in rows
    case _ => false
  }

  lemma HiddenStepIff(rows: Table, v: Verb, s: Slot, now: int, ver: string -> string)
    requires Hidden(rows, s) && PriorsAreSound(rows)
    ensures Hidden(Did(rows, v, now, ver), s) <==> !Unhides(rows, v, s, ver)
  {
    hide Allowed, Matches, Blank;
  }

  lemma PriorsStaySound(rows: Table, v: Verb, now: int, ver: string -> string)
    requires PriorsAreSound(rows)
    ensures PriorsAreSound(Did(rows, v, now, ver))
  {
    hide Allowed, Matches, Blank;
  }

  lemma {:induction false} PriorsSoundAt(trace: seq<Table>, run: seq<Verb>, clock: seq<int>, ver: string -> string, i: nat)
    requires IsHistory(trace, run, clock, ver) && i < |trace| && PriorsAreSound(trace[0])
    ensures PriorsAreSound(trace[i])
    decreases i
  {
    hide Did, PriorsAreSound;
    if i > 0 {
      PriorsSoundAt(trace, run, clock, ver, i - 1);
      assert trace[i - 1 + 1] == Did(trace[i - 1], run[i - 1], clock[i - 1], ver);
      PriorsStaySound(trace[i - 1], run[i - 1], clock[i - 1], ver);
    }
  }

  ghost predicate AlwaysHidden(trace: seq<Table>, s: Slot) {
    forall k | 0 <= k < |trace| :: Hidden(trace[k], s)
  }

  ghost predicate NeverUnhidden(trace: seq<Table>, run: seq<Verb>, s: Slot, ver: string -> string)
    requires |trace| == |run| + 1
  {
    forall k | 0 <= k < |run| :: !Unhides(trace[k], run[k], s, ver)
  }

  lemma HiddenAt(trace: seq<Table>, run: seq<Verb>, clock: seq<int>, ver: string -> string, s: Slot, k: nat)
    requires IsHistory(trace, run, clock, ver) && k < |run| && PriorsAreSound(trace[0]) && Hidden(trace[k], s)
    ensures Hidden(trace[k + 1], s) <==> !Unhides(trace[k], run[k], s, ver)
  {
    PriorsSoundAt(trace, run, clock, ver, k);
    hide Did, Unhides, Hidden, PriorsAreSound;
    assert trace[k + 1] == Did(trace[k], run[k], clock[k], ver);
    HiddenStepIff(trace[k], run[k], s, clock[k], ver);
  }

  lemma {:induction false} NeverUnhiddenStays(trace: seq<Table>, run: seq<Verb>, clock: seq<int>, ver: string -> string, s: Slot, i: nat)
    requires IsHistory(trace, run, clock, ver) && i < |trace| && PriorsAreSound(trace[0]) && Hidden(trace[0], s)
    requires NeverUnhidden(trace, run, s, ver)
    ensures Hidden(trace[i], s)
    decreases i
  {
    hide Hidden, Unhides, PriorsAreSound, Did;
    if i > 0 {
      NeverUnhiddenStays(trace, run, clock, ver, s, i - 1);
      HiddenAt(trace, run, clock, ver, s, i - 1);
    }
  }

  /**
   Over any run a flagged row stays unreadable, by exact key and by all-writers read and at any
   time, if and only if no write, no correction and no rejection of it goes through.
   */
  lemma FlaggedStaysHiddenIff(trace: seq<Table>, run: seq<Verb>, clock: seq<int>, ver: string -> string, s: Slot)
    requires IsHistory(trace, run, clock, ver) && PriorsAreSound(trace[0]) && Hidden(trace[0], s)
    ensures AlwaysHidden(trace, s) <==> NeverUnhidden(trace, run, s, ver)
    ensures AlwaysHidden(trace, s) ==> forall k | 0 <= k < |trace| :: Unread(trace[k], s)
  {
    hide Hidden, Unhides, PriorsAreSound, Did;
    if NeverUnhidden(trace, run, s, ver) {
      forall i | 0 <= i < |trace| ensures Hidden(trace[i], s) {
        NeverUnhiddenStays(trace, run, clock, ver, s, i);
      }
    }
    if AlwaysHidden(trace, s) {
      forall k | 0 <= k < |run| ensures !Unhides(trace[k], run[k], s, ver) {
        HiddenAt(trace, run, clock, ver, s, k);
      }
      forall k | 0 <= k < |trace| ensures Unread(trace[k], s) {
        HiddenIsUnread(trace[k], s);
      }
    }
  }

  // No read returns the row, whenever it is made.
  ghost predicate Unread(rows: Table, s: Slot) {
    (forall now :: ReadOf(rows, s, now).None?) && forall now, key :: !Visible(rows, key, now, s)
  }

  lemma HiddenIsUnread(rows: Table, s: Slot)
    requires Hidden(rows, s)
    ensures Unread(rows, s)
  {
    assert !IsLive(rows, s);
  }

  /**
   A correction is one such way: superseding a row that awaits deletion gives it back to the exact
   read, although a flag is meant to end its exposure, exactly while it has not expired.
   */
  lemma SupersedeUnhidesIff(rows: Table, nss: set<string>, s: Slot, reason: string, now: int, ver: string -> string)
    requires s in rows && rows[s].status == DeletionRequested && s.scope in {"project", "shared"}
    ensures ReadOf(Did(rows, Correct(nss, s, reason), now, ver), s, now).Some? <==>
              !Blank(reason) && s.ns in nss && Shelf(s) == s && Unexpired(rows[s], now)
  {
    hide Blank;
  }

  // ----- a call is a run of its statements -----

  function Alone(rows: Table, r: Request, now: int, p: Phase, locks: map<Slot, nat>): Machine {
    Machine(rows, locks, map[0 := r], map[0 := p], now)
  }

  lemma AloneStart(rows: Table, r: Request, now: int, ver: string -> string) returns (locks: map<Slot, nat>)
    ensures locks == map[] || (locks == map[r.slot := 0] && r.slot in rows)
    ensures Exec(Alone(rows, r, now, Start, map[]), Act(0), ver)
            == Alone(rows, r, now,
                     if !Allowed(rows, r) then Lost
                     else if CreateOnly(r) then (if r.slot in rows && Drained(rows[r.slot]) then Writing else Inserting)
                     else if r.ifMatch.Some? then Matching
                     else Writing, locks)
  {
    var n := Exec(Alone(rows, r, now, Start, map[]), Act(0), ver);
    locks := n.locks;
  }

  // From the write on.
  lemma AloneWrite(rows: Table, r: Request, now: int, locks: map<Slot, nat>, ver: string -> string)
    requires locks == map[] || locks == map[r.slot := 0]
    ensures Exec(Alone(rows, r, now, Writing, locks), Act(0), ver)
            == Alone(Upserted(rows, r, now), r, now, if CreateOnly(r) || r.slot.scope != "project" then Won else Stamping, map[])
  {
  }

  lemma AloneStamp(rows: Table, r: Request, now: int, ver: string -> string)
    ensures Exec(Alone(rows, r, now, Stamping, map[]), Act(0), ver) == Alone(Collapsed(rows, r.slot), r, now, Won, map[])
  {
  }

  lemma AloneMatch(rows: Table, r: Request, now: int, locks: map<Slot, nat>, ver: string -> string)
    requires locks == map[] || locks == map[r.slot := 0]
    ensures r.ifMatch.Some? && !CreateOnly(r) ==>
              Exec(Alone(rows, r, now, Matching, locks), Act(0), ver)
              == if Matches(rows, r, ver) then Alone(rows, r, now, Writing, map[r.slot := 0]) else Alone(rows, r, now, Lost, map[])
  {
  }

  lemma AloneInsert(rows: Table, r: Request, now: int, locks: map<Slot, nat>, ver: string -> string)
    requires locks == map[] || (locks == map[r.slot := 0] && r.slot in rows)
    ensures Exec(Alone(rows, r, now, Inserting, locks), Act(0), ver)
            == if r.slot in rows then Alone(rows, r, now, Lost, map[]) else Alone(Upserted(rows, r, now), r, now, Won, map[])
  {
  }

  /** A writer that runs alone ends exactly as the call does: the same table, the same verdict. */
  lemma CallIsARun(rows: Table, r: Request, now: int, ver: string -> string)
    ensures var n := At(Alone(rows, r, now, Start, map[]), [Act(0), Act(0), Act(0), Act(0)], 4, ver);
            n == if Allowed(rows, r) && Matches(rows, r, ver)
                 then Alone(AfterSet(rows, r, now), r, now, Won, map[])
                 else Alone(rows, r, now, Lost, map[])
  {
    var m0 := Alone(rows, r, now, Start, map[]);
    var run := [Act(0), Act(0), Act(0), Act(0)];
    var locks := AloneStart(rows, r, now, ver);
    AloneMatch(rows, r, now, locks, ver);
    AloneInsert(rows, r, now, locks, ver);
    AloneWrite(rows, r, now, locks, ver);
    AloneWrite(rows, r, now, map[r.slot := 0], ver);
    AloneStamp(Upserted(rows, r, now), r, now, ver);
    var m1 := Exec(m0, Act(0), ver);
    var m2 := Exec(m1, Act(0), ver);
    var m3 := Exec(m2, Act(0), ver);
    var m4 := Exec(m3, Act(0), ver);
    AloneDone(rows, r, now, Lost, ver);
    AloneDone(AfterSet(rows, r, now), r, now, Won, ver);
    hide Exec;
    assert At(m0, run, 1, ver) == m1;
    assert At(m0, run, 2, ver) == m2;
    assert At(m0, run, 3, ver) == m3;
    assert At(m0, run, 4, ver) == m4;
  }

  lemma AloneDone(rows: Table, r: Request, now: int, p: Phase, ver: string -> string)
    requires p == Won || p == Lost
    ensures Exec(Alone(rows, r, now, p, map[]), Act(0), ver) == Alone(rows, r, now, p, map[])
  {
  }
}
