/**
 Token lookup of server/services/principal_service.py: the digest index and the verdict cache,
 against the plain check of every active principal that they stand in for.

 A digest and a stored hash are symbolic: each is built from one token and accepts that token
 alone.  Principals are rows of a sequence, never deleted; a row's position is its id.
 */
module PrincipalCache {
  import opened Common

  datatype Digest = Sha(token: string)
  datatype Hash = Bcrypt(token: string, salt: nat)

  predicate Accepts(h: Hash, token: string) {
    h.token == token
  }

  datatype Row = Row(name: string, active: bool, hash: Option<Hash>, lookup: Option<Digest>, grants: nat)

  datatype Verdict = Verdict(hash: Hash, until: int)

  datatype State = State(rows: seq<Row>, verified: map<Digest, Verdict>, now: int)

  const VERIFIED_TTL: int := 300
  const VERIFIED_MAX: nat := 1024

  // ----- the reference: check every active principal -----

  predicate Holds(r: Row, token: string) {
    r.active && r.hash.Some? && Accepts(r.hash.value, token)
  }

  function Scan(rows: seq<Row>, token: string): Option<nat> {
    First(rows, (r: Row) => Holds(r, token), 0)
  }

  function First(rows: seq<Row>, p: Row -> bool, from: nat): (r: Option<nat>)
    requires from <= |rows|
    ensures r.Some? ==> from <= r.value < |rows| && p(rows[r.value]) && forall i | from <= i < r.value :: !p(rows[i])
    ensures r.None? ==> forall i | from <= i < |rows| :: !p(rows[i])
    decreases |rows| - from
  {
    if from == |rows| then None else if p(rows[from]) then Some(from) else First(rows, p, from + 1)
  }

  // ----- the fast path -----

  function Indexed(rows: seq<Row>, token: string): Option<nat> {
    First(rows, (r: Row) => r.active && r.lookup == Some(Sha(token)), 0)
  }

  function Legacy(rows: seq<Row>, token: string): Option<nat> {
    First(rows, (r: Row) => Holds(r, token) && r.lookup.None?, 0)
  }

  predicate VerifiedRecently(st: State, token: string, hash: Hash) {
    Sha(token) in st.verified && st.verified[Sha(token)].hash == hash && st.verified[Sha(token)].until > st.now
  }

  function Remember(st: State, token: string, hash: Hash): State {
    var kept := if |st.verified| >= VERIFIED_MAX then map[] else st.verified;
    st.(verified := kept[Sha(token) := Verdict(hash, st.now + VERIFIED_TTL)])
  }

  function Backfilled(rows: seq<Row>, i: nat, token: string): seq<Row>
    requires i < |rows|
  {
    rows[i := rows[i].(lookup := Some(Sha(token)))]
  }

  // A row found by digest carries a hash: the two columns are only ever written together.
  predicate HashWithLookup(rows: seq<Row>) {
    forall r | r in rows :: r.lookup.Some? ==> r.hash.Some?
  }

  /** One lookup: the answer and the state it leaves. */
  function Lookup(st: State, token: string): (State, Option<nat>)
    requires HashWithLookup(st.rows)
  {
    match Indexed(st.rows, token)
    case Some(i) =>
      assert st.rows[i] in st.rows;
      var hash := st.rows[i].hash.value;
      if VerifiedRecently(st, token, hash) then (st, Some(i))
      else if Accepts(hash, token) then (Remember(st, token, hash), Some(i))
      else (st, None)
    case None =>
      match Legacy(st.rows, token)
      case Some(i) => (st.(rows := Backfilled(st.rows, i, token)), Some(i))
      case None => (st, None)
  }

  // ----- what the store keeps -----

  // No token opens two principals, active or not.
  ghost predicate Distinct(rows: seq<Row>) {
    forall i, j | 0 <= i < j < |rows| && rows[i].hash.Some? && rows[j].hash.Some? ::
      rows[i].hash.value.token != rows[j].hash.value.token
  }

  ghost predicate RowSound(r: Row) {
    r.lookup.Some? ==> r.hash.Some? && r.lookup.value == Sha(r.hash.value.token)
  }

  ghost predicate IndexSound(rows: seq<Row>) {
    forall r | r in rows :: RowSound(r)
  }

  ghost predicate CacheSound(verified: map<Digest, Verdict>) {
    && |verified| <= VERIFIED_MAX
    && forall d | d in verified :: Accepts(verified[d].hash, d.token)
  }

  ghost predicate Inv(st: State) {
    Distinct(st.rows) && IndexSound(st.rows) && CacheSound(st.verified)
  }

  lemma RememberSound(st: State, token: string, hash: Hash)
    requires CacheSound(st.verified) && Accepts(hash, token)
    ensures CacheSound(Remember(st, token, hash).verified)
  {
  }

  /** With a sound index, the fast path answers what the plain check answers, and leaves everything sound. */
  lemma LookupIsScan(st: State, token: string)
    requires Inv(st)
    ensures Lookup(st, token).1 == Scan(st.rows, token)
    ensures Inv(Lookup(st, token).0)
    ensures Scan(Lookup(st, token).0.rows, token) == Scan(st.rows, token)
  {
    match Indexed(st.rows, token)
    case Some(i) =>
      assert st.rows[i] in st.rows;
      if !VerifiedRecently(st, token, st.rows[i].hash.value) {
        RememberSound(st, token, st.rows[i].hash.value);
      }
    case None =>
      forall i | 0 <= i < |st.rows| ensures Holds(st.rows[i], token) ==> st.rows[i].lookup.None? {
        assert st.rows[i] in st.rows;
      }
      if Legacy(st.rows, token).Some? {
        var i := Legacy(st.rows, token).value;
        BackfillSafeIff(st.rows, i, token);
        var after := Backfilled(st.rows, i, token);
        assert forall j | 0 <= j < |after| :: Holds(after[j], token) == Holds(st.rows[j], token);
      }
  }

  /** The exact condition: the fast path agrees with the plain check on every token precisely when the
      digest stored with each active row is the digest of the token its hash accepts. */
  lemma AgreesIffIndexed(st: State)
    requires HashWithLookup(st.rows) && Distinct(st.rows) && CacheSound(st.verified)
    ensures (forall token :: Lookup(st, token).1 == Scan(st.rows, token))
            <==> forall r | r in st.rows && r.active :: RowSound(r)
  {
    forall i | 0 <= i < |st.rows| && st.rows[i].active && !RowSound(st.rows[i])
      ensures st.rows[i].hash.Some?
      ensures Lookup(st, st.rows[i].hash.value.token).1.None? && Scan(st.rows, st.rows[i].hash.value.token).Some?
    {
      assert st.rows[i] in st.rows;
      var token := st.rows[i].hash.value.token;
      assert Holds(st.rows[i], token);
      forall j | 0 <= j < |st.rows| && j != i ensures !Holds(st.rows[j], token) {
      }
    }
    if forall r | r in st.rows && r.active :: RowSound(r) {
      forall token ensures Lookup(st, token).1 == Scan(st.rows, token) {
        forall i | 0 <= i < |st.rows| && Holds(st.rows[i], token)
          ensures st.rows[i].lookup.None? || st.rows[i].lookup == Some(Sha(token))
        {
          assert st.rows[i] in st.rows;
        }
        forall i | 0 <= i < |st.rows| && st.rows[i].active && st.rows[i].lookup == Some(Sha(token))
          ensures Holds(st.rows[i], token)
        {
          assert st.rows[i] in st.rows;
        }
      }
    } else {
      var r :| r in st.rows && r.active && !RowSound(r);
      var i :| 0 <= i < |st.rows| && st.rows[i] == r;
      assert Lookup(st, st.rows[i].hash.value.token).1 != Scan(st.rows, st.rows[i].hash.value.token);
    }
  }

  /** A backfill write keeps the index sound exactly when the row it lands on still accepts the token. */
  lemma BackfillSafeIff(rows: seq<Row>, i: nat, token: string)
    requires IndexSound(rows) && i < |rows|
    ensures IndexSound(Backfilled(rows, i, token)) <==> rows[i].hash.Some? && Accepts(rows[i].hash.value, token)
  {
    var after := Backfilled(rows, i, token);
    assert after[i] in after;
    forall r | r in after ensures r in rows || r == after[i] {
    }
  }

  /** The backfill is a separate statement.  If the token is rotated between the scan that matched and the
      backfill, the new token is refused from then on although the plain check accepts it. */
  lemma RotatedDuringBackfill(st: State, i: nat, oldToken: string, newToken: string, salt: nat)
    requires Inv(st) && i < |st.rows| && oldToken != newToken
    requires Holds(st.rows[i], oldToken) && st.rows[i].lookup.None?
    requires forall j | 0 <= j < |st.rows| && j != i && st.rows[j].hash.Some? :: st.rows[j].hash.value.token != newToken
    ensures Legacy(st.rows, oldToken) == Some(i)
    ensures var rotated := st.rows[i := st.rows[i].(hash := Some(Bcrypt(newToken, salt)), lookup := Some(Sha(newToken)))];
            var late := st.(rows := Backfilled(rotated, i, oldToken));
            && Scan(late.rows, newToken) == Some(i)
            && HashWithLookup(late.rows) && Lookup(late, newToken).1.None?
  {
    var rotated := st.rows[i := st.rows[i].(hash := Some(Bcrypt(newToken, salt)), lookup := Some(Sha(newToken)))];
    var late := st.(rows := Backfilled(rotated, i, oldToken));
    forall r | r in late.rows ensures r in st.rows || r == late.rows[i] {
    }
    forall j | 0 <= j < |st.rows| ensures RowSound(st.rows[j]) {
      assert st.rows[j] in st.rows;
    }
    assert Holds(late.rows[i], newToken);
  }

  // The legacy branch reads the index at one instant and the legacy rows at a later one.
  function SplitLegacy(before: seq<Row>, after: seq<Row>, token: string): Option<nat> {
    if Indexed(before, token).Some? then Indexed(before, token) else Legacy(after, token)
  }

  /** If only backfills happen between the two reads, the lookup still finds the principal unless that very
      row was backfilled in between: two concurrent first logins with one legacy token refuse one of them. */
  lemma SplitReadsAgreeIff(before: seq<Row>, after: seq<Row>, token: string, i: nat)
    requires Distinct(before) && IndexSound(before) && IndexSound(after) && |before| == |after|
    requires forall j | 0 <= j < |before| :: before[j].(lookup := None) == after[j].(lookup := None)
    requires forall j | 0 <= j < |before| :: before[j].lookup.Some? ==> after[j].lookup == before[j].lookup
    requires Scan(before, token) == Some(i)
    ensures Scan(after, token) == Some(i)
    ensures SplitLegacy(before, after, token) == Some(i) <==> !(before[i].lookup.None? && after[i].lookup.Some?)
  {
    forall j | 0 <= j < |before| ensures RowSound(before[j]) && RowSound(after[j]) && Holds(before[j], token) == Holds(after[j], token) {
      assert before[j] in before && after[j] in after;
      assert before[j].(lookup := None) == after[j].(lookup := None);
    }
    assert forall j | 0 <= j < |before| && j != i :: !Holds(before[j], token);
  }

  // ----- runs -----

  datatype Op =
    | Create(name: string, token: Option<string>, salt: nat, granted: nat)
    | Update(name: string, token: Option<string>, salt: nat, grants: Option<nat>, active: Option<bool>)
    | Deactivate(name: string)
    | Ask(secret: string)
    | Wait(seconds: nat)

  function HashOf(token: Option<string>, salt: nat): Option<Hash> {
    if token.Some? then Some(Bcrypt(token.value, salt)) else None
  }

  function DigestOf(token: Option<string>): Option<Digest> {
    if token.Some? then Some(Sha(token.value)) else None
  }

  function Named(rows: seq<Row>, name: string): Option<nat> {
    First(rows, (r: Row) => r.name == name, 0)
  }

  function Created(name: string, token: Option<string>, salt: nat, grants: nat): Row {
    Row(name, true, HashOf(token, salt), DigestOf(token), grants)
  }

  function Updated(r: Row, token: Option<string>, salt: nat, grants: Option<nat>, active: Option<bool>): Row {
    Row(r.name,
        if active.Some? then active.value else r.active,
        if token.Some? then HashOf(token, salt) else r.hash,
        if token.Some? then DigestOf(token) else r.lookup,
        if grants.Some? then grants.value else r.grants)
  }

  // Tokens are secrets: a token given to one principal is no other principal's.
  ghost predicate FreshToken(st: State, op: Op) {
    match op
    case Create(name, Some(token), _, _) =>
      forall r | r in st.rows && r.hash.Some? :: r.hash.value.token != token
    case Update(name, Some(token), _, _, _) =>
      forall r | r in st.rows && r.hash.Some? && r.name != name :: r.hash.value.token != token
    case _ => true
  }

  ghost predicate NamesUnique(rows: seq<Row>) {
    forall i, j | 0 <= i < j < |rows| :: rows[i].name != rows[j].name
  }

  function Step(st: State, op: Op): State
    requires HashWithLookup(st.rows)
  {
    match op
    case Create(name, token, salt, grants) =>
      if Named(st.rows, name).Some? then st else st.(rows := st.rows + [Created(name, token, salt, grants)])
    case Update(name, token, salt, grants, active) =>
      (match Named(st.rows, name)
       case None => st
       case Some(i) => st.(rows := st.rows[i := Updated(st.rows[i], token, salt, grants, active)]))
    case Deactivate(name) =>
      (match Named(st.rows, name)
       case None => st
       case Some(i) => st.(rows := st.rows[i := st.rows[i].(active := false)]))
    case Ask(token) => Lookup(st, token).0
    case Wait(seconds) => st.(now := st.now + seconds)
  }

  // Replacing one row by a sound one whose token is nobody else's.
  lemma ReplaceKeeps(rows: seq<Row>, i: nat, r: Row)
    requires i < |rows| && Distinct(rows) && IndexSound(rows) && NamesUnique(rows)
    requires RowSound(r) && r.name == rows[i].name
    requires r.hash.Some? ==> forall j | 0 <= j < |rows| && j != i && rows[j].hash.Some? ::
               rows[j].hash.value.token != r.hash.value.token
    ensures var after := rows[i := r]; Distinct(after) && IndexSound(after) && NamesUnique(after)
  {
    var after := rows[i := r];
    forall q | q in after ensures RowSound(q) {
      assert q == r || q in rows;
    }
  }

  lemma AppendKeeps(rows: seq<Row>, r: Row)
    requires Distinct(rows) && IndexSound(rows) && NamesUnique(rows)
    requires RowSound(r) && forall j | 0 <= j < |rows| :: rows[j].name != r.name
    requires r.hash.Some? ==> forall j | 0 <= j < |rows| && rows[j].hash.Some? ::
               rows[j].hash.value.token != r.hash.value.token
    ensures var after := rows + [r]; Distinct(after) && IndexSound(after) && NamesUnique(after)
  {
    forall q | q in rows + [r] ensures RowSound(q) {
      assert q == r || q in rows;
    }
  }

  lemma StepKeeps(st: State, op: Op)
    requires Inv(st) && NamesUnique(st.rows) && FreshToken(st, op)
    ensures Inv(Step(st, op)) && NamesUnique(Step(st, op).rows)
  {
    forall j | 0 <= j < |st.rows| ensures RowSound(st.rows[j]) && st.rows[j] in st.rows {
    }
    match op
    case Ask(token) =>
      LookupIsScan(st, token);
      if Indexed(st.rows, token).None? && Legacy(st.rows, token).Some? {
        var i := Legacy(st.rows, token).value;
        ReplaceKeeps(st.rows, i, st.rows[i].(lookup := Some(Sha(token))));
      }
    case Create(name, token, salt, grants) =>
      if Named(st.rows, name).None? {
        AppendKeeps(st.rows, Created(name, token, salt, grants));
      }
    case Update(name, token, salt, grants, active) =>
      if Named(st.rows, name).Some? {
        var i := Named(st.rows, name).value;
        assert forall j | 0 <= j < |st.rows| && j != i :: st.rows[j].name != name;
        ReplaceKeeps(st.rows, i, Updated(st.rows[i], token, salt, grants, active));
      }
    case Deactivate(name) =>
      if Named(st.rows, name).Some? {
        var i := Named(st.rows, name).value;
        ReplaceKeeps(st.rows, i, st.rows[i].(active := false));
      }
    case Wait(seconds) =>
  }

  ghost predicate Allowed(st: State, ops: seq<Op>)
    requires Inv(st)
    decreases ops
  {
    ops == [] || (FreshToken(st, ops[0]) && (Inv(Step(st, ops[0])) ==> Allowed(Step(st, ops[0]), ops[1..])))
  }

  ghost function Run(st: State, ops: seq<Op>): State
    requires Inv(st) && NamesUnique(st.rows) && Allowed(st, ops)
    decreases ops
  {
    if ops == [] then st
    else
      StepKeeps(st, ops[0]);
      Run(Step(st, ops[0]), ops[1..])
  }

  /** On every run, every token is answered as the plain check would answer it, and the cache stays bounded. */
  lemma {:induction false} CacheRefinesScan(st: State, ops: seq<Op>, token: string)
    requires Inv(st) && NamesUnique(st.rows) && Allowed(st, ops)
    ensures var end := Run(st, ops);
            && Inv(end) && Lookup(end, token).1 == Scan(end.rows, token)
            && |end.verified| <= 1024
    decreases ops
  {
    if ops == [] {
      LookupIsScan(st, token);
    } else {
      StepKeeps(st, ops[0]);
      CacheRefinesScan(Step(st, ops[0]), ops[1..], token);
    }
  }

  // ----- what the writes mean for who gets in -----

  lemma FirstOnly(rows: seq<Row>, p: Row -> bool, i: nat)
    requires i < |rows| && p(rows[i]) && forall j | 0 <= j < |rows| && j != i :: !p(rows[j])
    ensures First(rows, p, 0) == Some(i)
  {
  }

  // The row carries this token: the stored hash accepts it and the index leads to it.
  predicate Carries(r: Row, token: string) {
    r.hash.Some? && r.hash.value.token == token && r.lookup == Some(Sha(token))
  }

  /** The one row that carries a token is the one it opens, when it is active; and nobody's when it is not. */
  lemma CarrierOpens(rows: seq<Row>, i: nat, token: string)
    requires i < |rows| && Distinct(rows) && Carries(rows[i], token)
    ensures Scan(rows, token) == if rows[i].active then Some(i) else None
  {
    forall j | 0 <= j < |rows| && j != i ensures !Holds(rows[j], token) {
    }
    if rows[i].active { FirstOnly(rows, (r: Row) => Holds(r, token), i); }
  }

  /** A token no row's hash accepts opens nothing. */
  lemma NobodyOpens(rows: seq<Row>, token: string)
    requires forall r | r in rows && r.hash.Some? :: r.hash.value.token != token
    ensures Scan(rows, token).None?
  {
    forall i | 0 <= i < |rows| ensures !Holds(rows[i], token) { assert rows[i] in rows; }
  }

  // One row as an edit leaves it: what is given has the given value, the rest is as it was.
  predicate Edited(before: Row, after: Row, token: Option<string>, grants: Option<nat>, active: Option<bool>) {
    && after.name == before.name
    && after.active == (if active.Some? then active.value else before.active)
    && after.grants == (if grants.Some? then grants.value else before.grants)
    && (token.Some? ==> Carries(after, token.value))
    && (token.None? ==> after.hash == before.hash && after.lookup == before.lookup)
  }

  /**
   Rotation: from then on the new token opens that principal, if it is active, and the token it had
   before opens nobody.
   */
  lemma RotationTakes(before: seq<Row>, after: seq<Row>, i: nat, token: string, grants: Option<nat>, active: Option<bool>)
    requires i < |before| == |after| && Distinct(before) && Distinct(after)
    requires Edited(before[i], after[i], Some(token), grants, active)
    requires forall j | 0 <= j < |before| && j != i :: after[j] == before[j]
    ensures Scan(after, token) == if after[i].active then Some(i) else None
    ensures before[i].hash.Some? && before[i].hash.value.token != token ==> Scan(after, before[i].hash.value.token).None?
  {
    CarrierOpens(after, i, token);
    if before[i].hash.Some? && before[i].hash.value.token != token {
      forall r | r in after && r.hash.Some? ensures r.hash.value.token != before[i].hash.value.token {
        var j :| 0 <= j < |after| && after[j] == r;
      }
      NobodyOpens(after, before[i].hash.value.token);
    }
  }

  /** A verdict is reused for 300 seconds after the check that gave it, for that stored hash only, and not after. */
  lemma VerdictLasts(st: State, token: string, hash: Hash, later: int, stored: Hash)
    ensures VerifiedRecently(Remember(st, token, hash).(now := later), token, stored) <==> stored == hash && later < st.now + 300
    ensures |st.verified| < 1024 ==> forall d | d in st.verified && d != Sha(token) ::
              d in Remember(st, token, hash).verified && Remember(st, token, hash).verified[d] == st.verified[d]
  {
  }

  // ----- the service -----

  class Service {
    var rows: seq<Row>
    var verified: map<Digest, Verdict>
    var now: int

    constructor ()
      ensures Current() == State([], map[], 0) && Valid()
    {
      rows, verified, now := [], map[], 0;
    }

    function Current(): State
      reads this
    {
      State(rows, verified, now)
    }

    ghost predicate Valid()
      reads this
    {
      Inv(Current()) && NamesUnique(rows)
    }

    /** `get_principal_by_token`: the plain check's answer, by way of the index, the cache and the legacy scan. */
    method GetByToken(token: string) returns (found: Option<nat>)
      requires Valid()
      modifies this`rows, this`verified
      ensures Valid()
      ensures found == Scan(old(rows), token)
      ensures Current() == Lookup(old(Current()), token).0
    {
      LookupIsScan(Current(), token);
      assert HashWithLookup(rows);
      hide Inv, Scan, Distinct, IndexSound, CacheSound;
      var hit := Indexed(rows, token);
      if hit.Some? {
        assert rows[hit.value] in rows;
        var hash := rows[hit.value].hash.value;
        if VerifiedRecently(Current(), token, hash) {
          return hit;
        }
        if Accepts(hash, token) {
          if |verified| >= VERIFIED_MAX {
            verified := map[];
          }
          verified := verified[Sha(token) := Verdict(hash, now + VERIFIED_TTL)];
          return hit;
        }
        return None;
      }
      var i := 0;
      while i < |rows|
        invariant i <= |rows| && Current() == old(Current())
        invariant forall j | 0 <= j < i :: !(Holds(rows[j], token) && rows[j].lookup.None?)
      {
        if rows[i].active && rows[i].hash.Some? && rows[i].lookup.None? && Accepts(rows[i].hash.value, token) {
          rows := rows[i := rows[i].(lookup := Some(Sha(token)))];
          return Some(i);
        }
        i := i + 1;
      }
      return None;
    }

    /** `create_principal`; a taken name is refused by the unique constraint. */
    method CreatePrincipal(name: string, token: Option<string>, salt: nat, grants: nat) returns (created: bool)
      requires Valid() && FreshToken(Current(), Create(name, token, salt, grants))
      modifies this`rows
      ensures Valid()
      ensures created <==> forall r | r in old(rows) :: r.name != name
      ensures Current() == Step(old(Current()), Create(name, token, salt, grants))
      // the new principal is last, active, with what it was given, and its token opens it
      ensures !created ==> rows == old(rows)
      ensures created ==> |rows| == |old(rows)| + 1 && rows[..|old(rows)|] == old(rows)
      ensures created ==>
                var r := rows[|old(rows)|];
                && r.name == name && r.active && r.grants == grants
                && (token.None? ==> r.hash.None? && r.lookup.None?)
                && (token.Some? ==> Carries(r, token.value) && Scan(rows, token.value) == Some(|old(rows)|))
    {
      StepKeeps(Current(), Create(name, token, salt, grants));
      if Named(rows, name).Some? {
        assert rows[Named(rows, name).value] in rows;
        return false;
      }
      rows := rows + [Row(name, true, HashOf(token, salt), DigestOf(token), grants)];
      if token.Some? {
        CarrierOpens(rows, |rows| - 1, token.value);
      }
      return true;
    }

    /** `update_principal`: rotation writes hash and digest together, so no cached verdict outlives it. */
    method UpdatePrincipal(name: string, token: Option<string>, salt: nat, grants: Option<nat>, active: Option<bool>)
      returns (found: bool)
      requires Valid() && FreshToken(Current(), Update(name, token, salt, grants, active))
      modifies this`rows
      ensures Valid()
      ensures found <==> exists r | r in old(rows) :: r.name == name
      ensures Current() == Step(old(Current()), Update(name, token, salt, grants, active))
      // only that row changes, only in what is given; a new token opens it and the old one nobody
      ensures |rows| == |old(rows)| && verified == old(verified) && now == old(now)
      ensures forall j | 0 <= j < |rows| ::
                if old(rows)[j].name == name then Edited(old(rows)[j], rows[j], token, grants, active) else rows[j] == old(rows)[j]
      ensures forall j | 0 <= j < |rows| && rows[j].name == name && token.Some? ::
                && Scan(rows, token.value) == (if rows[j].active then Some(j) else None)
                && (old(rows)[j].hash.Some? && old(rows)[j].hash.value.token != token.value ==>
                      Scan(rows, old(rows)[j].hash.value.token).None?)
    {
      ghost var before := rows;
      StepKeeps(Current(), Update(name, token, salt, grants, active));
      var hit := Named(rows, name);
      if hit.None? {
        return false;
      }
      assert rows[hit.value] in rows;
      var r := rows[hit.value];
      if token.Some? {
        r := r.(hash := HashOf(token, salt), lookup := DigestOf(token));
      }
      if grants.Some? {
        r := r.(grants := grants.value);
      }
      if active.Some? {
        r := r.(active := active.value);
      }
      rows := rows[hit.value := r];
      if token.Some? {
        RotationTakes(before, rows, hit.value, token.value, grants, active);
      }
      return true;
    }

    /** `deactivate_principal`: true only when an active row was switched off. */
    method DeactivatePrincipal(name: string) returns (done: bool)
      requires Valid()
      modifies this`rows
      ensures Valid()
      ensures done <==> exists r | r in old(rows) :: r.name == name && r.active
      ensures Current() == Step(old(Current()), Deactivate(name))
      ensures forall r | r in rows && r.name == name :: !r.active
      ensures |rows| == |old(rows)|
      ensures forall j | 0 <= j < |rows| ::
                rows[j] == if old(rows)[j].name == name then old(rows)[j].(active := false) else old(rows)[j]
    {
      StepKeeps(Current(), Deactivate(name));
      assert forall i | 0 <= i < |rows| :: rows[i] in rows;
      var hit := Named(rows, name);
      if hit.None? {
        return false;
      }
      done := rows[hit.value].active;
      rows := rows[hit.value := rows[hit.value].(active := false)];
    }
  }
}
