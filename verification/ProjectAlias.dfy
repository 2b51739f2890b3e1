/**
 The alias map and the read-time mailbox expansion of server/services/project_alias.py.
 Names and addresses are taken as already trimmed and lower-cased.
 */
module ProjectAlias {
  import opened Common

  type Aliases = map<string, string>

  // Every alias leads straight to a name that is not itself an alias.
  ghost predicate Flat(m: Aliases) {
    forall o | o in m :: m[o] !in m
  }

  function OneHop(m: Aliases, name: string): string {
    if name in m then m[name] else name
  }

  // The alias table after a relabel: old aliases of a source are re-pointed, then the sources added.
  function Relabel(m: Aliases, sources: seq<string>, target: string): Aliases {
    (map o | o in m :: if m[o] in sources then target else m[o])
    + (map s | s in sources :: target)
  }

  // reverse drops the alias whatever it points to.
  function Reverse(m: Aliases, source: string): Aliases {
    m - {source}
  }

  datatype Op = RelabelOp(sources: seq<string>, target: string) | ReverseOp(source: string)

  // The two checks relabel makes before it writes.
  predicate Accepted(m: Aliases, op: Op) {
    op.RelabelOp? ==> op.target !in m && op.target !in op.sources
  }

  function Apply(m: Aliases, op: Op): Aliases {
    if !Accepted(m, op) then m
    else match op
      case RelabelOp(sources, target) => Relabel(m, sources, target)
      case ReverseOp(source) => Reverse(m, source)
  }

  function Run(m: Aliases, ops: seq<Op>): Aliases
    decreases ops
  {
    if ops == [] then m else Run(Apply(m, ops[0]), ops[1..])
  }

  /** Every run of relabel and reverse, refused or not, keeps the alias map flat. */
  lemma {:induction false} RunKeepsFlat(m: Aliases, ops: seq<Op>)
    requires Flat(m)
    ensures Flat(Run(m, ops))
    decreases ops
  {
    if ops != [] {
      RunKeepsFlat(Apply(m, ops[0]), ops[1..]);
    }
  }

  /** `canonical`: follows the map until it leaves it or meets a name again. On a flat map
      that is one hop at most, the cycle branch is never taken and the answer is a fixed point. */
  method Canonical(m: Aliases, name: string) returns (c: string, hops: nat, cycle: bool)
    ensures cycle || c !in m
    ensures Flat(m) ==> !cycle && hops <= 1 && c == OneHop(m, name) && OneHop(m, c) == c
  {
    c, hops, cycle := name, 0, false;
    var seen := {c};
    while c in m
      invariant c in seen && seen - {c} <= m.Keys
      invariant Flat(m) ==> || (hops == 0 && c == name && seen == {name})
                            || (hops == 1 && name in m && c == m[name])
      decreases m.Keys - (seen - {c})
    {
      ghost var before := m.Keys - (seen - {c});
      ghost var was := c;
      c := m[c];
      hops := hops + 1;
      if c in seen {
        cycle := true;
        return;
      }
      seen := seen + {c};
      assert seen - {c} == (seen - {c} - {was}) + {was};
      assert was in before && was !in m.Keys - (seen - {c});
    }
  }

  /** The exact effect of a relabel on every name, whether or not a source was already an alias. */
  lemma CanonicalAfterRelabel(m: Aliases, sources: seq<string>, target: string, name: string)
    requires Flat(m) && target !in m && target !in sources
    ensures OneHop(Relabel(m, sources, target), name)
            == if name in sources || OneHop(m, name) in sources then target else OneHop(m, name)
  {
  }

  // ----- families and mailboxes -----

  // Every name that resolves to the same project as `name`.
  function Family(m: Aliases, name: string): set<string> {
    if name == "" then {}
    else
      var c := OneHop(m, name);
      {c} + (set o | o in m && o != c && OneHop(m, o) == c)
  }

  // An address is a name followed by an optional @host qualifier.
  function BaseOf(addr: string): string {
    Before(addr, '@')
  }

  function QualOf(addr: string): string {
    addr[|BaseOf(addr)|..]
  }

  // Where mail sent to `addr` is stored.
  function CanonicalAddress(m: Aliases, addr: string): string {
    if BaseOf(addr) in m then OneHop(m, BaseOf(addr)) + QualOf(addr) else addr
  }

  // The addresses the alias expansion adds for one listened address.
  function Siblings(m: Aliases, addr: string): set<string> {
    var fam := Family(m, BaseOf(addr));
    if |fam| >= 2 then set n | n in fam :: n + QualOf(addr) else {}
  }

  function Heard(m: Aliases, listen: seq<string>): set<string>
  {
    if listen == [] then {} else {listen[0]} + Siblings(m, listen[0]) + Heard(m, listen[1..])
  }

  function Elements(a: seq<string>): set<string> {
    set x | x in a
  }

  // The additions: each once, none of them already listened to.
  ghost predicate OnlyNew(extra: seq<string>, listen: seq<string>) {
    && (forall i, j | 0 <= i < j < |extra| :: extra[i] != extra[j])
    && (forall a | a in extra :: a !in listen)
  }

  // The inner loop: one address's siblings, added if not already there.
  method AddSiblings(m: Aliases, addr: string, listen: seq<string>, have0: set<string>, extra0: seq<string>)
    returns (have: set<string>, extra: seq<string>)
    requires OnlyNew(extra0, listen) && have0 == Elements(listen) + Elements(extra0)
    ensures OnlyNew(extra, listen) && have == Elements(listen) + Elements(extra)
    ensures have == have0 + Siblings(m, addr)
  {
    have, extra := have0, extra0;
    var todo := Siblings(m, addr);
    while todo != {}
      invariant todo <= Siblings(m, addr)
      invariant OnlyNew(extra, listen) && have == Elements(listen) + Elements(extra)
      invariant have == have0 + (Siblings(m, addr) - todo)
    {
      var cand :| cand in todo;
      if cand !in have {
        assert Elements(extra + [cand]) == Elements(extra) + {cand};
        have := have + {cand};
        extra := extra + [cand];
      }
      todo := todo - {cand};
    }
  }

  /** The project half of `expand_listen_set`: only additions, no duplicates, nothing missing. */
  method ExpandListenSet(m: Aliases, listen: seq<string>) returns (extra: seq<string>)
    ensures OnlyNew(extra, listen)
    ensures Elements(listen) + Elements(extra) == Heard(m, listen)
  {
    var have := Elements(listen);
    extra := [];
    for i := 0 to |listen|
      invariant OnlyNew(extra, listen) && have == Elements(listen) + Elements(extra)
      invariant have == Elements(listen) + Heard(m, listen[..i])
    {
      have, extra := AddSiblings(m, listen[i], listen, have, extra);
      HeardSnoc(m, listen, i);
    }
    assert listen[..|listen|] == listen;
    HeardCovers(m, listen);
  }

  lemma HeardSnoc(m: Aliases, listen: seq<string>, i: nat)
    requires i < |listen|
    ensures Heard(m, listen[..i + 1]) == Heard(m, listen[..i]) + {listen[i]} + Siblings(m, listen[i])
  {
    hide *;
    HeardSingle(m, listen[i]);
    HeardConcat(m, listen[..i], [listen[i]]);
    assert listen[..i + 1] == listen[..i] + [listen[i]];
  }

  lemma HeardSingle(m: Aliases, addr: string)
    ensures Heard(m, [addr]) == {addr} + Siblings(m, addr)
  {
    hide Siblings;
    assert [addr][1..] == [];
    assert Heard(m, []) == {};
  }

  lemma {:induction false} HeardConcat(m: Aliases, xs: seq<string>, ys: seq<string>)
    ensures Heard(m, xs + ys) == Heard(m, xs) + Heard(m, ys)
  {
    hide Siblings;
    if xs == [] {
      assert xs + ys == ys && Heard(m, xs) == {};
    } else {
      HeardConcat(m, xs[1..], ys);
      assert (xs + ys)[1..] == xs[1..] + ys && (xs + ys)[0] == xs[0];
    }
  }

  lemma {:induction false} HeardCovers(m: Aliases, listen: seq<string>)
    ensures forall a | a in listen :: a in Heard(m, listen) && Siblings(m, a) <= Heard(m, listen)
  {
    if listen != [] {
      HeardCovers(m, listen[1..]);
    }
  }

  /** Mail is stored under the canonical name, with its qualifier, whatever family name it was sent to. */
  lemma StoredUnderCanonicalName(m: Aliases, name: string, qual: string)
    requires IsName(name) && IsQual(qual)
    ensures CanonicalAddress(m, name + qual) == (if name in m then m[name] else name) + qual
  {
    SplitOf(name, qual);
  }

  /** Two names are one mailbox: mail for one, newly sent or already stored, is heard on the other. */
  ghost predicate OneMailbox(m: Aliases, x: string, y: string, qual: string) {
    && x + qual in Heard(m, [y + qual])
    && CanonicalAddress(m, x + qual) in Heard(m, [y + qual])
  }

  // A qualifier is empty or starts at the @.
  predicate IsQual(qual: string) {
    qual == "" || qual[0] == '@'
  }

  predicate IsName(n: string) {
    n != "" && '@' !in n
  }

  lemma SplitOf(n: string, qual: string)
    requires IsName(n) && IsQual(qual)
    ensures BaseOf(n + qual) == n && QualOf(n + qual) == qual
  {
    BeforeOf(n, '@', qual);
  }

  lemma FamilyHas(m: Aliases, x: string, y: string)
    requires Flat(m) && x != "" && y != "" && x != y
    requires OneHop(m, x) == OneHop(m, y)
    ensures x in Family(m, y) && OneHop(m, x) in Family(m, y) && |Family(m, y)| >= 2
  {
    var c := OneHop(m, y);
    assert x in Family(m, y) && y in Family(m, y);
    assert {x, y} <= Family(m, y);
    assert Family(m, y) == {x, y} + (Family(m, y) - {x, y});
  }

  /** Names with the same canonical name are one mailbox; names of different projects are not. */
  lemma MailboxIsFamily(m: Aliases, x: string, y: string, qual: string)
    requires Flat(m) && IsName(x) && IsName(y) && IsQual(qual)
    requires forall o | o in m :: IsName(o) && IsName(m[o])
    ensures OneMailbox(m, x, y, qual) <==> OneHop(m, x) == OneHop(m, y)
  {
    SplitOf(x, qual);
    SplitOf(y, qual);
    var heard := Heard(m, [y + qual]);
    HeardSingle(m, y + qual);
    if OneHop(m, x) == OneHop(m, y) {
      if x != y {
        FamilyHas(m, x, y);
      } else if x in m {
        FamilyHas(m, m[x], x);
      }
    } else {
      forall n | n in Family(m, y) ensures n + qual == x + qual ==> n == x {
        SplitOf(n, qual);
      }
    }
  }

  // A relabel moves the name: it is a source, or resolves to one.
  predicate Moves(m: Aliases, sources: seq<string>, name: string) {
    name in sources || OneHop(m, name) in sources
  }

  /**
   Exactly which names share a mailbox after a relabel, whether or not a source was already an
   alias: two names that both end at the target, or two untouched names that shared one before.
   */
  lemma RelabelMailboxIff(m: Aliases, sources: seq<string>, target: string, x: string, y: string, qual: string)
    requires Flat(m) && IsName(target) && target !in m && target !in sources
    requires forall o | o in m :: IsName(o) && IsName(m[o])
    requires forall s | s in sources :: IsName(s)
    requires IsName(x) && IsName(y) && IsQual(qual)
    ensures OneMailbox(Relabel(m, sources, target), x, y, qual) <==>
              var toTarget := (n: string) => Moves(m, sources, n) || OneHop(m, n) == target;
              (toTarget(x) && toTarget(y)) || (!toTarget(x) && !toTarget(y) && OneMailbox(m, x, y, qual))
  {
    var after := Relabel(m, sources, target);
    RunKeepsFlat(m, [RelabelOp(sources, target)]);
    assert Run(m, [RelabelOp(sources, target)]) == Run(after, []) == after;
    CanonicalAfterRelabel(m, sources, target, x);
    CanonicalAfterRelabel(m, sources, target, y);
    MailboxIsFamily(after, x, y, qual);
    MailboxIsFamily(m, x, y, qual);
  }

  /** After a relabel whose sources were not already aliases, every name of the target's old family
      and of every source's old family is one mailbox with every other. */
  lemma RelabelJoinsMailboxes(m: Aliases, sources: seq<string>, target: string, x: string, y: string, qual: string)
    requires Flat(m) && IsName(target) && target !in m && target !in sources
    requires forall o | o in m :: IsName(o) && IsName(m[o])
    requires forall s | s in sources :: IsName(s) && s !in m
    requires IsName(x) && IsName(y) && IsQual(qual)
    requires OneHop(m, x) == target || OneHop(m, x) in sources
    requires OneHop(m, y) == target || OneHop(m, y) in sources
    ensures OneMailbox(Relabel(m, sources, target), x, y, qual)
  {
    hide OneMailbox, Relabel;
    RelabelMailboxIff(m, sources, target, x, y, qual);
  }

  /** A source that was already an alias leaves the rest of its old family behind. */
  lemma RelabelSplitsMailbox(m: Aliases, source: string, target: string, x: string, qual: string)
    requires Flat(m) && IsName(target) && target !in m && target != source
    requires forall o | o in m :: IsName(o) && IsName(m[o])
    requires source in m && IsName(x) && IsQual(qual)
    requires x != source && OneHop(m, x) == m[source] && m[source] != target
    ensures OneMailbox(m, x, source, qual)
    ensures !OneMailbox(Relabel(m, [source], target), x, source, qual)
  {
    MailboxIsFamily(m, x, source, qual);
    hide OneMailbox, Relabel;
    RelabelMailboxIff(m, [source], target, x, source, qual);
  }
}
