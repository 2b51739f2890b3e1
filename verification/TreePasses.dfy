/**
 The two mail passes of server/services/session_registry.py: unhandled asks climb the address
 tree, deep chatter is swept.  Roots are fixed; the register is what `address_register` serves.
 */
module TreePasses {
  import opened Common
  import opened SeatLadder

  const CLIMB_LANE_DWELL: int := LIVE * 3
  const DEEP_CHATTER_EPOCH: int := 259200 * SECOND
  const ASK_INTENTS: set<string> := {"action", "proceed", "escalate", "authority-directive"}

  datatype Kind = RootKind | LaneKind | IncarnationKind

  datatype Node = Node(kind: Kind, root: string, parent: string)

  datatype Letter = Letter(
    to: string, created: int, archived: bool, open: bool, huddle: bool, intent: string,
    climbedFrom: Option<string>)

  datatype Entry = Entry(reason: Option<Reason>, death: bool, farewell: bool, age: Option<int>)

  type Register = map<string, Entry>

  // ----- the address grammar -----

  predicate Under(bare: string, root: string) {
    bare == root || StartsWith(bare, root + "-")
  }

  // The longest of the known roots that the address stands under, looking at prefixes up to n.
  function LongestRoot(bare: string, roots: set<string>, n: nat): (r: Option<string>)
    requires n <= |bare|
    ensures r.Some? ==> r.value in roots && Under(bare, r.value) && |r.value| <= n
    ensures forall t | t in roots && Under(bare, t) && |t| <= n :: r.Some? && |t| <= |r.value|
  {
    if bare[..n] in roots && Under(bare, bare[..n]) then Some(bare[..n])
    else if n == 0 then
      assert forall t: string | |t| <= 0 :: t == bare[..0];
      None
    else
      assert forall t | t in roots && Under(bare, t) && |t| == n :: t == bare[..n] by {
        forall t | t in roots && Under(bare, t) && |t| == n ensures t == bare[..n] { UnderIsPrefix(bare, t); }
      }
      LongestRoot(bare, roots, n - 1)
  }

  lemma UnderIsPrefix(bare: string, root: string)
    requires Under(bare, root)
    ensures |root| <= |bare| && bare[..|root|] == root
    ensures |root| < |bare| ==> bare[|root|] == '-'
  {
    if bare != root {
      assert bare[..|root| + 1] == root + "-";
      assert bare[..|root|] == bare[..|root| + 1][..|root|];
      assert bare[|root|] == bare[..|root| + 1][|root|];
    }
  }

  lemma PrefixIsUnder(bare: string, n: nat)
    requires n <= |bare| && (n < |bare| ==> bare[n] == '-')
    ensures Under(bare, bare[..n])
  {
    if n == |bare| { assert bare[..n] == bare; } else { assert bare[..n] + "-" == bare[..n + 1]; }
  }

  // Where the last hyphen of a text is, if there is one.
  function LastDash(s: string): (k: Option<nat>)
    ensures k.Some? ==> k.value < |s| && s[k.value] == '-'
  {
    if s == "" then None
    else if s[|s| - 1] == '-' then Some(|s| - 1)
    else LastDash(s[..|s| - 1])
  }

  // What the text below a root says.
  function Classify(root: string, rest: string): Option<Node> {
    if rest in LANE_PROVIDERS then Some(Node(LaneKind, root, root))
    else match LastDash(rest)
         case None => None
         case Some(k) =>
           if rest[..k] in LANE_PROVIDERS && AllDigits(rest[k + 1..])
           then Some(Node(IncarnationKind, root, root + "-" + rest[..k])) else None
  }

  // `_parse_tree_node`
  function Parse(address: string, roots: set<string>): Option<Node> {
    var bare := Before(address, '@');
    match LongestRoot(bare, roots, |bare|)
    case None => None
    case Some(root) =>
      UnderIsPrefix(bare, root);
      if bare == root then Some(Node(RootKind, root, "")) else Classify(root, bare[|root| + 1..])
  }

  lemma LongestIs(bare: string, roots: set<string>, root: string)
    requires root in roots && Under(bare, root)
    requires forall t | t in roots && Under(bare, t) :: |t| <= |root|
    ensures LongestRoot(bare, roots, |bare|) == Some(root)
  {
    UnderIsPrefix(bare, root);
    var r := LongestRoot(bare, roots, |bare|);
    UnderIsPrefix(bare, r.value);
  }

  lemma {:induction false} BeforeNothing(s: string, sep: char)
    requires sep !in s
    ensures Before(s, sep) == s
  {
    BeforeOf(s, sep, "");
    assert s + "" == s;
  }

  // The longest root of an address is the longest root of every address between the two.
  lemma SameRoot(bare: string, roots: set<string>, parent: string)
    requires LongestRoot(bare, roots, |bare|).Some?
    requires |parent| < |bare| && parent == bare[..|parent|] && bare[|parent|] == '-'
    requires Under(parent, LongestRoot(bare, roots, |bare|).value)
    ensures LongestRoot(parent, roots, |parent|) == LongestRoot(bare, roots, |bare|)
  {
    var root := LongestRoot(bare, roots, |bare|).value;
    forall t | t in roots && Under(parent, t) ensures |t| <= |root| {
      UnderShorter(bare, parent, t);
    }
    LongestIs(parent, roots, root);
  }

  lemma UnderShorter(bare: string, parent: string, root: string)
    requires |parent| < |bare| && parent == bare[..|parent|] && bare[|parent|] == '-' && Under(parent, root)
    ensures Under(bare, root)
  {
    UnderIsPrefix(parent, root);
    assert bare[..|root|] == parent[..|root|] == root;
    PrefixIsUnder(bare, |root|);
  }

  lemma LaneParent(bare: string, roots: set<string>, root: string)
    requires LongestRoot(bare, roots, |bare|) == Some(root) && bare != root && '@' !in bare
    ensures Parse(root, roots) == Some(Node(RootKind, root, ""))
  {
    UnderIsPrefix(bare, root);
    assert root == bare[..|root|];
    SameRoot(bare, roots, root);
    assert '@' !in root;
    BeforeNothing(root, '@');
  }

  lemma IncarnationParent(bare: string, roots: set<string>, root: string, k: nat)
    requires LongestRoot(bare, roots, |bare|) == Some(root) && bare != root && '@' !in bare
    requires |root| + 1 + k < |bare| && bare[|root| + 1 + k] == '-' && bare[|root| + 1..|root| + 1 + k] in LANE_PROVIDERS
    ensures Parse(bare[..|root| + 1 + k], roots) == Some(Node(LaneKind, root, root))
  {
    var parent := bare[..|root| + 1 + k];
    ParentIsUnder(bare, root, parent);
    SameRoot(bare, roots, parent);
    assert '@' !in parent;
    BeforeNothing(parent, '@');
    assert parent[|root| + 1..] == bare[|root| + 1..|root| + 1 + k];
    hide LongestRoot, Under, StartsWith, AllDigits, LastDash, Before;
  }

  lemma ParentIsUnder(bare: string, root: string, parent: string)
    requires Under(bare, root) && bare != root && |root| < |parent| <= |bare| && parent == bare[..|parent|]
    ensures Under(parent, root) && parent[..|root|] == root && parent != root
  {
    UnderIsPrefix(bare, root);
    assert parent[..|root|] == root && parent[|root|] == '-';
    PrefixIsUnder(parent, |root|);
  }

  /**
   The tree is two levels deep and consistent: the parent of an incarnation parses as a lane of
   the same root, and the parent of a lane is that root and parses as it.
   */
  lemma ParentsParse(address: string, roots: set<string>)
    requires Parse(address, roots).Some? && Parse(address, roots).value.kind != RootKind
    ensures var node := Parse(address, roots).value;
            Parse(node.parent, roots)
            == Some(if node.kind == IncarnationKind then Node(LaneKind, node.root, node.root) else Node(RootKind, node.root, ""))
  {
    var bare := Before(address, '@');
    var root := Parse(address, roots).value.root;
    BelowRoot(address, roots);
    hide Parse, LongestRoot, Under, Before;
    ClassifiedParent(bare, roots, root);
  }

  lemma ClassifiedParent(bare: string, roots: set<string>, root: string)
    requires '@' !in bare && bare != root && LongestRoot(bare, roots, |bare|) == Some(root)
    requires |root| < |bare| && bare[..|root| + 1] == root + "-"
    requires Classify(root, bare[|root| + 1..]).Some?
    ensures var node := Classify(root, bare[|root| + 1..]).value;
            Parse(node.parent, roots)
            == Some(if node.kind == IncarnationKind then Node(LaneKind, root, root) else Node(RootKind, root, ""))
  {
    hide Parse, LongestRoot, Under, Before;
    var rest := bare[|root| + 1..];
    if Classify(root, rest).value.kind == IncarnationKind {
      var k := LastDash(rest).value;
      assert rest[..k] == bare[|root| + 1..|root| + 1 + k];
      assert bare[..|root| + 1 + k] == bare[..|root| + 1] + rest[..k];
      assert bare[|root| + 1 + k] == rest[k];
      IncarnationParent(bare, roots, root, k);
    } else {
      LaneParent(bare, roots, root);
    }
  }

  // An address below a root is the root, a hyphen, and something the grammar knows.
  lemma BelowRoot(address: string, roots: set<string>)
    requires Parse(address, roots).Some? && Parse(address, roots).value.kind != RootKind
    ensures var bare := Before(address, '@');
            var root := Parse(address, roots).value.root;
            && '@' !in bare && bare != root && LongestRoot(bare, roots, |bare|) == Some(root)
            && |root| < |bare| && bare[..|root| + 1] == root + "-"
            && Parse(address, roots) == Classify(root, bare[|root| + 1..])
  {
    hide *;
    var root := RootOfParse(address, roots);
    ParseRooted(address, roots, root);
    ClassifyKeepsRoot(root, Before(address, '@')[|root| + 1..]);
    SplitAt(Before(address, '@'), root);
  }

  lemma RootOfParse(address: string, roots: set<string>) returns (root: string)
    requires Parse(address, roots).Some?
    ensures RootedAt(address, roots, root) && '@' !in Before(address, '@')
    ensures LongestRoot(Before(address, '@'), roots, |Before(address, '@')|) == Some(root)
    ensures Parse(address, roots).value.kind != RootKind ==> Before(address, '@') != root && |root| < |Before(address, '@')|
  {
    var bare := Before(address, '@');
    root := LongestRoot(bare, roots, |bare|).value;
    forall t | t in roots && Under(bare, t) ensures |t| <= |root| { UnderIsPrefix(bare, t); }
    UnderIsPrefix(bare, root);
    hide LongestRoot, Under;
  }

  lemma ClassifyKeepsRoot(root: string, rest: string)
    requires Classify(root, rest).Some?
    ensures Classify(root, rest).value.root == root
  {
  }

  lemma SplitAt(bare: string, root: string)
    requires |root| < |bare| && bare == root + "-" + bare[|root| + 1..]
    ensures bare[..|root| + 1] == root + "-"
  {
    assert (root + "-" + bare[|root| + 1..])[..|root| + 1] == root + "-";
  }

  // The address stands under this root and under no longer one.
  ghost predicate RootedAt(address: string, roots: set<string>, root: string) {
    && root in roots && Under(Before(address, '@'), root)
    && forall t | t in roots && Under(Before(address, '@'), t) :: |t| <= |root|
  }

  lemma {:induction false} LastDashMeans(s: string, k: nat)
    ensures LastDash(s) == Some(k) <==> k < |s| && s[k] == '-' && forall i | k < i < |s| :: s[i] != '-'
  {
    if s != "" && s[|s| - 1] != '-' {
      LastDashMeans(s[..|s| - 1], k);
    }
  }

  lemma DigitsHaveNoDash(s: string)
    requires AllDigits(s)
    ensures forall i | 0 <= i < |s| :: s[i] != '-'
  {
    assert forall i | 0 <= i < |s| :: IsDigit(s[i]);
  }

  // A provider, a hyphen and a number.
  ghost predicate Numbered(rest: string, provider: string) {
    exists digits :: AllDigits(digits) && rest == provider + "-" + digits
  }

  lemma ProvidersAreNoNumbers(p: string, provider: string)
    requires p in LANE_PROVIDERS
    ensures !Numbered(p, provider)
  {
    assert forall i | 0 <= i < |p| :: p[i] != '-' by {
      assert p == "claude" || p == "grok" || p == "codex" || p == "cursor" || p == "gpt";
    }
    forall digits ensures p != provider + "-" + digits {
      assert (provider + "-" + digits)[|provider|] == '-';
    }
  }

  lemma NumberedDash(rest: string, provider: string)
    requires Numbered(rest, provider)
    ensures LastDash(rest) == Some(|provider|) && rest[..|provider|] == provider && AllDigits(rest[|provider| + 1..])
  {
    var digits :| AllDigits(digits) && rest == provider + "-" + digits;
    DigitsHaveNoDash(digits);
    assert rest[|provider| + 1..] == digits;
    forall i | |provider| < i < |rest| ensures rest[i] != '-' {
      assert rest[i] == digits[i - |provider| - 1];
    }
    LastDashMeans(rest, |provider|);
  }

  lemma ClassifyMeans(root: string, rest: string, provider: string)
    requires provider in LANE_PROVIDERS
    ensures Classify(root, rest) == Some(Node(LaneKind, root, root)) <==> rest in LANE_PROVIDERS
    ensures Numbered(rest, provider) ==> Classify(root, rest) == Some(Node(IncarnationKind, root, root + "-" + provider))
    ensures (Classify(root, rest).Some? && Classify(root, rest).value.kind == IncarnationKind
             && Classify(root, rest).value.parent == root + "-" + provider) ==> Numbered(rest, provider)
  {
    if Numbered(rest, provider) {
      NumberedDash(rest, provider);
      if rest in LANE_PROVIDERS { ProvidersAreNoNumbers(rest, provider); }
    }
    if Classify(root, rest).Some? && Classify(root, rest).value.kind == IncarnationKind
       && Classify(root, rest).value.parent == root + "-" + provider
    {
      var k := LastDash(rest).value;
      assert (root + "-" + rest[..k])[|root| + 1..] == rest[..k];
      assert (root + "-" + provider)[|root| + 1..] == provider;
      assert rest == rest[..k] + "-" + rest[k + 1..];
      assert AllDigits(rest[k + 1..]);
    }
  }

  /**
   Which addresses are what, under their longest root: the root itself, a lane when a hyphen and a
   provider follow it, an incarnation of a lane when a hyphen and digits follow that; any host
   suffix is ignored.
   */
  lemma ParseMeans(address: string, roots: set<string>, root: string, provider: string)
    requires RootedAt(address, roots, root) && provider in LANE_PROVIDERS
    ensures var bare := Before(address, '@');
            && (Parse(address, roots) == Some(Node(RootKind, root, "")) <==> bare == root)
            && (bare == root + "-" + provider ==> Parse(address, roots) == Some(Node(LaneKind, root, root)))
            && (Parse(address, roots) == Some(Node(IncarnationKind, root, root + "-" + provider)) <==>
                  exists digits :: AllDigits(digits) && bare == root + "-" + provider + "-" + digits)
  {
    var bare := Before(address, '@');
    ParseRooted(address, roots, root);
    hide Parse, Classify, RootedAt, LongestRoot, AllDigits;
    if bare != root {
      var rest := bare[|root| + 1..];
      ClassifyMeans(root, rest, provider);
      NumberedBelow(bare, root, rest, provider);
      if bare == root + "-" + provider { assert rest == provider; }
    } else {
      forall digits ensures bare != root + "-" + provider + "-" + digits {
        assert |root + "-" + provider + "-" + digits| > |root|;
      }
      assert |root + "-" + provider| > |root|;
    }
  }

  lemma ParseRooted(address: string, roots: set<string>, root: string)
    requires RootedAt(address, roots, root)
    ensures var bare := Before(address, '@');
            if bare == root then Parse(address, roots) == Some(Node(RootKind, root, ""))
            else |root| < |bare| && bare == root + "-" + bare[|root| + 1..] && Parse(address, roots) == Classify(root, bare[|root| + 1..])
                 && Parse(address, roots) != Some(Node(RootKind, root, ""))
  {
    var bare := Before(address, '@');
    UnderIsPrefix(bare, root);
    LongestIs(bare, roots, root);
    if bare != root {
      assert bare == bare[..|root|] + [bare[|root|]] + bare[|root| + 1..];
    }
  }

  lemma NumberedBelow(bare: string, root: string, rest: string, provider: string)
    requires bare == root + "-" + rest
    ensures Numbered(rest, provider) <==> exists digits :: AllDigits(digits) && bare == root + "-" + provider + "-" + digits
  {
    if Numbered(rest, provider) {
      var digits :| AllDigits(digits) && rest == provider + "-" + digits;
      assert bare == root + "-" + provider + "-" + digits;
    }
    if digits :| AllDigits(digits) && bare == root + "-" + provider + "-" + digits {
      assert (root + "-" + provider + "-" + digits)[|root| + 1..] == provider + "-" + digits;
      assert (root + "-" + rest)[|root| + 1..] == rest;
    }
  }

  /** An address under no known root is no part of the tree. */
  lemma NoRootNoNode(address: string, roots: set<string>)
    requires forall t | t in roots :: !Under(Before(address, '@'), t)
    ensures Parse(address, roots).None?
  {
  }

  // ----- climbing -----

  datatype Bucket =
    | Handled | Unknown | NotTree | AtRoot | Exempt | HolderAlive | NoEvidence | LaneActive | ProjectQuiet

  datatype ClimbReason = DeathCertified | FarewellObserved | LaneDormant

  datatype ClimbOutcome = Climbs(parent: string, reason: ClimbReason) | Stays(bucket: Bucket)

  function ToLower(s: string): string {
    seq(|s|, i requires 0 <= i < |s| => if 'A' <= s[i] <= 'Z' then (s[i] as int + 32) as char else s[i])
  }

  function StripLeft(s: string): string {
    if s != "" && IsSpace(s[0]) then StripLeft(s[1..]) else s
  }

  function StripRight(s: string): string {
    if s != "" && IsSpace(s[|s| - 1]) then StripRight(s[..|s| - 1]) else s
  }

  // The rows a climb pass selects: the query lowers the intent, it does not strip it.
  predicate ClimbSelects(l: Letter) {
    !l.archived && l.open && ToLower(l.intent) in ASK_INTENTS && !l.huddle
  }

  predicate Beating(e: Entry) {
    e.reason == Some(LiveHolder) || e.reason == Some(PresenceFresh)
  }

  predicate ProjectFresh(register: Register, roots: set<string>, root: string) {
    exists a | a in register :: Parse(a, roots).Some? && Parse(a, roots).value.root == root && Beating(register[a])
  }

  predicate InSubtree(a: string, roots: set<string>, lane: string) {
    a == lane || (Parse(a, roots).Some? && Parse(a, roots).value.parent == lane)
  }

  predicate SubtreeActive(register: Register, roots: set<string>, lane: string) {
    exists a | a in register :: InSubtree(a, roots, lane) && register[a].age.Some? && register[a].age.value < CLIMB_LANE_DWELL
  }

  function ClimbOf(to: string, handled: Option<bool>, register: Register, roots: set<string>): ClimbOutcome {
    if handled == Some(true) then Stays(Handled)
    else if handled == None then Stays(Unknown)
    else if Before(to, '@') in EXEMPT then Stays(Exempt)
    else ClimbFrom(Parse(to, roots), Before(to, '@'), register, roots)
  }

  function ClimbFrom(at: Option<Node>, bare: string, register: Register, roots: set<string>): ClimbOutcome {
    match at
    case None => Stays(NotTree)
    case Some(node) =>
      match node.kind
      case RootKind => Stays(AtRoot)
      case IncarnationKind =>
        if bare !in register then Stays(NoEvidence)
        else if Beating(register[bare]) then Stays(HolderAlive)
        else if register[bare].death then Climbs(node.parent, DeathCertified)
        else if register[bare].farewell then Climbs(node.parent, FarewellObserved)
        else Stays(NoEvidence)
      case LaneKind =>
        if !ProjectFresh(register, roots, node.root) then Stays(ProjectQuiet)
        else if SubtreeActive(register, roots, bare) then Stays(LaneActive)
        else Climbs(node.parent, LaneDormant)
  }

  // The register shows a live holder or fresh presence.
  predicate Answers(e: Entry) {
    e.reason.Some? && (e.reason.value == LiveHolder || e.reason.value == PresenceFresh)
  }

  // The holder is dead or gone with nothing answering there, or the lane and every incarnation of
  // it have been silent for half an hour while something answers elsewhere in the project.
  predicate Evidence(node: Node, bare: string, register: Register, roots: set<string>) {
    || (node.kind == IncarnationKind && bare in register && !Answers(register[bare])
        && (register[bare].death || register[bare].farewell))
    || (node.kind == LaneKind
        && (exists a | a in register :: Answers(register[a]) && Parse(a, roots).Some? && Parse(a, roots).value.root == node.root)
        && forall a | a in register && (a == bare || (Parse(a, roots).Some? && Parse(a, roots).value.parent == bare)) ::
             register[a].age.Some? ==> register[a].age.value >= 1800 * SECOND)
  }

  /**
   An ask climbs exactly when it is known to be unhandled and either its incarnation's holder is
   dead or gone and nothing beats there, or its lane has been silent for the whole dwell while
   its project is alive elsewhere; and it climbs to the parent, no further.
   */
  lemma ClimbsOnEvidenceOnly(to: string, handled: Option<bool>, register: Register, roots: set<string>)
    ensures var bare := Before(to, '@');
            var o := ClimbOf(to, handled, register, roots);
            && (o.Climbs? <==>
                  && handled == Some(false) && bare !in EXEMPT && Parse(to, roots).Some?
                  && Evidence(Parse(to, roots).value, bare, register, roots))
            && (o.Climbs? ==> Parse(to, roots).Some? && o.parent == Parse(to, roots).value.parent)
  {
    hide Parse, Before;
    var node := Parse(to, roots);
    if handled.Some? && !handled.value && Before(to, '@') !in EXEMPT {
      assert ClimbOf(to, handled, register, roots) == ClimbFrom(node, Before(to, '@'), register, roots);
      if node.Some? {
        assert ClimbFrom(node, Before(to, '@'), register, roots).Climbs? == Evidence(node.value, Before(to, '@'), register, roots);
      }
    } else {
      assert ClimbOf(to, handled, register, roots).Stays?;
    }
  }

  /** Why an ask stays where it is, or by what evidence it climbs. */
  lemma WhyAnAskStays(to: string, handled: Option<bool>, register: Register, roots: set<string>)
    ensures var bare := Before(to, '@');
            var o := ClimbOf(to, handled, register, roots);
            && (handled == Some(true) ==> o == Stays(Handled))
            && (handled == None ==> o == Stays(Unknown))
            && (handled == Some(false) ==>
                  if bare == "admin" then o == Stays(Exempt)
                  else match Parse(to, roots)
                       case None => o == Stays(NotTree)
                       case Some(node) =>
                         && (node.kind == RootKind ==> o == Stays(AtRoot))
                         && (node.kind == IncarnationKind && bare !in register ==> o == Stays(NoEvidence))
                         && (node.kind == IncarnationKind && bare in register ==>
                               o == if Answers(register[bare]) then Stays(HolderAlive)
                                    else if register[bare].death then Climbs(node.parent, DeathCertified)
                                    else if register[bare].farewell then Climbs(node.parent, FarewellObserved)
                                    else Stays(NoEvidence))
                         && (node.kind == LaneKind && o.Stays? ==>
                               (o == Stays(ProjectQuiet) || o == Stays(LaneActive))
                               && (o == Stays(ProjectQuiet) <==>
                                     forall a | a in register && Answers(register[a]) ::
                                       Parse(a, roots).None? || Parse(a, roots).value.root != node.root))
                         && (node.kind == LaneKind && o.Climbs? ==> o.reason == LaneDormant))
  {
    hide Parse, Before;
    assert forall e :: Answers(e) == Beating(e);
  }

  type Verdicts = map<string, bool>     // the handled question, where it has an answer

  function HandledOf(v: Verdicts, id: string): Option<bool> {
    if id in v then Some(v[id]) else None
  }

  function Outcome(letters: map<string, Letter>, id: string, v: Verdicts, register: Register, roots: set<string>): ClimbOutcome
    requires id in letters
  {
    ClimbOf(letters[id].to, HandledOf(v, id), register, roots)
  }

  predicate ClimbsNow(letters: map<string, Letter>, id: string, v: Verdicts, register: Register, roots: set<string>) {
    id in letters && ClimbSelects(letters[id]) && Outcome(letters, id, v, register, roots).Climbs?
  }

  function AfterClimb(letters: map<string, Letter>, v: Verdicts, register: Register, roots: set<string>): map<string, Letter> {
    map id | id in letters ::
      if ClimbsNow(letters, id, v, register, roots)
      then letters[id].(to := Outcome(letters, id, v, register, roots).parent, climbedFrom := Some(letters[id].to))
      else letters[id]
  }

  // ----- sweeping -----

  datatype SweepBucket = Ask | SweepRoot | SweepNotTree | Recent | SweepExempt

  datatype SweepOutcome = Swept(dead: bool) | Spared(bucket: SweepBucket)

  predicate SweepSelects(l: Letter) {
    !l.archived && l.open && !l.huddle
  }

  // Here the intent is stripped and lowered.
  predicate IsAsk(l: Letter) {
    ToLower(StripRight(StripLeft(l.intent))) in ASK_INTENTS
  }

  function SweepOf(l: Letter, register: Register, roots: set<string>, now: int): SweepOutcome {
    if IsAsk(l) then Spared(Ask)
    else if Before(l.to, '@') in EXEMPT then Spared(SweepExempt)
    else SweepFrom(Parse(l.to, roots), Before(l.to, '@'), register, now - l.created)
  }

  function SweepFrom(at: Option<Node>, bare: string, register: Register, age: int): SweepOutcome {
    match at
    case None => Spared(SweepNotTree)
    case Some(node) =>
      if node.kind == RootKind then Spared(SweepRoot)
      else
        var dead := node.kind == IncarnationKind && bare in register && register[bare].death;
        if !dead && age < DEEP_CHATTER_EPOCH then Spared(Recent) else Swept(dead)
  }

  /** Only chatter below a root is swept, once its incarnation is dead or its epoch has passed. */
  lemma SweepsSpentChatterOnly(l: Letter, register: Register, roots: set<string>, now: int)
    ensures var bare := Before(l.to, '@');
            SweepOf(l, register, roots, now).Swept? <==>
              && !IsAsk(l) && bare !in EXEMPT
              && Parse(l.to, roots).Some? && Parse(l.to, roots).value.kind != RootKind
              && (now - l.created >= 259200 * SECOND
                  || (Parse(l.to, roots).value.kind == IncarnationKind && bare in register && register[bare].death))
  {
    hide Parse, IsAsk, Before;
  }

  /** Why a letter is spared by the sweep, and by what a swept one was spent. */
  lemma WhyALetterIsSpared(l: Letter, register: Register, roots: set<string>, now: int)
    ensures var bare := Before(l.to, '@');
            SweepOf(l, register, roots, now)
            == if IsAsk(l) then Spared(Ask)
               else if bare == "admin" then Spared(SweepExempt)
               else if Parse(l.to, roots).None? then Spared(SweepNotTree)
               else if Parse(l.to, roots).value.kind == RootKind then Spared(SweepRoot)
               else if Parse(l.to, roots).value.kind == IncarnationKind && bare in register && register[bare].death then Swept(true)
               else if now - l.created >= 259200 * SECOND then Swept(false)
               else Spared(Recent)
  {
    hide Parse, IsAsk, Before;
  }

  predicate SweptNow(letters: map<string, Letter>, id: string, register: Register, roots: set<string>, now: int) {
    id in letters && SweepSelects(letters[id]) && SweepOf(letters[id], register, roots, now).Swept?
  }

  function AfterSweep(letters: map<string, Letter>, register: Register, roots: set<string>, now: int): map<string, Letter> {
    map id | id in letters ::
      if SweptNow(letters, id, register, roots, now) then letters[id].(open := false) else letters[id]
  }

  // ----- no row belongs to both passes -----

  lemma {:induction false} StripsNothing(s: string)
    requires forall i | 0 <= i < |s| :: !IsSpace(s[i])
    ensures StripRight(StripLeft(s)) == s
  {
  }

  lemma AskHasNoSpace(s: string)
    requires ToLower(s) in ASK_INTENTS
    ensures forall i | 0 <= i < |s| :: !IsSpace(s[i])
  {
    var low := ToLower(s);
    assert forall i | 0 <= i < |low| :: !IsSpace(low[i]) by {
      assert low == "action" || low == "proceed" || low == "escalate" || low == "authority-directive";
    }
    forall i | 0 <= i < |s| ensures !IsSpace(s[i]) {
      assert low[i] == if 'A' <= s[i] <= 'Z' then (s[i] as int + 32) as char else s[i];
    }
  }

  /** Whatever the register, the verdicts and the clock say: a row the climb pass selects is never swept, and a swept row is not selected for climbing. */
  lemma NeverBoth(l: Letter, register: Register, roots: set<string>, now: int)
    ensures ClimbSelects(l) ==> SweepSelects(l) && SweepOf(l, register, roots, now) == Spared(Ask)
    ensures SweepSelects(l) && SweepOf(l, register, roots, now).Swept? ==> !ClimbSelects(l)
  {
    if ClimbSelects(l) {
      AskHasNoSpace(l.intent);
      StripsNothing(l.intent);
    }
  }

  // What a letter's intent may be: one of these, or none at all.
  const ACCEPTED_INTENTS: set<string> := {"", "fyi", "action", "proceed", "escalate", "authority-directive"}

  /**
   Every open ask is the climb pass's business exactly when its intent carries no blanks around
   it: the sweep strips before it looks, the climb query does not.
   */
  lemma AskClimbsIffUnpadded(l: Letter)
    requires SweepSelects(l) && IsAsk(l)
    ensures ClimbSelects(l) <==> StripRight(StripLeft(l.intent)) == l.intent
  {
    if ClimbSelects(l) {
      AskHasNoSpace(l.intent);
      StripsNothing(l.intent);
    }
  }

  lemma LowerStays(s: string)
    requires s in ACCEPTED_INTENTS
    ensures ToLower(s) == s
  {
    assert s == "" || s == "fyi" || s == "action" || s == "proceed" || s == "escalate" || s == "authority-directive";
  }

  /** No accepted intent is padded, so each open letter falls to exactly one pass: an ask to the climb, anything else to the sweep. */
  lemma NoAcceptedLetterIsStranded(l: Letter)
    requires SweepSelects(l) && l.intent in ACCEPTED_INTENTS
    ensures ClimbSelects(l) <==> IsAsk(l)
    ensures IsAsk(l) <==> l.intent in {"action", "proceed", "escalate", "authority-directive"}
  {
    LowerStays(l.intent);
    assert forall i | 0 <= i < |l.intent| :: !IsSpace(l.intent[i]);
    StripsNothing(l.intent);
  }

  // ----- runs of passes -----

  datatype Op =
    | Climb(verdicts: Verdicts, register: Register)
    | Sweep(view: Register, now: int)
    | Deliver(id: string, letter: Letter)
    | Settle(id: string, open: bool, archived: bool)     // resolve, archive, reopen

  function Apply(letters: map<string, Letter>, op: Op, roots: set<string>): map<string, Letter> {
    match op
    case Climb(verdicts, register) => AfterClimb(letters, verdicts, register, roots)
    case Sweep(view, now) => AfterSweep(letters, view, roots, now)
    case Deliver(id, letter) => if id in letters then letters else letters[id := letter]
    case Settle(id, open, archived) =>
      if id in letters then letters[id := letters[id].(open := open, archived := archived)] else letters
  }

  function At(letters: map<string, Letter>, run: seq<Op>, i: nat, roots: set<string>): map<string, Letter>
    requires i <= |run|
    decreases i
  {
    if i == 0 then letters else Apply(At(letters, run, i - 1, roots), run[i - 1], roots)
  }

  // How far an address is above its root; only tree-shaped addresses below a root can climb.
  function Depth(address: string, roots: set<string>): nat {
    match Parse(address, roots)
    case None => 0
    case Some(node) => match node.kind case RootKind => 0 case LaneKind => 1 case IncarnationKind => 2
  }

  function RootOf(address: string, roots: set<string>): Option<string> {
    if Parse(address, roots).Some? then Some(Parse(address, roots).value.root) else None
  }

  // How often a letter has climbed.
  function Climbed(letters: map<string, Letter>, run: seq<Op>, i: nat, roots: set<string>, id: string): nat
    requires i <= |run|
    decreases i
  {
    if i == 0 then 0
    else Climbed(letters, run, i - 1, roots, id)
         + (if run[i - 1].Climb? && ClimbsNow(At(letters, run, i - 1, roots), id, run[i - 1].verdicts, run[i - 1].register, roots)
            then 1 else 0)
  }

  lemma ParentIsOneUp(address: string, roots: set<string>)
    requires Parse(address, roots).Some? && Parse(address, roots).value.kind != RootKind
    ensures var parent := Parse(address, roots).value.parent;
            && Depth(parent, roots) + 1 == Depth(address, roots)
            && RootOf(parent, roots) == RootOf(address, roots)
  {
    ParentsParse(address, roots);
    hide Parse;
  }

  lemma LevelStep(letters: map<string, Letter>, op: Op, roots: set<string>, id: string)
    requires id in letters
    ensures var after := Apply(letters, op, roots);
            && id in after
            && (if op.Climb? && ClimbsNow(letters, id, op.verdicts, op.register, roots)
                then Depth(after[id].to, roots) + 1 == Depth(letters[id].to, roots)
                else after[id].to == letters[id].to)
            && RootOf(after[id].to, roots) == RootOf(letters[id].to, roots)
  {
    hide Parse, Depth, RootOf, ClimbOf, ClimbSelects, SweepOf, SweepSelects;
    if op.Climb? && ClimbsNow(letters, id, op.verdicts, op.register, roots) {
      ClimbsOnEvidenceOnly(letters[id].to, HandledOf(op.verdicts, id), op.register, roots);
      ParentIsOneUp(letters[id].to, roots);
    }
  }

  /**
   Over any run of passes and mail a letter keeps its id and its project; each climb takes it up
   exactly one level, so it climbs at most twice in all, and never again once at its root.
   */
  lemma {:induction false} AtMostTwoClimbs(letters: map<string, Letter>, run: seq<Op>, i: nat, roots: set<string>, id: string)
    requires i <= |run| && id in letters
    ensures var now := At(letters, run, i, roots);
            && id in now
            && Climbed(letters, run, i, roots, id) + Depth(now[id].to, roots) == Depth(letters[id].to, roots)
            && RootOf(now[id].to, roots) == RootOf(letters[id].to, roots)
            && Climbed(letters, run, i, roots, id) <= 2
    decreases i
  {
    hide Depth, RootOf, ClimbsNow, Apply;
    DepthBound(letters[id].to, roots);
    if i > 0 {
      AtMostTwoClimbs(letters, run, i - 1, roots, id);
      LevelStep(At(letters, run, i - 1, roots), run[i - 1], roots, id);
    }
  }

  lemma DepthBound(address: string, roots: set<string>)
    ensures Depth(address, roots) <= 2
  {
  }

  // ----- the passes themselves -----

  class Post {
    const roots: set<string>
    var letters: map<string, Letter>

    constructor (roots: set<string>, letters: map<string, Letter>)
      ensures this.roots == roots && this.letters == letters
    {
      this.roots, this.letters := roots, letters;
    }

    // Does anyone beat anywhere under the root?
    method Fresh(register: Register, root: string) returns (yes: bool)
      ensures yes == ProjectFresh(register, roots, root)
    {
      var todo := register.Keys;
      while todo != {}
        invariant todo <= register.Keys
        invariant forall a | a in register && a !in todo ::
                    !(Parse(a, roots).Some? && Parse(a, roots).value.root == root && Beating(register[a]))
        decreases |todo|
      {
        var a :| a in todo;
        todo := todo - {a};
        var node := Parse(a, roots);
        if node.Some? && node.value.root == root && Beating(register[a]) {
          return true;
        }
      }
      return false;
    }

    // The newest activity in the lane's subtree; None when it has no aged entry at all.
    method QuietSince(register: Register, lane: string) returns (newest: Option<int>)
      ensures newest.Some? && newest.value < CLIMB_LANE_DWELL <==> SubtreeActive(register, roots, lane)
    {
      newest := None;
      var todo := register.Keys;
      while todo != {}
        invariant todo <= register.Keys
        invariant forall a | a in register && a !in todo && InSubtree(a, roots, lane) && register[a].age.Some? ::
                    newest.Some? && newest.value <= register[a].age.value
        invariant newest.Some? ==> exists a | a in register :: InSubtree(a, roots, lane) && register[a].age == newest
        decreases |todo|
      {
        var a :| a in todo;
        todo := todo - {a};
        if InSubtree(a, roots, lane) && register[a].age.Some? && (newest.None? || register[a].age.value < newest.value) {
          newest := register[a].age;
        }
      }
    }

    // One letter's outcome, decided as the pass decides it.
    method Judge(to: string, handled: Option<bool>, register: Register) returns (o: ClimbOutcome)
      ensures o == ClimbOf(to, handled, register, roots)
    {
      hide Parse, ProjectFresh, SubtreeActive, Before;
      if handled == Some(true) { return Stays(Handled); }
      if handled.None? { return Stays(Unknown); }
      var bare := Before(to, '@');
      if bare in EXEMPT { return Stays(Exempt); }
      var node := Parse(to, roots);
      if node.None? { return Stays(NotTree); }
      if node.value.kind == RootKind { return Stays(AtRoot); }
      if node.value.kind == IncarnationKind {
        if bare !in register { return Stays(NoEvidence); }
        var entry := register[bare];
        if Beating(entry) { return Stays(HolderAlive); }
        if entry.death { return Climbs(node.value.parent, DeathCertified); }
        if entry.farewell { return Climbs(node.value.parent, FarewellObserved); }
        return Stays(NoEvidence);
      }
      var active := Fresh(register, node.value.root);
      if !active { return Stays(ProjectQuiet); }
      var newest := QuietSince(register, bare);
      if newest.Some? && newest.value < CLIMB_LANE_DWELL { return Stays(LaneActive); }
      return Climbs(node.value.parent, LaneDormant);
    }

    /** `climb_pass`: every selected letter ends in exactly one place, climbed or one skip count. */
    method ClimbPass(verdicts: Verdicts, register: Register) returns (climbed: map<string, string>, skipped: multiset<Bucket>)
      modifies this
      ensures letters == AfterClimb(old(letters), verdicts, register, roots)
      ensures climbed == Moves(old(letters), Selected(old(letters)), verdicts, register, roots)
      ensures |climbed| + |skipped| == |Selected(old(letters))|
      ensures forall b :: skipped[b] == |InBucket(old(letters), Selected(old(letters)), b, verdicts, register, roots)|
      // closed, archived and meeting letters are left alone; a climbed one changes only its address
      ensures letters.Keys == old(letters).Keys
      ensures forall id | id in letters ::
                var l := old(letters)[id];
                if id in climbed then letters[id] == l.(to := climbed[id], climbedFrom := Some(l.to)) && l.open && !l.archived && !l.huddle
                else letters[id] == l
    {
      var table;
      table, climbed, skipped := Walk(letters, Selected(letters), verdicts, register);
      ClimbingAll(letters, verdicts, register, roots);
      TallyMeans(letters, Selected(letters), climbed, skipped, verdicts, register, roots);
      letters := table;
    }

    // The loop of the pass, over the letters as they were read.
    method Walk(before: map<string, Letter>, selected: set<string>, verdicts: Verdicts, register: Register)
      returns (table: map<string, Letter>, climbed: map<string, string>, skipped: multiset<Bucket>)
      requires selected <= before.Keys
      ensures Progress(before, selected, table, climbed, skipped, verdicts, register, roots)
    {
      var todo := selected;
      table, climbed, skipped := before, map[], multiset{};
      ghost var seen := {};
      NoProgress(before, verdicts, register, roots);
      hide *;
      while todo != {}
        invariant seen !! todo && seen + todo == selected
        invariant Progress(before, seen, table, climbed, skipped, verdicts, register, roots)
        decreases |todo|
      {
        var id :| id in todo;
        var outcome := Judge(before[id].to, HandledOf(verdicts, id), register);
        ProgressOne(before, seen, id, outcome, table, climbed, skipped, verdicts, register, roots);
        todo, seen := todo - {id}, seen + {id};
        if outcome.Climbs? {
          climbed := climbed[id := outcome.parent];
          table := table[id := before[id].(to := outcome.parent, climbedFrom := Some(before[id].to))];
        } else {
          skipped := skipped + multiset{outcome.bucket};
        }
      }
    }

    /** `sweep_pass` */
    method SweepPass(register: Register, now: int) returns (swept: set<string>, spared: multiset<SweepBucket>)
      modifies this
      ensures letters == AfterSweep(old(letters), register, roots, now)
      ensures swept == set id | id in old(letters) && SweptNow(old(letters), id, register, roots, now)
      ensures |swept| + |spared| == |SweepSelected(old(letters))|
      ensures forall b :: spared[b] == |SparedIn(old(letters), SweepSelected(old(letters)), b, register, roots, now)|
      // closed, archived and meeting letters are left alone; a swept one is closed and nothing else
      ensures letters.Keys == old(letters).Keys
      ensures forall id | id in letters ::
                var l := old(letters)[id];
                if id in swept then letters[id] == l.(open := false) && l.open && !l.archived && !l.huddle else letters[id] == l
      // nothing the climb pass would take is touched
      ensures forall id | id in old(letters) && ClimbSelects(old(letters)[id]) :: id !in swept
    {
      swept, spared := Drain(letters, SweepSelected(letters), register, now);
      SweptAll(letters, register, roots, now);
      SweepSparesAsks(letters, register, roots, now);
      var before, gone := letters, swept;
      letters := map id | id in before :: if id in gone then before[id].(open := false) else before[id];
      SweepEffect(before, gone, register, roots, now);
    }

    // The loop of the pass, over the letters as they were read.
    method Drain(before: map<string, Letter>, selected: set<string>, register: Register, now: int)
      returns (swept: set<string>, spared: multiset<SweepBucket>)
      requires selected <= before.Keys
      ensures SweepTally(before, selected, swept, spared, register, roots, now)
    {
      var todo := selected;
      swept, spared := {}, multiset{};
      ghost var seen := {};
      SweepTallyNothing(before, register, roots, now);
      hide *;
      while todo != {}
        invariant seen !! todo && seen + todo == selected
        invariant SweepTally(before, seen, swept, spared, register, roots, now)
        decreases |todo|
      {
        var id :| id in todo;
        var outcome := SweepOf(before[id], register, roots, now);
        SweepTallyOne(before, seen, id, swept, spared, register, roots, now);
        todo, seen := todo - {id}, seen + {id};
        if outcome.Swept? {
          swept := swept + {id};
        } else {
          spared := spared + multiset{outcome.bucket};
        }
      }
    }
  }

  // What a sweep has counted so far.
  ghost predicate SweepTally(letters: map<string, Letter>, among: set<string>, swept: set<string>, spared: multiset<SweepBucket>,
                             register: Register, roots: set<string>, now: int)
  {
    && swept == SweptOf(letters, among, register, roots, now)
    && |swept| + |spared| == |among|
    && forall b :: spared[b] == |SparedIn(letters, among, b, register, roots, now)|
  }

  lemma SweepTallyNothing(letters: map<string, Letter>, register: Register, roots: set<string>, now: int)
    ensures SweepTally(letters, {}, {}, multiset{}, register, roots, now)
  {
    hide SweepOf;
    forall b ensures |SparedIn(letters, {}, b, register, roots, now)| == 0 {
      assert SparedIn(letters, {}, b, register, roots, now) == {};
    }
  }

  lemma SweepTallyOne(letters: map<string, Letter>, seen: set<string>, id: string, swept: set<string>, spared: multiset<SweepBucket>,
                      register: Register, roots: set<string>, now: int)
    requires id in letters && id !in seen && SweepTally(letters, seen, swept, spared, register, roots, now)
    ensures var o := SweepOf(letters[id], register, roots, now);
            if o.Swept? then SweepTally(letters, seen + {id}, swept + {id}, spared, register, roots, now)
            else SweepTally(letters, seen + {id}, swept, spared + multiset{o.bucket}, register, roots, now)
  {
    hide SweepOf, SparedIn, SweptOf;
    SweptOne(letters, seen, id, register, roots, now);
    SparedOne(letters, seen, id, register, roots, now);
    assert |seen + {id}| == |seen| + 1;
  }

  lemma SweepSparesAsks(letters: map<string, Letter>, register: Register, roots: set<string>, now: int)
    ensures forall id | id in letters && ClimbSelects(letters[id]) :: !SweptNow(letters, id, register, roots, now)
  {
    forall id | id in letters && ClimbSelects(letters[id]) ensures !SweptNow(letters, id, register, roots, now) {
      NeverBoth(letters[id], register, roots, now);
    }
  }

  lemma SweepEffect(letters: map<string, Letter>, gone: set<string>, register: Register, roots: set<string>, now: int)
    requires forall id :: id in gone <==> SweptNow(letters, id, register, roots, now)
    ensures (map id | id in letters :: if id in gone then letters[id].(open := false) else letters[id])
            == AfterSweep(letters, register, roots, now)
    ensures gone == set id | id in letters && SweptNow(letters, id, register, roots, now)
  {
    hide SweepOf, SweepSelects;
  }

  // The letters swept by a pass that has come as far as `among`.
  function SweptOf(letters: map<string, Letter>, among: set<string>, register: Register, roots: set<string>, now: int): set<string> {
    set id | id in among && id in letters && SweepOf(letters[id], register, roots, now).Swept?
  }

  lemma SweptOne(letters: map<string, Letter>, seen: set<string>, id: string, register: Register, roots: set<string>, now: int)
    requires id in letters && id !in seen
    ensures id !in SweptOf(letters, seen, register, roots, now)
    ensures SweptOf(letters, seen + {id}, register, roots, now)
            == SweptOf(letters, seen, register, roots, now) + (if SweepOf(letters[id], register, roots, now).Swept? then {id} else {})
  {
    hide SweepOf;
  }

  // The letters of a pass spared for one reason.
  function SparedIn(letters: map<string, Letter>, among: set<string>, b: SweepBucket, register: Register, roots: set<string>, now: int): set<string> {
    set id | id in among && id in letters && SweepOf(letters[id], register, roots, now) == Spared(b)
  }

  lemma SparedOne(letters: map<string, Letter>, seen: set<string>, id: string, register: Register, roots: set<string>, now: int)
    requires id in letters && id !in seen
    ensures forall b :: |SparedIn(letters, seen + {id}, b, register, roots, now)|
                        == |SparedIn(letters, seen, b, register, roots, now)| + (if SweepOf(letters[id], register, roots, now) == Spared(b) then 1 else 0)
  {
    hide SweepOf;
    forall b
      ensures |SparedIn(letters, seen + {id}, b, register, roots, now)|
              == |SparedIn(letters, seen, b, register, roots, now)| + (if SweepOf(letters[id], register, roots, now) == Spared(b) then 1 else 0)
    {
      var before := SparedIn(letters, seen, b, register, roots, now);
      var after := SparedIn(letters, seen + {id}, b, register, roots, now);
      if SweepOf(letters[id], register, roots, now) == Spared(b) {
        assert after == before + {id};
      } else {
        assert after == before;
      }
    }
  }

  lemma SweptAll(letters: map<string, Letter>, register: Register, roots: set<string>, now: int)
    ensures forall id :: id in SweptOf(letters, SweepSelected(letters), register, roots, now) <==> SweptNow(letters, id, register, roots, now)
  {
    hide SweepOf, SweepSelects;
  }

  function SweepSelected(letters: map<string, Letter>): set<string> {
    set id | id in letters && SweepSelects(letters[id])
  }

  // The letters of a pass that has come as far as `among`.
  function Climbing(letters: map<string, Letter>, among: set<string>, v: Verdicts, register: Register, roots: set<string>): map<string, Letter> {
    map id | id in letters ::
      if id in among && Outcome(letters, id, v, register, roots).Climbs?
      then letters[id].(to := Outcome(letters, id, v, register, roots).parent, climbedFrom := Some(letters[id].to))
      else letters[id]
  }

  // What a pass reports as climbed.
  function Moves(letters: map<string, Letter>, among: set<string>, v: Verdicts, register: Register, roots: set<string>): map<string, string> {
    map id | id in among && id in letters && Outcome(letters, id, v, register, roots).Climbs?
      :: Outcome(letters, id, v, register, roots).parent
  }

  ghost predicate Tally(letters: map<string, Letter>, among: set<string>, climbed: map<string, string>, skipped: multiset<Bucket>,
                        v: Verdicts, register: Register, roots: set<string>)
  {
    && climbed == Moves(letters, among, v, register, roots)
    && |climbed| + |skipped| == |among|
    && forall b :: skipped[b] == |InBucket(letters, among, b, v, register, roots)|
  }

  // How far a pass has come: the table so far and what it has counted.
  ghost predicate Progress(letters: map<string, Letter>, among: set<string>, table: map<string, Letter>,
                           climbed: map<string, string>, skipped: multiset<Bucket>,
                           v: Verdicts, register: Register, roots: set<string>)
  {
    table == Climbing(letters, among, v, register, roots) && Tally(letters, among, climbed, skipped, v, register, roots)
  }

  lemma ProgressOne(letters: map<string, Letter>, seen: set<string>, id: string, o: ClimbOutcome, table: map<string, Letter>,
                    climbed: map<string, string>, skipped: multiset<Bucket>, v: Verdicts, register: Register, roots: set<string>)
    requires id in letters && id !in seen && Progress(letters, seen, table, climbed, skipped, v, register, roots)
    requires o == ClimbOf(letters[id].to, HandledOf(v, id), register, roots)
    ensures if o.Climbs?
            then Progress(letters, seen + {id}, table[id := letters[id].(to := o.parent, climbedFrom := Some(letters[id].to))],
                          climbed[id := o.parent], skipped, v, register, roots)
            else Progress(letters, seen + {id}, table, climbed, skipped + multiset{o.bucket}, v, register, roots)
  {
    hide ClimbOf, Climbing, Tally;
    TallyOne(letters, seen, id, climbed, skipped, v, register, roots);
    ClimbingOne(letters, seen, id, v, register, roots);
  }

  lemma NoProgress(letters: map<string, Letter>, v: Verdicts, register: Register, roots: set<string>)
    ensures Progress(letters, {}, letters, map[], multiset{}, v, register, roots)
  {
    hide Outcome;
    forall b ensures |InBucket(letters, {}, b, v, register, roots)| == 0 {
      assert InBucket(letters, {}, b, v, register, roots) == {};
    }
  }

  lemma TallyOne(letters: map<string, Letter>, seen: set<string>, id: string, climbed: map<string, string>, skipped: multiset<Bucket>,
                 v: Verdicts, register: Register, roots: set<string>)
    requires id in letters && id !in seen && Tally(letters, seen, climbed, skipped, v, register, roots)
    ensures var o := Outcome(letters, id, v, register, roots);
            if o.Climbs? then Tally(letters, seen + {id}, climbed[id := o.parent], skipped, v, register, roots)
            else Tally(letters, seen + {id}, climbed, skipped + multiset{o.bucket}, v, register, roots)
  {
    hide Outcome, InBucket;
    CountOne(letters, seen, id, v, register, roots);
    MovesOne(letters, seen, id, v, register, roots);
    hide Moves;
    assert |seen + {id}| == |seen| + 1;
  }

  lemma MovesOne(letters: map<string, Letter>, seen: set<string>, id: string, v: Verdicts, register: Register, roots: set<string>)
    requires id in letters && id !in seen
    ensures var o := Outcome(letters, id, v, register, roots);
            var before := Moves(letters, seen, v, register, roots);
            && id !in before
            && Moves(letters, seen + {id}, v, register, roots) == if o.Climbs? then before[id := o.parent] else before
  {
    hide Outcome;
  }

  lemma ClimbingOne(letters: map<string, Letter>, seen: set<string>, id: string, v: Verdicts, register: Register, roots: set<string>)
    requires id in letters && id !in seen
    ensures var o := Outcome(letters, id, v, register, roots);
            Climbing(letters, seen + {id}, v, register, roots)
            == if o.Climbs?
               then Climbing(letters, seen, v, register, roots)[id := letters[id].(to := o.parent, climbedFrom := Some(letters[id].to))]
               else Climbing(letters, seen, v, register, roots)
  {
    hide Outcome;
  }

  lemma ClimbingAll(letters: map<string, Letter>, v: Verdicts, register: Register, roots: set<string>)
    ensures Climbing(letters, Selected(letters), v, register, roots) == AfterClimb(letters, v, register, roots)
  {
    hide Outcome, ClimbSelects;
  }

  lemma TallyMeans(letters: map<string, Letter>, among: set<string>, climbed: map<string, string>, skipped: multiset<Bucket>,
                   v: Verdicts, register: Register, roots: set<string>)
    requires Tally(letters, among, climbed, skipped, v, register, roots)
    ensures climbed == Moves(letters, among, v, register, roots)
    ensures |climbed| + |skipped| == |among|
    ensures forall b :: skipped[b] == |InBucket(letters, among, b, v, register, roots)|
  {
  }

  function Selected(letters: map<string, Letter>): set<string> {
    set id | id in letters && ClimbSelects(letters[id])
  }

  function InBucket(letters: map<string, Letter>, among: set<string>, b: Bucket, v: Verdicts, register: Register, roots: set<string>): set<string> {
    set id | id in among && id in letters && Outcome(letters, id, v, register, roots) == Stays(b)
  }

  lemma CountOne(letters: map<string, Letter>, seen: set<string>, id: string, v: Verdicts, register: Register, roots: set<string>)
    requires id in letters && id !in seen
    ensures forall b :: |InBucket(letters, seen + {id}, b, v, register, roots)|
                        == |InBucket(letters, seen, b, v, register, roots)| + (if Outcome(letters, id, v, register, roots) == Stays(b) then 1 else 0)
  {
    forall b
      ensures |InBucket(letters, seen + {id}, b, v, register, roots)|
              == |InBucket(letters, seen, b, v, register, roots)| + (if Outcome(letters, id, v, register, roots) == Stays(b) then 1 else 0)
    {
      var before := InBucket(letters, seen, b, v, register, roots);
      var after := InBucket(letters, seen + {id}, b, v, register, roots);
      if Outcome(letters, id, v, register, roots) == Stays(b) {
        assert after == before + {id};
      } else {
        assert after == before;
      }
    }
  }
}
