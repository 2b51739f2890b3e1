/**
 Who may be handed an address: the decision ladder of server/services/session_registry.py,
 the facts the allocator and the address register feed it, and why the two agree.

 Times are whole microseconds.  One project's rows are in view; a seat row is found by its name.
 */
module SeatLadder {
  import opened Common

  const LIVE: int := 600 * SECOND
  const GRACE: int := 604800 * SECOND
  const COLLISION_WINDOW: int := 300 * SECOND
  const MAX_ORDINAL: nat := 64
  const MAX_SUPERSEDED: nat := 8
  const LANE_PROVIDERS: set<string> := {"claude", "grok", "codex", "cursor", "gpt"}

  datatype Cert = Cert(at: int, nonce: Option<string>)

  datatype Seat = Seat(
    key: string,                  // the logical session
    nonce: string,                // the process
    provider: string,
    host: Option<string>,
    preferred: Option<string>,
    superseded: seq<string>,      // processes displaced from this seat, oldest first
    runtime: bool,
    touched: int,
    created: int,
    cert: Option<Cert>)

  datatype Presence = Presence(
    touched: int,
    releasedAt: Option<int>,
    topNonce: Option<string>,
    sessions: map<string, int>)   // process nonce to last beat

  datatype World = World(
    seats: map<string, Seat>,
    presence: map<string, Presence>,
    mail: set<string>,            // addresses with open mail
    now: int)

  // `roots` are the known project roots; a claim registers its own project first.
  datatype Config = Config(project: string, reserve: bool, roots: set<string>)

  datatype Request = Request(
    key: string, nonce: string, provider: string, host: Option<string>,
    preferred: Option<string>, runtime: bool)

  datatype Reason = ReservedRoot | ReservedLane | LiveHolder | GraceWindow | MailParked | PresenceFresh | LiveNoRow

  datatype Decision = Free | Skip(reason: Reason)

  datatype Facts = Facts(
    root: bool, lane: bool, age: Option<int>, mail: bool, beating: bool, live: bool, certified: bool)

  /**
   The skip ladder.  What its order amounts to: a name is free when it is not reserved, has no
   open mail, and its last holder is certified dead, or has left no row and no one answers
   there, or has been silent on both clocks past the grace window.
   */
  function Decide(f: Facts): (d: Decision)
    ensures d.Free? <==>
              && !f.root && !f.lane && !f.mail
              && (f.certified
                  || (f.age.None? && !f.live)
                  || (f.age.Some? && f.age.value >= GRACE && !f.beating))
  {
    if f.root then Skip(ReservedRoot)
    else if f.lane then Skip(ReservedLane)
    else if f.certified && !f.mail then Free
    else match f.age
         case None =>
           if f.mail then Skip(MailParked)
           else if f.live then Skip(LiveNoRow)
           else Free
         case Some(age) =>
           if age < LIVE then Skip(LiveHolder)
           else if age < GRACE then Skip(GraceWindow)
           else if f.mail then Skip(MailParked)
           else if f.beating then Skip(PresenceFresh)
           else Free
  }

  // ----- names -----

  predicate IsReservedLane(c: Config, seat: string) {
    c.reserve && c.project !in EXEMPT && exists p | p in LANE_PROVIDERS :: seat == c.project + "-" + p
  }

  predicate IsReservedRoot(c: Config, seat: string) {
    c.reserve && c.project !in EXEMPT && seat == c.project
  }

  predicate Reserved(c: Config, seat: string) {
    IsReservedLane(c, seat) || IsReservedRoot(c, seat) || seat in c.roots
  }

  function Base(c: Config, provider: string): string {
    c.project + "-" + provider
  }

  // The preference the rest of the claim works with: a launch may not ask for a lane or its root.
  function Asked(c: Config, q: Request): Option<string> {
    if q.preferred.Some? && !q.runtime && (IsReservedLane(c, q.preferred.value) || IsReservedRoot(c, q.preferred.value))
    then None else q.preferred
  }

  function Distinct(c: Config, q: Request): Option<string> {
    if Asked(c, q) == Some(Base(c, q.provider)) then None else Asked(c, q)
  }

  function Ordinals(base: string): seq<string> {
    seq(MAX_ORDINAL - 1, i requires i >= 0 => base + "-" + Decimal(i + 2))
  }

  function Candidates(c: Config, q: Request): seq<string> {
    (if Distinct(c, q).Some? then [Distinct(c, q).value] else []) + [Base(c, q.provider)] + Ordinals(Base(c, q.provider))
  }

  // ----- evidence -----

  /** A certificate about the session sitting here now, not about a predecessor or another process. */
  predicate CertifiedDead(row: Seat) {
    && row.cert.Some?
    && (row.cert.value.nonce.Some? ==> row.cert.value.nonce.value == row.nonce)
    && row.cert.value.at >= row.created
  }

  predicate IsFresh(w: World, seat: string) {
    seat in w.presence && w.now - w.presence[seat].touched < LIVE
  }

  /** Someone other than the claimant beats here, and did not say goodbye afterwards. */
  predicate Breathing(w: World, seat: string, nonce: string) {
    && seat in w.presence
    && var p := w.presence[seat];
    && p.touched >= w.now - LIVE
    && !(p.releasedAt.Some? && p.releasedAt.value >= p.touched)
    && exists n | n in p.sessions :: n != nonce && w.now - p.sessions[n] < LIVE
  }

  function Age(w: World, seat: string): Option<int> {
    if seat in w.seats then Some(w.now - w.seats[seat].touched) else None
  }

  // What the allocator gathers for one candidate; presence is asked only where it decides.
  function Gathered(w: World, q: Request, seat: string): Facts {
    var age := Age(w, seat);
    var mail := seat in w.mail;
    Facts(false, false, age, mail,
          age.Some? && age.value >= GRACE && !mail && IsFresh(w, seat),
          Breathing(w, seat, q.nonce),
          seat in w.seats && CertifiedDead(w.seats[seat]))
  }

  /** The holder is provably gone. */
  predicate HolderGone(w: World, q: Request, seat: string, reason: Reason) {
    if seat in w.seats && CertifiedDead(w.seats[seat]) then true
    else if Breathing(w, seat, q.nonce) || reason == LiveHolder then false
    else if seat !in w.seats then true
    else w.now - w.seats[seat].touched >= GRACE && !IsFresh(w, seat)
  }

  // A launch that names this seat is its declared successor.
  predicate Inherits(c: Config, w: World, q: Request, seat: string) {
    && Distinct(c, q) == Some(seat) && !q.runtime
    && var d := Decide(Gathered(w, q, seat));
    && d.Skip? && d.reason in {MailParked, GraceWindow, LiveHolder}
    && HolderGone(w, q, seat, d.reason)
  }

  /** The allocator's answer for one candidate. */
  function Allocation(c: Config, w: World, q: Request, seat: string): Decision {
    if Reserved(c, seat) then Skip(if IsReservedLane(c, seat) then ReservedLane else ReservedRoot)
    else if Inherits(c, w, q, seat) then Free
    else Decide(Gathered(w, q, seat))
  }

  function Cutoff(w: World, row: Seat): int {
    if CertifiedDead(row) then w.now else w.now - LIVE
  }

  // The insert finds no row, or the takeover's own age guard holds.
  predicate WriteSucceeds(w: World, seat: string) {
    seat in w.seats ==> w.seats[seat].touched < Cutoff(w, w.seats[seat])
  }

  predicate Grantable(c: Config, w: World, q: Request, seat: string) {
    Allocation(c, w, q, seat).Free? && WriteSucceeds(w, seat)
  }

  // ----- the register -----

  datatype Listing = ExemptRole | PersonAddress | Ladder(decision: Decision)

  // What `address_register` reports for a seat row.
  function Register(c: Config, w: World, people: set<string>, seat: string): Listing
    requires seat in w.seats
  {
    var bare := Before(seat, '@');
    if bare in EXEMPT then ExemptRole
    else if bare in people then PersonAddress
    else Ladder(Decide(Facts(bare in c.roots, IsReservedLane(c, seat), Age(w, seat), seat in w.mail,
                             IsFresh(w, seat), false, CertifiedDead(w.seats[seat]))))
  }

  /**
   For a seat row whose name is neither an exempt role, nor a person's, nor qualified by a host,
   the allocator and the register give the same answer to everyone but a launch that names it,
   and the same reason unless the name is a lane and a root at once.
   */
  lemma RegisterAgrees(c: Config, w: World, q: Request, people: set<string>, seat: string)
    requires seat in w.seats && '@' !in seat && seat !in EXEMPT && seat !in people
    requires c.project in c.roots
    requires Distinct(c, q) != Some(seat) || q.runtime
    ensures var view := Register(c, w, people, seat);
            && view.Ladder?
            && view.decision.Free? == Allocation(c, w, q, seat).Free?
            && (!(IsReservedLane(c, seat) && seat in c.roots) ==> view.decision == Allocation(c, w, q, seat))
  {
    BeforeOf(seat, '@', "");
    assert seat + "" == seat;
  }

  /** A launch's own seat: it may be given where the register says it is parked, never the reverse. */
  lemma LaunchSeesMore(c: Config, w: World, q: Request, people: set<string>, seat: string)
    requires seat in w.seats && '@' !in seat && seat !in EXEMPT && seat !in people
    requires c.project in c.roots
    ensures Register(c, w, people, seat) == Ladder(Free) ==> Allocation(c, w, q, seat).Free?
    ensures Allocation(c, w, q, seat).Free? && Register(c, w, people, seat) != Ladder(Free) ==>
              Distinct(c, q) == Some(seat) && !q.runtime && seat in w.mail
  {
    BeforeOf(seat, '@', "");
    assert seat + "" == seat;
  }

  /**
   A free answer passes the takeover's age guard, except that a certified row touched at this
   very instant does not.
   */
  lemma FreePassesGuardIff(c: Config, w: World, q: Request, seat: string)
    requires Allocation(c, w, q, seat).Free?
    ensures WriteSucceeds(w, seat) <==> (seat in w.seats && CertifiedDead(w.seats[seat]) ==> w.seats[seat].touched < w.now)
  {
  }

  /** Open mail is handed over only to the launch that named the seat, and only from a holder provably gone. */
  lemma OpenMailGoesToTheNamedHeir(c: Config, w: World, q: Request, seat: string)
    requires Allocation(c, w, q, seat).Free? && seat in w.mail
    ensures Distinct(c, q) == Some(seat) && !q.runtime && !Reserved(c, seat)
    ensures if seat in w.seats
            then CertifiedDead(w.seats[seat])
                 || (w.now - w.seats[seat].touched >= GRACE && !IsFresh(w, seat) && !Breathing(w, seat, q.nonce))
            else !Breathing(w, seat, q.nonce)
  {
  }

  /** Whatever the preference, mail and presence say, an uncertified row touched inside the window is never granted. */
  lemma RecentRowIsKept(c: Config, w: World, q: Request, seat: string)
    requires seat in w.seats && !CertifiedDead(w.seats[seat]) && w.now - w.seats[seat].touched < GRACE
    ensures Allocation(c, w, q, seat).Skip?
  {
  }

  /**
   When a name without a row and without mail is parked: exactly while some other process has
   beaten there inside the window with no release stamped at or after the row's last beat.
   */
  lemma NoRowAllocation(c: Config, w: World, q: Request, seat: string)
    requires seat !in w.seats && !Reserved(c, seat)
    ensures seat !in w.mail ==>
              (Allocation(c, w, q, seat) == if Breathing(w, seat, q.nonce) then Skip(LiveNoRow) else Free)
    ensures seat in w.mail ==>
              (Allocation(c, w, q, seat).Free? <==>
                 Distinct(c, q) == Some(seat) && !q.runtime && !Breathing(w, seat, q.nonce))
    ensures WriteSucceeds(w, seat)
  {
  }

  // ----- the same in plain facts -----

  // The n-th seat of a provider: the base is the first.
  function Nth(base: string, n: nat): string {
    if n == 1 then base else base + "-" + Decimal(n)
  }

  /** A preference sets a claim apart exactly when it is not the base and not, at a launch, a lane or the root of the project. */
  lemma DistinctMeans(c: Config, q: Request, p: string)
    ensures Distinct(c, q) == Some(p) <==>
              && q.preferred == Some(p) && p != c.project + "-" + q.provider
              && (q.runtime || !c.reserve || c.project == "admin"
                  || (p != c.project && forall lane | lane in ["claude", "grok", "codex", "cursor", "gpt"] :: p != c.project + "-" + lane))
  {
    assert forall lane :: lane in ["claude", "grok", "codex", "cursor", "gpt"] <==> lane in LANE_PROVIDERS;
  }

  // Somebody other than the claimant beat here within 600 seconds and the row shows no goodbye since.
  predicate AnsweredBy(p: Presence, now: int, claimant: string) {
    && now - p.touched <= 600 * SECOND
    && (p.releasedAt.Some? ==> p.releasedAt.value < p.touched)
    && exists n | n in p.sessions :: n != claimant && now - p.sessions[n] < 600 * SECOND
  }

  /**
   When the allocator frees a name that is no lane and no root, from the rows alone.  Without open
   mail: its row is certified dead by its own process, or has been silent for seven days with no
   beat at the name for 600 seconds; or it has no row and nobody else answers there.  With open
   mail, only to the launch that names it, and an uncertified row must have nobody answering either.
   */
  lemma WhoMayTake(c: Config, w: World, q: Request, seat: string)
    requires !Reserved(c, seat)
    ensures var answered := seat in w.presence && AnsweredBy(w.presence[seat], w.now, q.nonce);
            var dead := seat in w.seats && w.seats[seat].cert.Some? && w.seats[seat].cert.value.at >= w.seats[seat].created
                        && (w.seats[seat].cert.value.nonce == None || w.seats[seat].cert.value.nonce == Some(w.seats[seat].nonce));
            var silent := seat in w.seats && w.now - w.seats[seat].touched >= 604800 * SECOND
                          && (seat in w.presence ==> w.now - w.presence[seat].touched >= 600 * SECOND);
            Allocation(c, w, q, seat).Free? <==>
              if seat in w.mail
              then Distinct(c, q) == Some(seat) && !q.runtime && (dead || (silent && !answered) || (seat !in w.seats && !answered))
              else dead || silent || (seat !in w.seats && !answered)
  {
    assert Breathing(w, seat, q.nonce) == (seat in w.presence && AnsweredBy(w.presence[seat], w.now, q.nonce));
  }
}
