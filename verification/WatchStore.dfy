/**
 `watch_claim`, `watch_beat` and `watch_release` statement by statement.  Between any two
 statements of a claim other processes may run any statements of theirs (`Between`).
 */
module WatchStore {
  import opened Common
  import opened WatchClaim
  import opened WatchCatchUp

  datatype Verdict =
    | PartialRefused
    | Granted(stolen: bool, catchUpAfter: Option<int>)
    | Held(retryAfter: int)

  function NonEmpty(listen: seq<string>): seq<string> {
    if listen == [] then []
    else (if listen[0] == "" then [] else [listen[0]]) + NonEmpty(listen[1..])
  }

  // The watcher listens on the seat itself, bare or at some host.
  predicate Hears(seat: string, listen: seq<string>) {
    seat != "" && exists a | a in listen :: a != "" && (a == seat || Before(a, '@') == seat)
  }

  lemma {:induction false} NonEmptyKeeps(listen: seq<string>)
    ensures forall a :: a in NonEmpty(listen) <==> a in listen && a != ""
  {
    if listen != [] {
      NonEmptyKeeps(listen[1..]);
    }
  }

  // What other processes do around a claim's own statements.
  datatype Between = Between(first: seq<Stmt>, second: seq<Stmt>, third: seq<Stmt>, last: seq<Stmt>)

  // What a claim tries to put where.
  datatype Bid = Bid(key: string, seat: string, row: Row)

  function Mine(seat: string, nonce: string, listen: seq<string>, host: Option<string>, seatNonce: Option<string>, began: int): Bid {
    Bid(ClaimKey(seat, NonEmpty(listen), host), seat, Row(nonce, seatNonce, NonEmpty(listen), began, began, None))
  }

  datatype Outcome = Outcome(end: World, verdict: Verdict)

  // The tables as the insert, the read and the steal meet them.
  function AtInsert(w: World, others: Between): World {
    At(w, others.first, |others.first|)
  }

  function AtRead(w: World, bid: Bid, others: Between): World {
    At(Exec(AtInsert(w, others), Insert(bid.key, bid.row)), others.second, |others.second|)
  }

  function AtSteal(w: World, bid: Bid, others: Between): World {
    At(AtRead(w, bid, others), others.third, |others.third|)
  }

  function AtLast(w: World, bid: Bid, others: Between): World {
    At(AtSteal(w, bid, others), others.last, |others.last|)
  }

  /** What becomes of a claim. */
  function Path(w: World, bid: Bid, others: Between): Outcome {
    if Hits(AtInsert(w, others), Insert(bid.key, bid.row)) then
      Outcome(Exec(AtInsert(w, others), Insert(bid.key, bid.row)), Granted(false, None))
    else
      var read := AtRead(w, bid, others);
      var steal := AtSteal(w, bid, others);
      if Hits(steal, Steal(bid.key, bid.seat, bid.row)) then
        Outcome(Exec(steal, Steal(bid.key, bid.seat, bid.row)),
                Granted(true, if bid.key in read.claims then Some(Watermark(read.claims[bid.key])) else None))
      else
        var last := AtLast(w, bid, others);
        Outcome(last, Held(if bid.key in last.claims then RetryAfter(last, last.claims[bid.key]) else EXPIRY))
  }

  /** A claim is held off exactly when a row was there at its insert, and at its steal none was or none of the three conditions held; it is told when to retry by the row then in its way. */
  lemma HeldIff(w: World, bid: Bid, others: Between)
    ensures var v := Path(w, bid, others).verdict;
            && (v.Held? <==>
                  && bid.key in AtInsert(w, others).claims
                  && (bid.key in AtSteal(w, bid, others).claims ==>
                        var steal := AtSteal(w, bid, others);
                        var row := steal.claims[bid.key];
                        !Expired(steal, row) && !FollowsSeat(steal, row, bid.seat, bid.row.seatNonce) && !Mute(steal, row)))
            && (v.Held? ==>
                  var last := AtLast(w, bid, others);
                  v.retryAfter == if bid.key in last.claims then RetryAfter(last, last.claims[bid.key]) else 150 * SECOND)
            && (v.Granted? ==> (v.stolen <==> bid.key in AtInsert(w, others).claims))
  {
    hide At, Expired, FollowsSeat, Mute, RetryAfter;
  }

  // The whole run of a claim that is not granted at once.
  function WholeRun(bid: Bid, others: Between): seq<Stmt> {
    others.first + [Insert(bid.key, bid.row)] + others.second + others.third + [Steal(bid.key, bid.seat, bid.row)] + others.last
  }

  lemma {:induction false} AtConcat(w: World, xs: seq<Stmt>, ys: seq<Stmt>, i: nat)
    requires i <= |ys|
    ensures At(w, xs + ys, |xs| + i) == At(At(w, xs, |xs|), ys, i)
    decreases i
  {
    if i == 0 {
      AtPrefix(w, xs, ys, |xs|);
    } else {
      AtConcat(w, xs, ys, i - 1);
      assert (xs + ys)[|xs| + i - 1] == ys[i - 1];
    }
  }

  lemma {:induction false} AtPrefix(w: World, xs: seq<Stmt>, ys: seq<Stmt>, i: nat)
    requires i <= |xs|
    ensures At(w, xs + ys, i) == At(w, xs, i)
    decreases i
  {
    if i > 0 {
      AtPrefix(w, xs, ys, i - 1);
    }
  }

  lemma AtOne(w: World, s: Stmt)
    ensures At(w, [s], 1) == Exec(w, s)
  {
    assert At(w, [s], 0) == w;
  }

  lemma AtJoin(w: World, xs: seq<Stmt>, ys: seq<Stmt>, zs: seq<Stmt>)
    ensures At(w, xs + ys + zs, |xs|) == At(w, xs, |xs|)
    ensures At(w, xs + ys + zs, |xs| + |ys|) == At(At(w, xs, |xs|), ys, |ys|)
  {
    assert xs + ys + zs == xs + (ys + zs);
    AtPrefix(w, xs, ys + zs, |xs|);
    AtPrefix(w, xs + ys, zs, |xs| + |ys|);
    AtConcat(w, xs, ys, |ys|);
  }

  // Where in the run the claim reads the prior watermark, and where it tries to steal.
  function ReadIndex(others: Between): nat {
    |others.first| + 1 + |others.second|
  }

  function StealIndex(others: Between): nat {
    ReadIndex(others) + |others.third|
  }

  lemma WholeRunWorlds(w: World, bid: Bid, others: Between)
    ensures |WholeRun(bid, others)| == StealIndex(others) + 1 + |others.last|
    ensures At(w, WholeRun(bid, others), ReadIndex(others)) == AtRead(w, bid, others)
    ensures At(w, WholeRun(bid, others), StealIndex(others)) == AtSteal(w, bid, others)
  {
    var insert := [Insert(bid.key, bid.row)];
    var tail := [Steal(bid.key, bid.seat, bid.row)] + others.last;
    var head := others.first + insert + others.second;
    AtConcat(w, others.first, insert, 1);
    AtOne(AtInsert(w, others), insert[0]);
    AtConcat(w, others.first + insert, others.second, |others.second|);
    AtJoin(w, head, others.third, tail);
    assert WholeRun(bid, others) == head + others.third + tail;
  }

  /**
   The catch-up point of a grant: none when nobody held the key, and for a steal exactly what the
   row showed at the read between insert and steal, its last report or else its claim time; so it
   is a watermark shown up to the steal, what `WatchCatchUp` calls a mark.
   */
  lemma CatchUpIsAMark(w: World, bid: Bid, others: Between)
    requires Path(w, bid, others).verdict.Granted?
    ensures var v := Path(w, bid, others).verdict;
            var run := WholeRun(bid, others);
            && StealIndex(others) <= |run|
            && (!v.stolen ==> v.catchUpAfter == None)
            && (v.stolen ==>
                  var read := At(w, run, ReadIndex(others));
                  && (v.catchUpAfter.Some? <==> bid.key in read.claims)
                  && (bid.key in read.claims ==>
                        var row := read.claims[bid.key];
                        v.catchUpAfter == Some(if row.fetchedThrough.Some? then row.fetchedThrough.value else row.claimedAt)))
            && (v.catchUpAfter.Some? ==> ShownBy(w, run, bid.key, StealIndex(others), v.catchUpAfter.value))
  {
    WholeRunWorlds(w, bid, others);
  }

  // Time does not run backwards over a call.
  lemma PathClock(w: World, bid: Bid, others: Between)
    ensures Path(w, bid, others).end.now >= w.now
    ensures AtInsert(w, others).now >= w.now && AtSteal(w, bid, others).now >= w.now
  {
    ClockRuns(w, others.first, |others.first|);
    ClockRuns(Exec(AtInsert(w, others), Insert(bid.key, bid.row)), others.second, |others.second|);
    ClockRuns(AtRead(w, bid, others), others.third, |others.third|);
    ClockRuns(AtSteal(w, bid, others), others.last, |others.last|);
  }

  /**
   A granted claim begins a lease that its own beats keep: from the tables the call leaves, through
   any run in which it beats at least every 150 seconds and reports what is older than 450.
   */
  lemma GrantIsKept(w: World, seat: string, nonce: string, listen: seq<string>, host: Option<string>, seatNonce: Option<string>,
                    others: Between, run: seq<Stmt>, i: nat)
    requires Path(w, Mine(seat, nonce, listen, host, seatNonce, w.now), others).verdict.Granted? && i <= |run|
    requires var key := ClaimKey(seat, NonEmpty(listen), host);
             var end := Path(w, Mine(seat, nonce, listen, host, seatNonce, w.now), others).end;
             && Punctual(end, run, key, nonce, w.now) && Reports(end, run, key, nonce, NonEmpty(listen))
             && Undisturbed(end, run, key, seat, nonce, seatNonce)
    ensures var key := ClaimKey(seat, NonEmpty(listen), host);
            var end := Path(w, Mine(seat, nonce, listen, host, seatNonce, w.now), others).end;
            && key in end.claims && NewLease(end.claims[key], nonce, seatNonce, listen, w.now)
            && key in At(end, run, i).claims && SameLease(end.claims[key], At(end, run, i).claims[key])
            && (i < |run| && OwnBeat(run[i], key, nonce) ==> Hits(At(end, run, i), run[i]))
  {
    var bid := Mine(seat, nonce, listen, host, seatNonce, w.now);
    PathClock(w, bid, others);
    NonEmptyKeeps(listen);
    var end := Path(w, bid, others).end;
    assert bid.key in end.claims && end.claims[bid.key] == bid.row by { hide At, Stealable; }
    hide Path, Punctual, Reports, Undisturbed, Exec;
    BeatsKeepTheLease(end, run, bid.key, seat, bid.row, i);
  }

  class Store {
    var claims: map<string, Row>
    var seats: set<SeatRow>
    var mail: set<Mail>
    var now: int

    constructor (seats: set<SeatRow>, mail: set<Mail>, now: int)
      ensures Current() == World(map[], seats, mail, now)
    {
      this.claims, this.seats, this.mail, this.now := map[], seats, mail, now;
    }

    function Current(): World
      reads this
    {
      World(claims, seats, mail, now)
    }

    // Statements of other processes, and time, one after the other.
    method Others(stmts: seq<Stmt>)
      modifies this
      ensures Current() == At(old(Current()), stmts, |stmts|)
    {
      var w := World(claims, seats, mail, now);
      for i := 0 to |stmts|
        invariant w == At(old(Current()), stmts, i)
      {
        w := Exec(w, stmts[i]);
      }
      claims, seats, mail, now := w.claims, w.seats, w.mail, w.now;
    }

    /**
     `watch_claim`.  The four lists are what other processes do before the insert, between the
     insert and the read of the prior watermark, between that and the steal, and after the steal.
     The call is the run that interleaves its own statements with theirs, and its verdict is what
     its statements met there.
     */
    method Claim(seat: string, nonce: string, listen: seq<string>, host: Option<string>, seatNonce: Option<string>, others: Between)
      returns (v: Verdict)
      modifies this
      ensures v.PartialRefused? <==> !Hears(seat, listen)
      ensures v.PartialRefused? ==> Current() == old(Current())
      ensures Hears(seat, listen) ==>
                var p := Path(old(Current()), Mine(seat, nonce, listen, host, seatNonce, old(now)), others);
                Current() == p.end && v == p.verdict
      // what the row then says: this claimant, its session, what it listens to, the time of the call
      ensures v.Granted? ==>
                var key := ClaimKey(seat, NonEmpty(listen), host);
                key in claims && NewLease(claims[key], nonce, seatNonce, listen, old(now)) && old(now) <= now
      // whoever is granted the watch hears the seat
      ensures v.Granted? ==> exists k | k in claims :: KeyMatches(seat, k) && claims[k].nonce == nonce && Hears(seat, claims[k].listenSet)
    {
      var normalized := NonEmpty(listen);
      NonEmptyKeeps(listen);
      if seat == "" || !exists a | a in normalized :: a == seat || Before(a, '@') == seat {
        return PartialRefused;
      }
      var row := Row(nonce, seatNonce, normalized, now, now, None);
      var key := ClaimKey(seat, normalized, host);
      OwnKeyMatches(seat, normalized, host);

      hide Exec, Hits, At, Stealable, RetryAfter;
      PathClock(old(Current()), Bid(key, seat, row), others);
      Others(others.first);
      var inserted := TryInsert(key, row);
      if inserted {
        assert KeyMatches(seat, key) && key in claims && Hears(seat, claims[key].listenSet);
        return Granted(false, None);
      }

      Others(others.second);
      var prior := if key in claims then Some(Watermark(claims[key])) else None;

      Others(others.third);
      var stolen := TrySteal(key, seat, row);
      if stolen {
        assert KeyMatches(seat, key) && key in claims && Hears(seat, claims[key].listenSet);
        return Granted(true, prior);
      }

      Others(others.last);
      var retry := if key in claims then RetryAfter(World(claims, seats, mail, now), claims[key]) else EXPIRY;
      return Held(retry);
    }

    // INSERT ... ON CONFLICT DO NOTHING
    method TryInsert(key: string, row: Row) returns (hit: bool)
      modifies this`claims
      ensures hit == Hits(old(Current()), Insert(key, row)) && Current() == Exec(old(Current()), Insert(key, row))
      ensures hit ==> key in claims && claims[key] == row
    {
      hit := key !in claims;
      if hit {
        claims := claims[key := row];
      }
    }

    // UPDATE ... WHERE one of the three steal conditions
    method TrySteal(key: string, seat: string, row: Row) returns (hit: bool)
      modifies this`claims
      ensures hit == Hits(old(Current()), Steal(key, seat, row)) && Current() == Exec(old(Current()), Steal(key, seat, row))
      ensures hit ==> key in claims && claims[key] == row
    {
      hit := key in claims && Stealable(World(claims, seats, mail, now), claims[key], seat, row.seatNonce);
      if hit {
        claims := claims[key := row];
      }
    }

    /** `watch_beat`: `holder` is answered exactly when a row of the seat carries the caller's nonce at that instant. */
    method Beat(seat: string, nonce: string, fetched: Option<int>) returns (holder: bool)
      modifies this`claims
      ensures holder <==> exists k | k in old(claims) :: KeyMatches(seat, k) && old(claims)[k].nonce == nonce
      ensures Current() == Exec(old(Current()), WatchClaim.Beat(seat, nonce, fetched))
      ensures !holder ==> Current() == old(Current())
      ensures claims.Keys == old(claims).Keys
      ensures forall k | k in claims ::
                claims[k] == if (k == "watch/" + seat || (seat == "admin" && StartsWith(k, "watch/admin@"))) && old(claims)[k].nonce == nonce
                             then old(claims)[k].(lastBeat := now, fetchedThrough := if fetched.Some? then fetched else old(claims)[k].fetchedThrough)
                             else old(claims)[k]
    {
      assert "watch/" + "admin" + "@" == "watch/admin@";
      holder := exists k | k in claims :: KeyMatches(seat, k) && claims[k].nonce == nonce;
      var hit := set k | k in claims && KeyMatches(seat, k) && claims[k].nonce == nonce;
      claims := map k | k in claims :: if k in hit then Beaten(claims[k], now, fetched) else claims[k];
    }

    /** `watch_release`: frees the slot only while the caller still holds it. */
    method Release(seat: string, nonce: string) returns (released: bool)
      modifies this`claims
      ensures released <==> exists k | k in old(claims) :: KeyMatches(seat, k) && old(claims)[k].nonce == nonce
      ensures Current() == Exec(old(Current()), WatchClaim.Release(seat, nonce))
      ensures !released ==> Current() == old(Current())
    {
      released := exists k | k in claims :: KeyMatches(seat, k) && claims[k].nonce == nonce;
      var hit := set k | k in claims && KeyMatches(seat, k) && claims[k].nonce == nonce;
      claims := claims - hit;
    }
  }
}
