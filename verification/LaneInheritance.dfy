/**
 Death certificates, the lane read-cursor they feed, and the read marks a new occupant inherits
 from it (server/services/session_registry.py), together with the acks that start it all
 (server/services/memory_service.py).
 */
module LaneInheritance {
  import opened Common
  import opened SeatLadder
  import R = SeatRelease

  datatype Letter = Letter(to: string, readBy: set<string>, resolved: bool)

  datatype Applied = Applied(reader: string, cert: Option<Idem>)

  datatype Cursor = Cursor(ids: set<string>, lastCert: Option<Idem>, applied: seq<Applied>)

  // A certificate is filed under the session key, or without one under the seat and the time of death.
  datatype Idem = ByKey(key: string) | BySeat(seat: string, diedAt: int)

  datatype Death = Death(key: string, seat: string, lane: string, host: string, diedAt: int, nonce: Option<string>)

  datatype State = State(
    inbox: map<string, Letter>,
    cursors: map<string, Cursor>,
    deaths: map<Idem, Death>,
    world: World)

  function IdemOf(d: Death): Idem {
    if d.key != "" then ByKey(d.key) else BySeat(d.seat, d.diedAt)
  }

  function Reader(seat: string, host: string): string {
    seat + "@" + host
  }

  // ----- the calls -----

  function Marked(inbox: map<string, Letter>, ids: set<string>, reader: string): map<string, Letter> {
    map id | id in inbox :: if id in ids then inbox[id].(readBy := inbox[id].readBy + {reader}) else inbox[id]
  }

  // The record is replaced only by a later death.
  function Filed(deaths: map<Idem, Death>, d: Death): map<Idem, Death> {
    if IdemOf(d) in deaths && deaths[IdemOf(d)].diedAt >= d.diedAt then deaths else deaths[IdemOf(d) := d]
  }

  // SQL's LIKE: % stands for any text, _ for any one character.
  predicate Like(pattern: string, s: string)
    decreases |pattern| + |s|
  {
    if pattern == "" then s == ""
    else if pattern[0] == '%' then Like(pattern[1..], s) || (s != "" && Like(pattern, s[1..]))
    else s != "" && (pattern[0] == '_' || pattern[0] == s[0]) && Like(pattern[1..], s[1..])
  }

  // The readers a certificate stands for: its host's, or without a host whatever the pattern matches.
  predicate Names(d: Death, reader: string) {
    if d.host != "" then reader == Reader(d.seat, d.host) else Like(d.seat + "@%", reader)
  }

  /** What the dead occupant had read at addresses that outlive it. */
  function Harvest(inbox: map<string, Letter>, d: Death): set<string> {
    if d.lane == "" || d.seat == "" then {}
    else set id | id in inbox && (exists r | r in inbox[id].readBy :: Names(d, r))
                  && inbox[id].to != d.seat && !StartsWith(inbox[id].to, "machine:")
  }

  function CursorIds(cursors: map<string, Cursor>, lane: string): set<string> {
    if lane in cursors then cursors[lane].ids else {}
  }

  function Fed(s: State, d: Death): map<string, Cursor> {
    if d.lane == "" || d.seat == "" then s.cursors
    else
      var ids := CursorIds(s.cursors, d.lane) + Harvest(s.inbox, d);
      s.cursors[d.lane := if d.lane in s.cursors then s.cursors[d.lane].(ids := ids, lastCert := Some(IdemOf(d)))
                          else Cursor(ids, Some(IdemOf(d)), [])]
  }

  // `death_certify`
  function Buried(s: State, d: Death): State {
    s.(deaths := Filed(s.deaths, d),
       world := if d.seat == "" then s.world else R.Certified(s.world, d.seat, Cert(d.diedAt, d.nonce)),
       cursors := Fed(s, d))
  }

  predicate LiveColleague(w: World, seat: string, provider: string) {
    exists p | p in w.seats :: p != seat && w.seats[p].provider == provider && IsFresh(w, p)
  }

  /** Succession, or the same logical session returning. */
  predicate MayInherit(s: State, seat: string, provider: string, key: string) {
    (key != "" && ByKey(key) in s.deaths) || !LiveColleague(s.world, seat, provider)
  }

  predicate Inherits(project: string, s: State, seat: string, provider: string, host: Option<string>, key: string) {
    && host.Some? && host.value != ""
    && CursorIds(s.cursors, project + "-" + provider) != {}
    && MayInherit(s, seat, provider, key)
  }

  function LastSixteen(xs: seq<Applied>): seq<Applied> {
    if |xs| <= 16 then xs else xs[|xs| - 16..]
  }

  // `_apply_lane_inheritance`
  function Seated(project: string, s: State, seat: string, provider: string, host: Option<string>, key: string): State {
    if Inherits(project, s, seat, provider, host, key) then
      var lane := project + "-" + provider;
      var cursor := s.cursors[lane];
      var reader := Reader(seat, host.value);
      s.(inbox := Marked(s.inbox, cursor.ids, reader),
         cursors := s.cursors[lane := cursor.(applied := LastSixteen(cursor.applied + [Applied(reader, cursor.lastCert)]))])
    else s
  }

  datatype Op =
    | Send(id: string, to: string)
    | Ack(id: string, reader: string)
    | Resolve(id: string, resolver: Option<string>)
    | Certify(death: Death)
    | Occupy(seat: string, provider: string, host: Option<string>, key: string)
    | Registry(world: World)       // whatever else happens to seats, presence and time

  function Apply(project: string, s: State, op: Op): State {
    match op
    case Send(id, to) => if id in s.inbox then s else s.(inbox := s.inbox[id := Letter(to, {}, false)])
    case Ack(id, reader) => s.(inbox := Marked(s.inbox, {id}, reader))
    case Resolve(id, resolver) =>
      if id !in s.inbox then s
      else
        var letter := s.inbox[id].(resolved := true);
        s.(inbox := s.inbox[id := if resolver.Some? then letter.(readBy := letter.readBy + {resolver.value}) else letter])
    case Certify(death) => Buried(s, death)
    case Occupy(seat, provider, host, key) => Seated(project, s, seat, provider, host, key)
    case Registry(world) => s.(world := world)
  }

  function At(project: string, s: State, run: seq<Op>, i: nat): State
    requires i <= |run|
  {
    if i == 0 then s else Apply(project, At(project, s, run, i - 1), run[i - 1])
  }

  // ----- read marks trace back -----

  predicate Acks(op: Op, id: string, reader: string) {
    op == Ack(id, reader) || op == Resolve(id, Some(reader))
  }

  // The step by which a reader inherits a mark from its lane's cursor.
  predicate Passes(project: string, s: State, op: Op, id: string, reader: string) {
    && op.Occupy? && op.host.Some? && reader == Reader(op.seat, op.host.value)
    && id in CursorIds(s.cursors, project + "-" + op.provider)
    && MayInherit(s, op.seat, op.provider, op.key)
  }

  // The step by which a letter comes into a lane's cursor: its dead reader had the mark.
  predicate Collects(s: State, op: Op, id: string, lane: string) {
    && op.Certify? && op.death.lane == lane && id in Harvest(s.inbox, op.death)
  }

  ghost predicate HasMark(s: State, id: string, reader: string) {
    id in s.inbox && reader in s.inbox[id].readBy
  }

  lemma NewMark(project: string, s: State, op: Op, id: string, reader: string)
    requires HasMark(Apply(project, s, op), id, reader)
    ensures HasMark(s, id, reader) || Acks(op, id, reader) || Passes(project, s, op, id, reader)
  {
  }

  lemma NewCursorId(project: string, s: State, op: Op, id: string, lane: string)
    requires id in CursorIds(Apply(project, s, op).cursors, lane)
    ensures id in CursorIds(s.cursors, lane) || Collects(s, op, id, lane)
  {
  }

  // Nothing read, no cursor.
  predicate Unread(s: State) {
    s.cursors == map[] && forall id | id in s.inbox :: s.inbox[id].readBy == {}
  }

  ghost predicate AckedBefore(run: seq<Op>, i: nat, id: string, reader: string)
    requires i <= |run|
  {
    exists k :: 0 <= k < i && Acks(run[k], id, reader)
  }

  ghost predicate PassedBefore(project: string, s: State, run: seq<Op>, i: nat, id: string, reader: string)
    requires i <= |run|
  {
    exists k :: 0 <= k < i && Passes(project, At(project, s, run, k), run[k], id, reader)
  }

  /** A reader is in a letter's `read_by` only if it acked or resolved it, or inherited it through its lane's cursor. */
  lemma {:induction false} MarksAreEarnedOrInherited(project: string, s: State, run: seq<Op>, i: nat, id: string, reader: string)
    requires i <= |run| && Unread(s) && HasMark(At(project, s, run, i), id, reader)
    ensures AckedBefore(run, i, id, reader) || PassedBefore(project, s, run, i, id, reader)
    decreases i
  {
    if i > 0 {
      var v := At(project, s, run, i - 1);
      NewMark(project, v, run[i - 1], id, reader);
      hide Apply, Passes;
      if HasMark(v, id, reader) {
        MarksAreEarnedOrInherited(project, s, run, i - 1, id, reader);
      }
    }
  }

  /** A letter is in a lane's cursor only because a certificate for the lane named a reader that had the mark. */
  lemma {:induction false} CursorsAreHarvested(project: string, s: State, run: seq<Op>, i: nat, id: string, lane: string) returns (k: nat)
    requires i <= |run| && Unread(s) && id in CursorIds(At(project, s, run, i).cursors, lane)
    ensures k < i && Collects(At(project, s, run, k), run[k], id, lane)
    decreases i
  {
    var v := At(project, s, run, i - 1);
    NewCursorId(project, v, run[i - 1], id, lane);
    hide Apply, Collects;
    if Collects(v, run[i - 1], id, lane) {
      k := i - 1;
    } else {
      k := CursorsAreHarvested(project, s, run, i - 1, id, lane);
    }
  }

  /** Every read mark, and so every cursor entry, goes back to a real ack of that letter by somebody. */
  lemma {:induction false} EveryMarkHasARealAck(project: string, s: State, run: seq<Op>, i: nat, id: string, reader: string)
    returns (k: nat, first: string)
    requires i <= |run| && Unread(s) && HasMark(At(project, s, run, i), id, reader)
    ensures k < i && Acks(run[k], id, first)
    decreases i
  {
    MarksAreEarnedOrInherited(project, s, run, i, id, reader);
    if AckedBefore(run, i, id, reader) {
      k :| 0 <= k < i && Acks(run[k], id, reader);
      first := reader;
    } else {
      var j :| 0 <= j < i && Passes(project, At(project, s, run, j), run[j], id, reader);
      var h := CursorsAreHarvested(project, s, run, j, id, project + "-" + run[j].provider);
      var dead :| dead in At(project, s, run, h).inbox[id].readBy && Names(run[h].death, dead);
      k, first := EveryMarkHasARealAck(project, s, run, h, id, dead);
    }
  }

  // ----- whose reading a certificate collects -----

  predicate IsWild(c: char) {
    c == '_' || c == '%'
  }

  lemma {:induction false} LikeLiteral(p: string, rest: string, s: string)
    requires forall i | 0 <= i < |p| :: !IsWild(p[i])
    ensures Like(p + rest, s) <==> |p| <= |s| && s[..|p|] == p && Like(rest, s[|p|..])
  {
    if p == "" {
      assert p + rest == rest;
    } else {
      assert (p + rest)[1..] == p[1..] + rest;
      if s != "" {
        LikeLiteral(p[1..], rest, s[1..]);
        if |p| <= |s| {
          assert s[|p|..] == s[1..][|p| - 1..];
          assert s[..|p|] == [s[0]] + s[1..][..|p| - 1];
          assert p == [p[0]] + p[1..];
        }
      }
    }
  }

  lemma {:induction false} LikeAnything(s: string)
    ensures Like("%", s)
  {
    if s == "" { assert Like("", s); } else { LikeAnything(s[1..]); }
  }

  // A text the pattern matches that shares no wildcard with it.
  function Instance(p: string): (s: string)
    ensures |s| == |p|
    ensures forall i | 0 <= i < |p| :: s[i] == if IsWild(p[i]) then 'x' else p[i]
  {
    seq(|p|, i requires 0 <= i < |p| => if IsWild(p[i]) then 'x' else p[i])
  }

  lemma {:induction false} InstanceMatches(p: string, rest: string, t: string)
    requires Like(rest, t)
    ensures Like(p + rest, Instance(p) + t)
  {
    if p == "" {
      assert p + rest == rest && Instance(p) + t == t;
    } else {
      InstanceMatches(p[1..], rest, t);
      assert (p + rest)[1..] == p[1..] + rest;
      assert (Instance(p) + t)[1..] == Instance(p[1..]) + t;
      if p[0] == '%' {
        assert Like(p + rest, (Instance(p) + t)[1..]);
      }
    }
  }

  // The reader is the seat, at some host.
  predicate OwnReader(seat: string, reader: string) {
    StartsWith(reader, seat + "@")
  }

  lemma NamesOwnIff(d: Death)
    requires d.host == ""
    ensures (forall reader :: Names(d, reader) ==> OwnReader(d.seat, reader)) <==> forall i | 0 <= i < |d.seat| :: !IsWild(d.seat[i])
  {
    var p := d.seat + "@";
    assert d.seat + "@%" == p + "%";
    if forall i | 0 <= i < |d.seat| :: !IsWild(d.seat[i]) {
      forall reader ensures Names(d, reader) ==> OwnReader(d.seat, reader) {
        LikeLiteral(p, "%", reader);
      }
    } else {
      var stranger := StrangerOf(d);
      assert Names(d, stranger);
    }
  }

  // A reader that is not the seat's and is matched all the same.
  lemma StrangerOf(d: Death) returns (stranger: string)
    requires d.host == "" && exists i :: 0 <= i < |d.seat| && IsWild(d.seat[i])
    ensures Names(d, stranger) && !OwnReader(d.seat, stranger)
  {
    stranger := Instance(d.seat) + "@";
    LikeAnything("");
    LikeLiteral("@", "%", "@");
    assert "@"[1..] == "" && "@"[..1] == "@" && "@" + "%" == "@%";
    InstanceMatches(d.seat, "@%", "@");
    var i :| 0 <= i < |d.seat| && IsWild(d.seat[i]);
    assert stranger[i] == 'x';
    assert stranger[..|d.seat| + 1][i] != (d.seat + "@")[i];
  }

  ghost predicate CollectsOwnOnly(d: Death) {
    forall inbox: map<string, Letter>, id ::
      id in Harvest(inbox, d) ==> exists r :: r in inbox[id].readBy && OwnReader(d.seat, r)
  }

  /**
   Whose reading a certificate collects.  With a host, exactly its own reader's.  Without one, over
   all inboxes only the seat's own readers' if and only if the seat name has no pattern character:
   an underscore or a percent sign lets a neighbouring seat's reading in.
   */
  lemma CollectsOwnIff(d: Death)
    requires d.lane != "" && d.seat != ""
    ensures CollectsOwnOnly(d) <==> d.host != "" || forall i | 0 <= i < |d.seat| :: !IsWild(d.seat[i])
  {
    if d.host != "" {
      var own := Reader(d.seat, d.host);
      assert own[..|d.seat| + 1] == d.seat + "@";
      forall inbox: map<string, Letter>, id | id in Harvest(inbox, d)
        ensures exists r :: r in inbox[id].readBy && OwnReader(d.seat, r)
      {
        assert own in inbox[id].readBy && OwnReader(d.seat, own);
      }
    } else if forall i | 0 <= i < |d.seat| :: !IsWild(d.seat[i]) {
      NamesOwnIff(d);
      forall inbox: map<string, Letter>, id | id in Harvest(inbox, d)
        ensures exists r :: r in inbox[id].readBy && OwnReader(d.seat, r)
      {
        var r :| r in inbox[id].readBy && Names(d, r);
        assert OwnReader(d.seat, r);
      }
    } else {
      var stranger := StrangerOf(d);
      var inbox := map["m" := Letter(if d.seat == "a" then "b" else "a", {stranger}, false)];
      assert stranger in inbox["m"].readBy;
      assert "m" in Harvest(inbox, d);
      assert forall r | r in inbox["m"].readBy :: r == stranger;
    }
  }

  /**
   A live colleague on the lane blocks inheritance cold, unless the claimant's own key is
   certified; without either, a claimant with a host inherits exactly the cursor.
   */
  lemma InheritanceIsSuccession(project: string, s: State, seat: string, provider: string, host: string, key: string, id: string)
    requires host != "" && id in s.inbox
    ensures var after := Apply(project, s, Occupy(seat, provider, Some(host), key));
            var cursor := CursorIds(s.cursors, project + "-" + provider);
            && (LiveColleague(s.world, seat, provider) && !(key != "" && ByKey(key) in s.deaths) ==> after == s)
            && id in after.inbox
            && (MayInherit(s, seat, provider, key) ==>
                  after.inbox[id].readBy == if id in cursor then s.inbox[id].readBy + {Reader(seat, host)} else s.inbox[id].readBy)
            && forall lane :: CursorIds(after.cursors, lane) == CursorIds(s.cursors, lane)
  {
  }

  /** An inheritance leaves its trace on the cursor: the reader and the certificate it inherited by, last of at most sixteen. */
  lemma InheritanceIsRecorded(project: string, s: State, seat: string, provider: string, host: string, key: string)
    requires Inherits(project, s, seat, provider, Some(host), key)
    ensures var lane := project + "-" + provider;
            var after := Seated(project, s, seat, provider, Some(host), key).cursors;
            && lane in s.cursors && lane in after
            && var applied := after[lane].applied;
               && 1 <= |applied| <= 16
               && applied[|applied| - 1] == Applied(seat + "@" + host, s.cursors[lane].lastCert)
               && (|s.cursors[lane].applied| < 16 ==> applied[..|applied| - 1] == s.cursors[lane].applied)
  {
  }

  // ----- the cursor is the union of its harvests -----

  function Harvests(project: string, s: State, run: seq<Op>, i: nat, lane: string): set<string>
    requires i <= |run|
    decreases i
  {
    if i == 0 then CursorIds(s.cursors, lane)
    else Harvests(project, s, run, i - 1, lane)
         + (if run[i - 1].Certify? && run[i - 1].death.lane == lane
            then Harvest(At(project, s, run, i - 1).inbox, run[i - 1].death) else {})
  }

  lemma CursorStep(project: string, s: State, op: Op, lane: string)
    ensures CursorIds(Apply(project, s, op).cursors, lane)
            == CursorIds(s.cursors, lane) + (if op.Certify? && op.death.lane == lane then Harvest(s.inbox, op.death) else {})
  {
  }

  /** With calls atomic the cursor is the union of all harvests of its lane. */
  lemma {:induction false} CursorIsUnionOfHarvests(project: string, s: State, run: seq<Op>, i: nat, lane: string)
    requires i <= |run|
    ensures CursorIds(At(project, s, run, i).cursors, lane) == Harvests(project, s, run, i, lane)
    decreases i
  {
    if i > 0 {
      CursorIsUnionOfHarvests(project, s, run, i - 1, lane);
      CursorStep(project, At(project, s, run, i - 1), run[i - 1], lane);
    }
  }

  // ----- the certificate row keeps the latest death -----

  ghost predicate Reports(op: Op, idem: Idem) {
    op.Certify? && IdemOf(op.death) == idem
  }

  /**
   Whatever the delivery order and however often certificates repeat, the row holds a
   certificate that was delivered and none delivered for it names a later death.
   */
  lemma {:induction false} LatestDeathIsKept(project: string, s: State, run: seq<Op>, i: nat, idem: Idem)
    requires i <= |run| && idem !in s.deaths
    ensures var deaths := At(project, s, run, i).deaths;
            && (idem in deaths <==> exists k :: 0 <= k < i && Reports(run[k], idem))
            && (idem in deaths ==>
                  && (exists k :: 0 <= k < i && Reports(run[k], idem) && run[k].death == deaths[idem])
                  && forall k :: 0 <= k < i && Reports(run[k], idem) ==> run[k].death.diedAt <= deaths[idem].diedAt)
    decreases i
  {
    if i > 0 {
      LatestDeathIsKept(project, s, run, i - 1, idem);
      var v := At(project, s, run, i - 1);
      DeathStep(project, v, run[i - 1], idem);
      var after := At(project, s, run, i).deaths;
      hide Apply, At;
      if Reports(run[i - 1], idem) {
        assert idem in after;
      } else if idem in v.deaths {
        assert after[idem] == v.deaths[idem];
      }
    }
  }

  lemma DeathStep(project: string, s: State, op: Op, idem: Idem)
    ensures var after := Apply(project, s, op).deaths;
            if Reports(op, idem) then
              && idem in after
              && after[idem] == (if idem in s.deaths && s.deaths[idem].diedAt >= op.death.diedAt then s.deaths[idem] else op.death)
            else (idem in after <==> idem in s.deaths) && (idem in s.deaths ==> after[idem] == s.deaths[idem])
  {
  }

  // The last certificate delivered for a seat.
  function LastFor(run: seq<Op>, seat: string, i: nat): Option<Death>
    requires i <= |run|
    decreases i
  {
    if i == 0 then None
    else if run[i - 1].Certify? && run[i - 1].death.seat == seat then Some(run[i - 1].death)
    else LastFor(run, seat, i - 1)
  }

  // The seat row stays, and nothing but certificates touches its mark.
  ghost predicate OnlyCertsMark(project: string, s: State, run: seq<Op>, seat: string) {
    && seat in s.world.seats
    && forall k | 0 <= k < |run| && run[k].Registry? ::
         seat in run[k].world.seats && seat in At(project, s, run, k).world.seats
         && run[k].world.seats[seat].cert == At(project, s, run, k).world.seats[seat].cert
  }

  lemma MarkStep(project: string, s: State, op: Op, seat: string)
    requires seat in s.world.seats && seat != ""
    requires op.Registry? ==> seat in op.world.seats && op.world.seats[seat].cert == s.world.seats[seat].cert
    ensures var after := Apply(project, s, op).world.seats;
            && seat in after
            && after[seat].cert == if op.Certify? && op.death.seat == seat then Some(Cert(op.death.diedAt, op.death.nonce))
                                   else s.world.seats[seat].cert
  {
  }

  lemma {:induction false} MarkIsLastDelivered(project: string, s: State, run: seq<Op>, i: nat, seat: string)
    requires i <= |run| && OnlyCertsMark(project, s, run, seat) && seat != ""
    ensures var seats := At(project, s, run, i).world.seats;
            && seat in seats
            && seats[seat].cert == if LastFor(run, seat, i).Some?
                                   then Some(Cert(LastFor(run, seat, i).value.diedAt, LastFor(run, seat, i).value.nonce))
                                   else s.world.seats[seat].cert
    decreases i
  {
    if i > 0 {
      MarkIsLastDelivered(project, s, run, i - 1, seat);
      MarkStep(project, At(project, s, run, i - 1), run[i - 1], seat);
      hide Apply;
    }
  }

  // Certificates for the seat are those of one session key.
  predicate OneKey(run: seq<Op>, seat: string, key: string) {
    forall k | 0 <= k < |run| && run[k].Certify? :: run[k].death.seat == seat <==> run[k].death.key == key
  }

  // No certificate for the seat tells of a later death than the last one delivered.
  predicate LastIsLatest(run: seq<Op>, seat: string, last: Death, i: nat)
    requires i <= |run|
  {
    forall k | 0 <= k < i && run[k].Certify? && run[k].death.seat == seat :: run[k].death.diedAt <= last.diedAt
  }

  lemma {:induction false} LastForIsDelivered(run: seq<Op>, seat: string, i: nat)
    requires i <= |run| && LastFor(run, seat, i).Some?
    ensures exists k :: 0 <= k < i && run[k].Certify? && run[k].death.seat == seat && run[k].death == LastFor(run, seat, i).value
    decreases i
  {
    if !(run[i - 1].Certify? && run[i - 1].death.seat == seat) {
      LastForIsDelivered(run, seat, i - 1);
    }
  }

  /**
   The certificate row is monotonic in the time of death, the mark on the seat row is not: over any
   run the two tell the same death if and only if the last certificate delivered is a latest one.
   */
  lemma SeatMarkIsLatestIff(project: string, s: State, run: seq<Op>, i: nat, seat: string, key: string)
    requires i <= |run| && OnlyCertsMark(project, s, run, seat) && seat != "" && key != "" && OneKey(run, seat, key)
    requires ByKey(key) !in s.deaths && LastFor(run, seat, i).Some?
    ensures var after := At(project, s, run, i);
            && ByKey(key) in after.deaths && seat in after.world.seats && after.world.seats[seat].cert.Some?
            && (after.world.seats[seat].cert.value.at == after.deaths[ByKey(key)].diedAt
                <==> LastIsLatest(run, seat, LastFor(run, seat, i).value, i))
  {
    MarkIsLastDelivered(project, s, run, i, seat);
    LatestDeathIsKept(project, s, run, i, ByKey(key));
    LastForIsDelivered(run, seat, i);
    hide At, OnlyCertsMark;
    assert forall k | 0 <= k < i && run[k].Certify? :: Reports(run[k], ByKey(key)) <==> run[k].death.seat == seat;
  }

  // ----- the same in plain letters and readers -----

  // Read by the dead occupant, and at an address that outlives it.
  predicate ReadByTheDead(l: Letter, d: Death) {
    && l.to != d.seat && !StartsWith(l.to, "machine:")
    && if d.host != "" then d.seat + "@" + d.host in l.readBy
       else exists r | r in l.readBy :: StartsWith(r, d.seat + "@")
  }

  // The certificate stands for the seat's own readers only.
  predicate Exact(d: Death) {
    d.host != "" || forall i | 0 <= i < |d.seat| :: d.seat[i] != '_' && d.seat[i] != '%'
  }

  lemma NamesOwn(d: Death, reader: string)
    requires d.host == "" && Exact(d)
    ensures Names(d, reader) <==> StartsWith(reader, d.seat + "@")
  {
    var p := d.seat + "@";
    assert d.seat + "@%" == p + "%";
    LikeLiteral(p, "%", reader);
    if |p| <= |reader| { LikeAnything(reader[|p|..]); }
  }

  /** Exactly the letters a certificate brings into its lane's cursor. */
  lemma CertificateCollectsIff(s: State, d: Death, id: string)
    requires d.lane != "" && d.seat != "" && Exact(d)
    ensures id in CursorIds(Buried(s, d).cursors, d.lane) <==>
              id in CursorIds(s.cursors, d.lane) || (id in s.inbox && ReadByTheDead(s.inbox[id], d))
    ensures forall lane | lane != d.lane :: CursorIds(Buried(s, d).cursors, lane) == CursorIds(s.cursors, lane)
  {
    if d.host == "" {
      forall r ensures Names(d, r) <==> StartsWith(r, d.seat + "@") { NamesOwn(d, r); }
    } else {
      assert Reader(d.seat, d.host) == d.seat + "@" + d.host;
    }
  }

  // Nobody else on the lane has been seen for 600 seconds, or the claimant's own key is certified dead.
  predicate Uncontested(s: State, seat: string, provider: string, key: string) {
    || (key != "" && ByKey(key) in s.deaths)
    || (forall p | p in s.world.seats && p != seat && s.world.seats[p].provider == provider ::
          p in s.world.presence ==> s.world.now - s.world.presence[p].touched >= 600 * SECOND)
  }

  lemma {:induction false} CursorOnlyGrows(project: string, s: State, run: seq<Op>, i: nat, j: nat, lane: string, id: string)
    requires i <= j <= |run| && id in CursorIds(At(project, s, run, i).cursors, lane)
    ensures id in CursorIds(At(project, s, run, j).cursors, lane)
    decreases j
  {
    if i < j {
      CursorOnlyGrows(project, s, run, i, j - 1, lane, id);
      CursorStep(project, At(project, s, run, j - 1), run[j - 1], lane);
    }
  }

  lemma {:induction false} LettersStay(project: string, s: State, run: seq<Op>, i: nat, j: nat, id: string)
    requires i <= j <= |run| && id in At(project, s, run, i).inbox
    ensures id in At(project, s, run, j).inbox
    decreases j
  {
    if i < j { LettersStay(project, s, run, i, j - 1, id); }
  }

  /**
   Succession: after a certificate for an occupant of a lane, whatever happens in between, the next
   uncontested occupant that claims with a host is marked on every letter the dead one had read at
   an address that outlives it; a contested one is marked on nothing.
   */
  lemma SuccessorIsMarked(project: string, s: State, run: seq<Op>, i: nat, j: nat, id: string, provider: string, host: string)
    requires i < j < |run| && run[i].Certify? && run[j].Occupy? && host != ""
    requires run[i].death.lane == project + "-" + provider && run[i].death.seat != "" && Exact(run[i].death)
    requires run[j].provider == provider && run[j].host == Some(host)
    requires id in At(project, s, run, i).inbox && ReadByTheDead(At(project, s, run, i).inbox[id], run[i].death)
    ensures var before := At(project, s, run, j);
            var after := At(project, s, run, j + 1);
            && id in after.inbox
            && (Uncontested(before, run[j].seat, provider, run[j].key) ==> run[j].seat + "@" + host in after.inbox[id].readBy)
            && (!Uncontested(before, run[j].seat, provider, run[j].key) ==> after == before)
  {
    var lane := project + "-" + provider;
    CertificateCollectsIff(At(project, s, run, i), run[i].death, id);
    assert At(project, s, run, i + 1) == Buried(At(project, s, run, i), run[i].death);
    CursorOnlyGrows(project, s, run, i + 1, j, lane, id);
    LettersStay(project, s, run, i, j, id);
    var before := At(project, s, run, j);
    assert At(project, s, run, j + 1) == Apply(project, before, run[j]);
    hide At;
    assert MayInherit(before, run[j].seat, provider, run[j].key) == Uncontested(before, run[j].seat, provider, run[j].key);
  }

  // ----- the calls, working on the tables in place -----

  class Lanes {
    const project: string
    var inbox: map<string, Letter>
    var cursors: map<string, Cursor>
    var deaths: map<Idem, Death>
    var world: World

    constructor (project: string, world: World)
      ensures this.project == project && Current() == State(map[], map[], map[], world)
    {
      this.project, this.world := project, world;
      inbox, cursors, deaths := map[], map[], map[];
    }

    ghost function Current(): State
      reads this
    {
      State(inbox, cursors, deaths, world)
    }

    /** `inbox_ack` */
    method AckLetter(id: string, reader: string) returns (exists': bool)
      modifies this
      ensures Current() == Apply(project, old(Current()), Ack(id, reader))
      ensures exists' == (id in old(inbox))
    {
      exists' := id in inbox;
      ghost var before := inbox;
      if exists' && reader !in inbox[id].readBy {
        inbox := inbox[id := inbox[id].(readBy := inbox[id].readBy + {reader})];
      }
      assert id in before && reader in before[id].readBy ==> before[id].readBy + {reader} == before[id].readBy;
      assert inbox == Marked(before, {id}, reader);
    }

    /** `death_certify`; reports whether the record is new or replaced, and how large the cursor is now. */
    method FileDeath(d: Death) returns (created: bool, updated: bool, cursorSize: nat)
      modifies this
      ensures Current() == Buried(old(Current()), d)
      ensures created <==> IdemOf(d) !in old(deaths)
      ensures updated <==> IdemOf(d) in old(deaths) && old(deaths)[IdemOf(d)].diedAt < d.diedAt
      ensures d.lane != "" && d.seat != "" ==> cursorSize == |CursorIds(cursors, d.lane)|
      // what the cursor gains, letter by letter
      ensures d.lane != "" && d.seat != "" && Exact(d) ==>
                forall id :: id in CursorIds(cursors, d.lane) <==>
                  id in CursorIds(old(cursors), d.lane) || (id in inbox && ReadByTheDead(inbox[id], d))
      ensures inbox == old(inbox) && (d.lane == "" || d.seat == "" ==> cursors == old(cursors))
      ensures d.lane != "" && d.seat != "" ==> d.lane in cursors && cursors[d.lane].lastCert == Some(IdemOf(d))
      // the certificate's record and mark
      ensures IdemOf(d) in deaths && (created || updated ==> deaths[IdemOf(d)] == d) && (!created && !updated ==> deaths == old(deaths))
      ensures d.seat in old(world).seats && d.seat != "" ==>
                d.seat in world.seats && world.seats[d.seat].cert == Some(Cert(d.diedAt, d.nonce))
    {
      if d.lane != "" && d.seat != "" && Exact(d) {
        forall id {
          CertificateCollectsIff(Current(), d, id);
        }
      }
      var idem := IdemOf(d);
      created := idem !in deaths;
      updated := !created && deaths[idem].diedAt < d.diedAt;
      if created || updated {
        deaths := deaths[idem := d];
      }
      if d.seat != "" && d.seat in world.seats {
        world := world.(seats := world.seats[d.seat := world.seats[d.seat].(cert := Some(Cert(d.diedAt, d.nonce)))]);
      }
      cursorSize := 0;
      if d.lane != "" && d.seat != "" {
        var merged := CursorIds(cursors, d.lane) + Harvest(inbox, d);
        cursorSize := |merged|;
        if d.lane !in cursors {
          cursors := cursors[d.lane := Cursor(merged, Some(idem), [])];
        } else {
          cursors := cursors[d.lane := cursors[d.lane].(ids := merged, lastCert := Some(idem))];
        }
      }
    }

    /** `_apply_lane_inheritance` */
    method Inherit(seat: string, provider: string, host: Option<string>, key: string)
      modifies this
      ensures Current() == Seated(project, old(Current()), seat, provider, host, key)
    {
      if host.None? || host.value == "" {
        return;
      }
      var lane := project + "-" + provider;
      if lane !in cursors || cursors[lane].ids == {} {
        return;
      }
      if !(key != "" && ByKey(key) in deaths) {
        var rows := world;
        var peers := set p | p in rows.seats && p != seat && rows.seats[p].provider == provider;
        var todo := peers;
        while todo != {}
          invariant todo <= peers && Current() == old(Current())
          invariant forall p | p in peers - todo :: !IsFresh(rows, p)
          decreases |todo|
        {
          var p :| p in todo;
          todo := todo - {p};
          if IsFresh(rows, p) {
            assert LiveColleague(rows, seat, provider);
            return;
          }
        }
        assert forall p | p in rows.seats && p != seat && rows.seats[p].provider == provider :: p in peers - todo;
        assert !LiveColleague(rows, seat, provider);
      }
      var cursor := cursors[lane];
      var reader := Reader(seat, host.value);
      inbox := Marked(inbox, cursor.ids, reader);
      cursors := cursors[lane := cursor.(applied := LastSixteen(cursor.applied + [Applied(reader, cursor.lastCert)]))];
    }
  }
}
