/** The registry's calls, working on its tables in place. */
module SeatRegistry {
  import opened Common
  import opened SeatLadder
  import opened SeatClaim
  import opened SeatRelease

  class Registry {
    const config: Config
    var seats: map<string, Seat>
    var presence: map<string, Presence>
    var mail: set<string>
    var now: int

    constructor (config: Config, now: int)
      ensures this.config == config && Current() == World(map[], map[], {}, now)
    {
      this.config := config;
      seats, presence, mail, this.now := map[], map[], {}, now;
    }

    ghost function Current(): World
      reads this
    {
      World(seats, presence, mail, now)
    }

    // The first of some rows in the continuity order.
    method FirstOf(base: string, among: set<string>) returns (s: string)
      requires among <= seats.Keys && among != {}
      ensures s == First(seats, base, among)
    {
      var table := seats;
      s :| s in among;
      var rest := among - {s};
      RankTotal(table, base, s, s);
      while rest != {}
        invariant s in among && rest <= among
        invariant forall t | t in among && t !in rest :: RankLe(table, base, s, t)
        decreases |rest|
      {
        var t :| t in rest;
        rest := rest - {t};
        RankTotal(table, base, s, t);
        RankTotal(table, base, t, t);
        if !RankLe(table, base, s, t) {
          forall u | u in among && u !in rest ensures RankLe(table, base, t, u) {
            if u != t { RankTransitive(table, base, t, s, u); }
          }
          s := t;
        }
      }
      assert IsFirst(table, base, among, s);
      FirstIsUnique(table, base, among, s, First(table, base, among));
    }

    /** `seat_claim`. */
    method Claim(q: Request) returns (reply: Reply)
      modifies this
      ensures (Current(), reply) == Claimed(config, old(Current()), q)
    {
      if (q.preferred.Some? && q.preferred.value in EXEMPT) || config.project in EXEMPT {
        return Kept(if q.preferred.Some? then q.preferred.value else config.project);
      }
      var held := set s | s in seats && seats[s].key == q.key;
      assert held == HeldBy(Current(), q.key);
      if held != {} {
        var mine := set s | s in held && seats[s].nonce == q.nonce;
        assert mine == Mine(Current(), q.key, q.nonce);
        var seat := FirstOf(Base(config, q.provider), if mine != {} then mine else held);
        assert seat == Holding(config, Current(), q);
        var closed := mine == {} && q.nonce in seats[seat].superseded;
        if !closed {
          reply := Continue(q, seat, mine);
          return;
        }
      }
      reply := Allocate(q);
    }

    // The claimant keeps its seat, or moves to the one it names.
    method Continue(q: Request, seat: string, mine: set<string>) returns (reply: Reply)
      requires seat in seats && mine == Mine(Current(), q.key, q.nonce)
      modifies this
      ensures (Current(), reply) == Continued(config, old(Current()), q, seat)
    {
      if q.runtime && q.preferred.Some? && q.preferred.value != seat && mine != {} {
        var target := q.preferred.value;
        if Reserved(config, target) {
          return Kept(seat);
        }
        var moved := Move(q, seat, target);
        if moved {
          return Granted(target, false, None, Some(seat), None);
        }
      }
      Refresh(q, seat, mine);
      return Kept(seat);
    }

    // Take the new name if it is free or already the key's, and free the old one unless mail waits there.
    method Move(q: Request, seat: string, target: string) returns (moved: bool)
      requires seat in seats && target != seat
      modifies this
      ensures moved <==> CanMove(old(Current()), q, target)
      ensures Current() == if moved then Moved(old(Current()), q, seat, target) else old(Current())
    {
      var row := Written(q, seats[seat].superseded, true, Some(target), now, now);
      moved := false;
      if target !in seats {
        seats := seats[target := row];
        moved := true;
      } else if seats[target].key == q.key {
        seats := seats[target := row.(created := seats[target].created)];
        moved := true;
      }
      if moved && seat !in mail {
        seats := seats - {seat};
      }
    }

    // Newest wins: write the row for the claimant, then collapse its duplicates.
    method Refresh(q: Request, seat: string, mine: set<string>)
      requires seat in seats && mine == Mine(Current(), q.key, q.nonce)
      modifies this
      ensures Current() == Refreshed(config, old(Current()), q, seat)
    {
      ghost var before := Current();
      var row := seats[seat];
      var displaced := row.superseded;
      if row.nonce != q.nonce {
        displaced := displaced + [row.nonce];
      }
      var asked := Asked(config, q);
      var preferred := row.preferred;
      if preferred.None? && asked != Some(Base(config, q.provider)) {
        preferred := asked;
      }
      seats := seats[seat := Written(q, displaced, row.runtime || (q.runtime && asked == Some(seat)), preferred, now, row.created)];
      assert seats == before.seats[seat := Heir(config, q, row, seat, now)];
      FreeDuplicates(mine - {seat});
      ghost var dupes := set t | t in mine && t != seat && t !in before.mail;
      assert WithoutMail(mine - {seat}, before.mail) == dupes;
      assert dupes == (set t | t in Mine(before, q.key, q.nonce) && t != seat && t !in before.mail);
    }

    // One session holds one seat; a duplicate with open mail is left to age out.
    method FreeDuplicates(dupes: set<string>)
      modifies this
      ensures Current() == old(Current()).(seats := old(seats) - WithoutMail(dupes, old(mail)))
    {
      var table, letters := seats, mail;
      var todo := dupes;
      while todo != {}
        invariant todo <= dupes && Current() == old(Current())
        invariant table == old(seats) - WithoutMail(dupes - todo, letters)
        decreases |todo|
      {
        var t :| t in todo;
        todo := todo - {t};
        if t !in letters {
          table := table - {t};
        }
        Freed(old(seats), dupes, todo, t, letters);
      }
      assert dupes - todo == dupes;
      seats := table;
    }

    // The first candidate the ladder frees and the write then gets.
    method Allocate(q: Request) returns (reply: Reply)
      modifies this
      ensures (Current(), reply) == Allocated(config, old(Current()), q)
    {
      hide Allocation, Candidates, Distinct, Asked, Written;
      var candidates := Candidates(config, q);
      var distinct := Distinct(config, q);
      ghost var before := Current();
      var parked: Option<Reason> := None;
      var i := 0;
      while i < |candidates|
        invariant 0 <= i <= |candidates|
        invariant Current() == before
        invariant forall j | 0 <= j < i :: !Grantable(config, before, q, candidates[j])
        invariant parked == if distinct.Some? && distinct.value in candidates[..i] && Allocation(config, before, q, distinct.value).Skip?
                            then Some(Allocation(config, before, q, distinct.value).reason) else None
      {
        var seat := candidates[i];
        var answer := Allocation(config, World(seats, presence, mail, now), q, seat);
        assert candidates[..i + 1] == candidates[..i] + [seat];
        if answer.Skip? {
          if distinct == Some(seat) {
            parked := Some(answer.reason);
          }
        } else {
          var taken := true;
          var reclaimed := None;
          var created := now;
          if seat in seats {
            var row := seats[seat];
            var cutoff := if CertifiedDead(row) then now else now - LIVE;
            taken := row.touched < cutoff;
            reclaimed := Some(row.key);
            created := row.created;
          }
          if taken {
            FoundIs(config, before, q, candidates, i);
            ParkedIs(config, before, q, candidates, i);
            seats := seats[seat := Written(q, [], q.runtime && Asked(config, q) == Some(seat), distinct, now, created)];
            return Granted(seat, true, reclaimed, None, if distinct != Some(seat) then parked else None);
          }
        }
        i := i + 1;
      }
      return Exhausted;
    }

    /** `seat_release` with a nonce. */
    method Release(key: string, nonce: string, certain: bool) returns (freed: Option<string>)
      modifies this
      ensures Shows(old(Current()), key, nonce, freed)
      ensures Current() == Released(old(Current()), key, nonce, certain, freed)
    {
      var gone := set s | s in seats && seats[s].key == key && seats[s].nonce == nonce;
      assert gone == Mine(Current(), key, nonce);
      seats := seats - gone;
      freed := None;
      if gone != {} {
        var s :| s in gone;
        freed := Some(s);
        if certain && s in presence && s !in seats && NamesAlone(presence[s], nonce) {
          presence := presence[s := presence[s].(releasedAt := Some(now))];
        }
      }
    }

    /** `presence_update`: how many sessions it counts, and whether it calls that a collision. */
    method Beat(name: string, nonce: Option<string>) returns (collision: Option<nat>)
      modifies this
      ensures Current() == Beaten(old(Current()), name, nonce)
      ensures collision.Some? <==> |presence[name].sessions| > 1 && name != "admin"
      ensures collision.Some? ==> collision.value == |presence[name].sessions|
      // both clocks move, a goodbye is gone, and no other row changes
      ensures presence == old(presence)[name := presence[name]] && presence[name].touched == now && presence[name].releasedAt == None
      ensures name in old(seats) ==> seats == old(seats)[name := old(seats)[name].(touched := now)]
      ensures name !in old(seats) ==> seats == old(seats)
    {
      BeatenFrame(Current(), name, nonce);
      var count := Record(name, nonce);
      return if count > 1 && name !in EXEMPT then Some(count) else None;
    }

    // Merge the beat into the pruned map, rebuild the row, and move both clocks.
    method Record(name: string, nonce: Option<string>) returns (count: nat)
      modifies this
      ensures Current() == Beaten(old(Current()), name, nonce)
      ensures count == |presence[name].sessions|
    {
      var prior := if name in presence then presence[name].sessions else map[];
      var displaced := if name in seats then set n | n in seats[name].superseded else {};
      assert displaced == Superseded(Current(), name);
      assert prior == Sessions(Current(), name);
      var t := now;
      var sessions := map n | n in prior && n !in displaced && t - prior[n] < COLLISION_WINDOW :: prior[n];
      if nonce.Some? && nonce.value !in displaced {
        sessions := sessions[nonce.value := t];
      }
      assert sessions == Merged(prior, t, displaced, nonce);
      presence := presence[name := Presence(t, None, None, sessions)];
      if name in seats {
        seats := seats[name := seats[name].(touched := t)];
      }
      return |sessions|;
    }

    /** `presence_watcher_beat`. */
    method WatcherBeat(name: string) returns (known: bool)
      modifies this
      ensures Current() == WatcherBeaten(old(Current()), name)
      ensures known == (name in old(presence))
      ensures seats == if known && name in old(seats) then old(seats)[name := old(seats)[name].(touched := now)] else old(seats)
      ensures presence == if known then old(presence)[name := old(presence)[name].(touched := now)] else old(presence)
    {
      known := name in presence;
      if known {
        presence := presence[name := presence[name].(touched := now)];
        if name in seats {
          seats := seats[name := seats[name].(touched := now)];
        }
      }
    }

    /** The mark `death_certify` leaves on the seat row. */
    method Certify(seat: string, cert: Cert)
      modifies this
      ensures Current() == Certified(old(Current()), seat, cert)
      ensures seats.Keys == old(seats).Keys && presence == old(presence)
    {
      if seat in seats {
        seats := seats[seat := seats[seat].(cert := Some(cert))];
      }
    }
  }

  // What the beat's specification does to the two tables, field by field.
  lemma BeatenFrame(w: World, name: string, nonce: Option<string>)
    ensures var v := Beaten(w, name, nonce);
            name in v.presence && v.presence == w.presence[name := v.presence[name]]
            && v.presence[name].touched == w.now && v.presence[name].releasedAt == None
            && (name in w.seats ==> v.seats == w.seats[name := w.seats[name].(touched := w.now)])
            && (name !in w.seats ==> v.seats == w.seats)
  {
  }

  function WithoutMail(names: set<string>, mail: set<string>): set<string> {
    set t | t in names && t !in mail
  }

  lemma Freed(refreshed: map<string, Seat>, mine: set<string>, todo: set<string>, t: string, mail: set<string>)
    requires t in mine && t !in todo
    ensures var before := refreshed - WithoutMail(mine - (todo + {t}), mail);
            var after := refreshed - WithoutMail(mine - todo, mail);
            after == if t !in mail then before - {t} else before
  {
  }

  lemma FoundIs(c: Config, w: World, q: Request, names: seq<string>, i: nat)
    requires i < |names| && Grantable(c, w, q, names[i])
    requires forall j | 0 <= j < i :: !Grantable(c, w, q, names[j])
    ensures FindGrant(c, w, q, names) == Some(names[i])
  {
    hide Grantable;
    var found := FindGrant(c, w, q, names);
    var k :| 0 <= k < |names| && names[k] == found.value && Grantable(c, w, q, names[k])
             && forall j :: 0 <= j < k ==> !Grantable(c, w, q, names[j]);
    assert k == i;
  }

  // The name asked for is the first candidate, so it has been looked at before any other is granted.
  lemma ParkedIs(c: Config, w: World, q: Request, names: seq<string>, i: nat)
    requires names == Candidates(c, q) && i < |names|
    ensures Distinct(c, q).Some? && Distinct(c, q).value != names[i] ==> Distinct(c, q).value in names[..i]
  {
    if Distinct(c, q).Some? && Distinct(c, q).value != names[i] {
      assert names[0] == Distinct(c, q).value;
      assert names[..i][0] == names[0];
    }
  }
}
