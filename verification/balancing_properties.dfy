/**
 * What the balancing run guarantees across all of its iterations: the shape
 * of its result, the capacity bound, exactly which players each roster
 * gains, and that players who already have a guild take no part.
 */
module BalancingProperties {
  import opened Wrappers
  import opened Entities
  import opened Balancing

  /** The player ids of a decision list, in decision order. */
  function AssignedIds(ds: seq<Assignment>): (ids: seq<Id>)
    ensures |ids| == |ds|
    ensures forall i :: 0 <= i < |ds| ==> ids[i] == ds[i].playerId
  {
    seq(|ds|, i requires 0 <= i < |ds| => ds[i].playerId)
  }

  /** The ids of a list of players, in list order. */
  function CandidateIds(cs: seq<Candidate>): (ids: seq<Id>)
    ensures |ids| == |cs|
    ensures forall i :: 0 <= i < |cs| ==> ids[i] == cs[i].id
  {
    seq(|cs|, i requires 0 <= i < |cs| => cs[i].id)
  }

  /** The players a decision list sends to guild `gid`, in decision order. */
  function AssignedTo(ds: seq<Assignment>, gid: Id): seq<Id> {
    if |ds| == 0 then []
    else (if ds[0].guildId == gid then [ds[0].playerId] else []) + AssignedTo(ds[1..], gid)
  }

  /** `xs` can be obtained from `ys` by deleting elements: each element of `ys` used at most once, order kept. */
  ghost predicate IsSubsequence(xs: seq<Id>, ys: seq<Id>)
    decreases |ys|
  {
    if |xs| == 0 then true
    else if |ys| == 0 then false
    else (xs[0] == ys[0] && IsSubsequence(xs[1..], ys[1..])) || IsSubsequence(xs, ys[1..])
  }

  lemma SubsequenceSkip(xs: seq<Id>, y: Id, ys: seq<Id>)
    requires IsSubsequence(xs, ys)
    ensures IsSubsequence(xs, [y] + ys)
  {
    assert ([y] + ys)[1..] == ys;
  }

  lemma SubsequenceTake(x: Id, xs: seq<Id>, ys: seq<Id>)
    requires IsSubsequence(xs, ys)
    ensures IsSubsequence([x] + xs, [x] + ys)
  {
    assert ([x] + xs)[1..] == xs;
    assert ([x] + ys)[1..] == ys;
  }

  /** Every element of a subsequence occurs in the sequence it was taken from. */
  lemma {:induction false} SubsequenceElements(xs: seq<Id>, ys: seq<Id>, x: Id)
    requires IsSubsequence(xs, ys) && x in xs
    ensures x in ys
    decreases |ys|
  {
    if xs[0] == ys[0] && IsSubsequence(xs[1..], ys[1..]) {
      if x != xs[0] {
        assert x in xs[1..];
        SubsequenceElements(xs[1..], ys[1..], x);
      }
    } else {
      SubsequenceElements(xs, ys[1..], x);
    }
  }

  /** With distinct ids, `find` by the id of guild `i` lands on guild `i`. */
  lemma FindDistinct(gs: seq<Guild>, i: int)
    requires DistinctIds(gs) && 0 <= i < |gs|
    ensures FindGuild(gs, gs[i].id) == Some(i)
  {
  }

  /**
   * One iteration: with no guild under capacity the player is skipped and
   * nothing changes; otherwise the chosen guild gains exactly that player at
   * the end of its roster and every other guild is unchanged.
   */
  lemma PlaceSpec(gs: seq<Guild>, c: Candidate, maxGuildPlayers: int) returns (i: int)
    requires DistinctIds(gs)
    ensures Place(gs, c, maxGuildPlayers).choice.None?
            <==> forall j :: 0 <= j < |gs| ==> !Eligible(gs[j], maxGuildPlayers)
    ensures Place(gs, c, maxGuildPlayers).choice.None? ==> Place(gs, c, maxGuildPlayers).guilds == gs
    ensures Place(gs, c, maxGuildPlayers).choice.Some? ==>
              && IsChoice(gs, maxGuildPlayers, i)
              && Place(gs, c, maxGuildPlayers).choice.value == gs[i].id
              && Place(gs, c, maxGuildPlayers).guilds == gs[i := gs[i].(members := gs[i].members + [AsMember(c)])]
  {
    i := SelectSpec(gs, maxGuildPlayers);
    if Select(gs, maxGuildPlayers).Some? {
      FindDistinct(gs, i);
    }
  }

  /** Prepending one iteration's decision keeps both decision lists subsequences of the pool ids. */
  lemma RecordDecisions(c: Candidate, choice: Option<Id>, rest: RunResult, ids: seq<Id>)
    requires |ids| > 0 && ids[0] == c.id
    requires IsSubsequence(AssignedIds(rest.assignments), ids[1..]) && IsSubsequence(rest.skipped, ids[1..])
    ensures var r := Record(c, choice, rest);
            && |r.assignments| + |r.skipped| == |rest.assignments| + |rest.skipped| + 1
            && IsSubsequence(AssignedIds(r.assignments), ids)
            && IsSubsequence(r.skipped, ids)
  {
    var r := Record(c, choice, rest);
    assert ids == [c.id] + ids[1..];
    if choice.None? {
      SubsequenceSkip(AssignedIds(rest.assignments), c.id, ids[1..]);
      SubsequenceTake(c.id, rest.skipped, ids[1..]);
    } else {
      assert AssignedIds(r.assignments) == [c.id] + AssignedIds(rest.assignments);
      SubsequenceTake(c.id, AssignedIds(rest.assignments), ids[1..]);
      SubsequenceSkip(rest.skipped, c.id, ids[1..]);
    }
  }

  /**
   * Decisions of a run: the assignments and the skipped list are the two
   * projections of one decision per pool player, and each follows pool
   * order.
   */
  lemma RunDecisions(gs: seq<Guild>, pool: seq<Candidate>, maxGuildPlayers: int)
    ensures var r := Run(gs, pool, maxGuildPlayers);
            var ds := Decisions(gs, pool, maxGuildPlayers);
            && |r.assignments| + |r.skipped| == |pool|
            && IsSubsequence(AssignedIds(r.assignments), CandidateIds(pool))
            && IsSubsequence(r.skipped, CandidateIds(pool))
            && r.assignments == PlacedBy(pool, ds)
            && r.skipped == SkippedBy(pool, ds)
  {
    RunFollowsPool(gs, pool, maxGuildPlayers);
    RunProjects(gs, pool, maxGuildPlayers);
  }

  /** Both decision lists of a run are subsequences of the pool ids. */
  lemma {:induction false} RunFollowsPool(gs: seq<Guild>, pool: seq<Candidate>, maxGuildPlayers: int)
    decreases |pool|
    ensures var r := Run(gs, pool, maxGuildPlayers);
            && IsSubsequence(AssignedIds(r.assignments), CandidateIds(pool))
            && IsSubsequence(r.skipped, CandidateIds(pool))
  {
    if |pool| > 0 {
      var step := Place(gs, pool[0], maxGuildPlayers);
      RunFollowsPool(step.guilds, pool[1..], maxGuildPlayers);
      var ids := CandidateIds(pool);
      assert ids[1..] == CandidateIds(pool[1..]);
      RecordDecisions(pool[0], step.choice, Run(step.guilds, pool[1..], maxGuildPlayers), ids);
    }
  }

  /**
   * The decision each pool player receives, aligned with the pool: the guild
   * the player joins, or `None` when the player is skipped.
   */
  function Decisions(gs: seq<Guild>, pool: seq<Candidate>, maxGuildPlayers: int): (ds: seq<Option<Id>>)
    ensures |ds| == |pool|
    decreases |pool|
  {
    if |pool| == 0 then []
    else
      var step := Place(gs, pool[0], maxGuildPlayers);
      [step.choice] + Decisions(step.guilds, pool[1..], maxGuildPlayers)
  }

  /** The assignments a pool-aligned decision list makes, in pool order. */
  function PlacedBy(pool: seq<Candidate>, ds: seq<Option<Id>>): seq<Assignment>
    requires |ds| == |pool|
  {
    if |pool| == 0 then []
    else (if ds[0].Some? then [Assignment(pool[0].id, ds[0].value)] else []) + PlacedBy(pool[1..], ds[1..])
  }

  /** The players a pool-aligned decision list skips, in pool order. */
  function SkippedBy(pool: seq<Candidate>, ds: seq<Option<Id>>): seq<Id>
    requires |ds| == |pool|
  {
    if |pool| == 0 then []
    else (if ds[0].None? then [pool[0].id] else []) + SkippedBy(pool[1..], ds[1..])
  }

  /** The run's two output lists are the two projections of its per-player decisions. */
  lemma {:induction false} RunProjects(gs: seq<Guild>, pool: seq<Candidate>, maxGuildPlayers: int)
    decreases |pool|
    ensures var r := Run(gs, pool, maxGuildPlayers);
            var ds := Decisions(gs, pool, maxGuildPlayers);
            r.assignments == PlacedBy(pool, ds) && r.skipped == SkippedBy(pool, ds)
  {
    if |pool| > 0 {
      var step := Place(gs, pool[0], maxGuildPlayers);
      RunProjects(step.guilds, pool[1..], maxGuildPlayers);
      var ds := Decisions(gs, pool, maxGuildPlayers);
      assert ds[0] == step.choice;
      assert ds[1..] == Decisions(step.guilds, pool[1..], maxGuildPlayers);
    }
  }

  /** An assignment is made exactly when some player's decision names its guild. */
  lemma {:induction false} PlacedByMembership(pool: seq<Candidate>, ds: seq<Option<Id>>, a: Assignment)
    requires |ds| == |pool|
    decreases |pool|
    ensures a in PlacedBy(pool, ds) <==>
              exists k :: 0 <= k < |pool| && pool[k].id == a.playerId && ds[k] == Some(a.guildId)
  {
    if |pool| > 0 {
      PlacedByMembership(pool[1..], ds[1..], a);
      var head := if ds[0].Some? then [Assignment(pool[0].id, ds[0].value)] else [];
      assert PlacedBy(pool, ds) == head + PlacedBy(pool[1..], ds[1..]);
      if exists k :: 0 <= k < |pool| && pool[k].id == a.playerId && ds[k] == Some(a.guildId) {
        var k :| 0 <= k < |pool| && pool[k].id == a.playerId && ds[k] == Some(a.guildId);
        if k > 0 {
          assert pool[1..][k - 1] == pool[k] && ds[1..][k - 1] == ds[k];
        }
      }
      if a in PlacedBy(pool[1..], ds[1..]) {
        var k :| 0 <= k < |pool| - 1 && pool[1..][k].id == a.playerId && ds[1..][k] == Some(a.guildId);
        assert pool[k + 1].id == a.playerId && ds[k + 1] == Some(a.guildId);
      }
    }
  }

  /** A player is skipped exactly when some player with that id has no decision. */
  lemma {:induction false} SkippedByMembership(pool: seq<Candidate>, ds: seq<Option<Id>>, x: Id)
    requires |ds| == |pool|
    decreases |pool|
    ensures x in SkippedBy(pool, ds) <==> exists k :: 0 <= k < |pool| && pool[k].id == x && ds[k].None?
  {
    if |pool| > 0 {
      SkippedByMembership(pool[1..], ds[1..], x);
      var head := if ds[0].None? then [pool[0].id] else [];
      assert SkippedBy(pool, ds) == head + SkippedBy(pool[1..], ds[1..]);
      if exists k :: 0 <= k < |pool| && pool[k].id == x && ds[k].None? {
        var k :| 0 <= k < |pool| && pool[k].id == x && ds[k].None?;
        if k > 0 {
          assert pool[1..][k - 1] == pool[k] && ds[1..][k - 1] == ds[k];
        }
      }
      if x in SkippedBy(pool[1..], ds[1..]) {
        var k :| 0 <= k < |pool| - 1 && pool[1..][k].id == x && ds[1..][k].None?;
        assert pool[k + 1].id == x && ds[k + 1].None?;
      }
    }
  }

  /**
   * With distinct pool ids the run partitions the pool: each player is
   * assigned, to the guild its decision names, or skipped, and never both.
   */
  lemma EachPlayerDecidedOnce(gs: seq<Guild>, pool: seq<Candidate>, maxGuildPlayers: int)
    requires forall i, j :: 0 <= i < j < |pool| ==> pool[i].id != pool[j].id
    ensures var r := Run(gs, pool, maxGuildPlayers);
            var ds := Decisions(gs, pool, maxGuildPlayers);
            forall k :: 0 <= k < |pool| ==>
              && (pool[k].id in AssignedIds(r.assignments) <==> ds[k].Some?)
              && (pool[k].id in r.skipped <==> ds[k].None?)
              && (ds[k].Some? ==> Assignment(pool[k].id, ds[k].value) in r.assignments)
  {
    var r := Run(gs, pool, maxGuildPlayers);
    var ds := Decisions(gs, pool, maxGuildPlayers);
    RunProjects(gs, pool, maxGuildPlayers);
    forall k | 0 <= k < |pool|
      ensures && (pool[k].id in AssignedIds(r.assignments) <==> ds[k].Some?)
              && (pool[k].id in r.skipped <==> ds[k].None?)
              && (ds[k].Some? ==> Assignment(pool[k].id, ds[k].value) in r.assignments)
    {
      SkippedByMembership(pool, ds, pool[k].id);
      if ds[k].Some? {
        var a := Assignment(pool[k].id, ds[k].value);
        PlacedByMembership(pool, ds, a);
        var n :| 0 <= n < |r.assignments| && r.assignments[n] == a;
        assert AssignedIds(r.assignments)[n] == pool[k].id;
      }
      if pool[k].id in AssignedIds(r.assignments) {
        var n :| 0 <= n < |r.assignments| && AssignedIds(r.assignments)[n] == pool[k].id;
        var a := r.assignments[n];
        PlacedByMembership(pool, ds, a);
        var j :| 0 <= j < |pool| && pool[j].id == a.playerId && ds[j] == Some(a.guildId);
        assert j == k;
      }
    }
  }

  /** One iteration keeps the guilds and their order, only extends rosters, and picks a snapshot guild. */
  lemma StepShape(gs: seq<Guild>, c: Candidate, maxGuildPlayers: int)
    ensures var step := Place(gs, c, maxGuildPlayers);
            && GuildIds(step.guilds) == GuildIds(gs)
            && (forall i :: 0 <= i < |gs| ==> gs[i].members <= step.guilds[i].members)
            && (step.choice.Some? ==> step.choice.value in GuildIds(gs))
  {
    var i := SelectSpec(gs, maxGuildPlayers);
    if Select(gs, maxGuildPlayers).Some? {
      assert GuildIds(gs)[i] == gs[i].id;
    }
  }

  /**
   * Guilds of a run: the same guilds in the same order, rosters only
   * extended, and every assignment naming a guild of the snapshot.
   */
  lemma {:induction false} RunGuilds(gs: seq<Guild>, pool: seq<Candidate>, maxGuildPlayers: int)
    decreases |pool|
    ensures var r := Run(gs, pool, maxGuildPlayers);
            && GuildIds(r.guilds) == GuildIds(gs)
            && (forall i :: 0 <= i < |gs| ==> gs[i].members <= r.guilds[i].members)
            && (forall a :: a in r.assignments ==> a.guildId in GuildIds(gs))
  {
    if |pool| > 0 {
      var step := Place(gs, pool[0], maxGuildPlayers);
      StepShape(gs, pool[0], maxGuildPlayers);
      RunGuilds(step.guilds, pool[1..], maxGuildPlayers);
      var rest := Run(step.guilds, pool[1..], maxGuildPlayers);
      var r := Run(gs, pool, maxGuildPlayers);
      assert r == Record(pool[0], step.choice, rest);
      assert forall i :: 0 <= i < |gs| ==> gs[i].members <= step.guilds[i].members <= r.guilds[i].members;
    }
  }

  /**
   * Capacity: a guild that starts at or above the limit is never touched, and
   * a guild that starts below it ends at most at the limit; so no guild ends
   * larger than the larger of its initial size and the limit.
   */
  lemma {:induction false} RunCapacity(gs: seq<Guild>, pool: seq<Candidate>, maxGuildPlayers: int)
    requires DistinctIds(gs)
    decreases |pool|
    ensures var r := Run(gs, pool, maxGuildPlayers);
            && |r.guilds| == |gs|
            && (forall i :: 0 <= i < |gs| && |gs[i].members| >= maxGuildPlayers ==> r.guilds[i] == gs[i])
            && (forall i :: 0 <= i < |gs| && |gs[i].members| < maxGuildPlayers
                  ==> |r.guilds[i].members| <= maxGuildPlayers)
  {
    if |pool| > 0 {
      var step := Place(gs, pool[0], maxGuildPlayers);
      StepCapacity(gs, pool[0], maxGuildPlayers);
      RunCapacity(step.guilds, pool[1..], maxGuildPlayers);
      assert Run(gs, pool, maxGuildPlayers).guilds == Run(step.guilds, pool[1..], maxGuildPlayers).guilds;
    }
  }

  /** One iteration of the capacity argument: full guilds untouched, guilds with room grow to at most the limit. */
  lemma StepCapacity(gs: seq<Guild>, c: Candidate, maxGuildPlayers: int)
    requires DistinctIds(gs)
    ensures var step := Place(gs, c, maxGuildPlayers);
            && |step.guilds| == |gs|
            && DistinctIds(step.guilds)
            && (forall i :: 0 <= i < |gs| && |gs[i].members| >= maxGuildPlayers ==> step.guilds[i] == gs[i])
            && (forall i :: 0 <= i < |gs| && |gs[i].members| < maxGuildPlayers
                  ==> |step.guilds[i].members| <= maxGuildPlayers)
  {
    var step := Place(gs, c, maxGuildPlayers);
    var k := PlaceSpec(gs, c, maxGuildPlayers);
    StepShape(gs, c, maxGuildPlayers);
    assert DistinctIds(step.guilds) by {
      assert forall i :: 0 <= i < |gs| ==> step.guilds[i].id == GuildIds(step.guilds)[i] == gs[i].id;
    }
  }

  /** The players a single decision sends to `gid`. */
  function ChoiceFor(c: Candidate, choice: Option<Id>, gid: Id): seq<Id> {
    if choice == Some(gid) then [c.id] else []
  }

  /** With distinct guild ids, one iteration adds the player to the chosen guild and to no other. */
  lemma StepRosters(gs: seq<Guild>, c: Candidate, maxGuildPlayers: int)
    requires DistinctIds(gs)
    ensures var step := Place(gs, c, maxGuildPlayers);
            && |step.guilds| == |gs|
            && forall i :: 0 <= i < |gs| ==>
                 MemberIds(step.guilds[i].members) == MemberIds(gs[i].members) + ChoiceFor(c, step.choice, gs[i].id)
  {
    var step := Place(gs, c, maxGuildPlayers);
    var k := PlaceSpec(gs, c, maxGuildPlayers);
    forall i | 0 <= i < |gs|
      ensures MemberIds(step.guilds[i].members) == MemberIds(gs[i].members) + ChoiceFor(c, step.choice, gs[i].id)
    {
      if step.choice.Some? && i == k {
        assert step.guilds[i].members == gs[i].members + [AsMember(c)];
      }
    }
  }

  /** Prepending one decision prepends its player to the list for its guild only. */
  lemma RecordAssignedTo(c: Candidate, choice: Option<Id>, rest: RunResult, gid: Id)
    ensures AssignedTo(Record(c, choice, rest).assignments, gid) == ChoiceFor(c, choice, gid) + AssignedTo(rest.assignments, gid)
  {
    if choice.Some? {
      var ds := Record(c, choice, rest).assignments;
      assert ds[1..] == rest.assignments;
    }
  }

  /**
   * Rosters: with distinct guild ids, each final roster is the initial
   * roster followed by exactly the players the decisions send to that guild,
   * in decision order.
   */
  lemma {:induction false} RunRosters(gs: seq<Guild>, pool: seq<Candidate>, maxGuildPlayers: int)
    requires DistinctIds(gs)
    decreases |pool|
    ensures var r := Run(gs, pool, maxGuildPlayers);
            && |r.guilds| == |gs|
            && forall i :: 0 <= i < |gs| ==>
                 MemberIds(r.guilds[i].members) == MemberIds(gs[i].members) + AssignedTo(r.assignments, gs[i].id)
  {
    RunGuilds(gs, pool, maxGuildPlayers);
    if |pool| > 0 {
      var c := pool[0];
      var step := Place(gs, c, maxGuildPlayers);
      var rest := Run(step.guilds, pool[1..], maxGuildPlayers);
      var r := Run(gs, pool, maxGuildPlayers);
      assert r == Record(c, step.choice, rest);
      StepShape(gs, c, maxGuildPlayers);
      StepRosters(gs, c, maxGuildPlayers);
      assert DistinctIds(step.guilds) by {
        assert forall i :: 0 <= i < |gs| ==> step.guilds[i].id == GuildIds(step.guilds)[i] == gs[i].id;
      }
      RunRosters(step.guilds, pool[1..], maxGuildPlayers);
      forall i | 0 <= i < |gs|
        ensures MemberIds(r.guilds[i].members) == MemberIds(gs[i].members) + AssignedTo(r.assignments, gs[i].id)
      {
        assert step.guilds[i].id == GuildIds(step.guilds)[i] == gs[i].id;
        RecordAssignedTo(c, step.choice, rest, gs[i].id);
        AppendAssoc(MemberIds(gs[i].members), ChoiceFor(c, step.choice, gs[i].id), AssignedTo(rest.assignments, gs[i].id));
      }
    }
  }

  /** Regrouping hint the roster induction needs at each step. */
  lemma AppendAssoc(a: seq<Id>, b: seq<Id>, c: seq<Id>)
    ensures (a + b) + c == a + (b + c)
  {
  }

  /** Players who already have a guild do not influence the run at all. */
  lemma BalanceIgnoresAssigned(guilds: seq<Guild>, candidates: seq<Candidate>, maxGuildPlayers: int)
    ensures Balance(guilds, candidates, maxGuildPlayers) == Balance(guilds, Unassigned(candidates), maxGuildPlayers)
  {
    UnassignedIdempotent(candidates);
  }

  /** Every id in the pool comes from an offered player without a guild id. */
  lemma {:induction false} PoolIdSource(cs: seq<Candidate>, x: Id) returns (i: int)
    requires x in CandidateIds(Unassigned(cs))
    ensures 0 <= i < |cs| && cs[i].id == x && !IsSet(cs[i].guildId)
  {
    var pool := Unassigned(cs);
    var m :| 0 <= m < |pool| && CandidateIds(pool)[m] == x;
    assert pool[m] in pool;
    UnassignedMembership(cs, pool[m]);
    i :| 0 <= i < |cs| && cs[i] == pool[m];
  }

  /** With distinct player ids, a player offered with a guild id is never assigned. */
  lemma AlreadyAssignedNeverPlaced(guilds: seq<Guild>, candidates: seq<Candidate>, maxGuildPlayers: int, c: Candidate)
    requires forall i, j :: 0 <= i < j < |candidates| ==> candidates[i].id != candidates[j].id
    requires c in candidates && IsSet(c.guildId)
    ensures Balance(guilds, candidates, maxGuildPlayers).Success? ==>
              forall a :: a in Balance(guilds, candidates, maxGuildPlayers).value.assignments ==> a.playerId != c.id
  {
    var pool := Unassigned(candidates);
    var q :| 0 <= q < |candidates| && candidates[q] == c;
    if Balance(guilds, candidates, maxGuildPlayers).Success? {
      var r := Run(guilds, pool, maxGuildPlayers);
      RunDecisions(guilds, pool, maxGuildPlayers);
      forall a | a in r.assignments
        ensures a.playerId != c.id
      {
        var n :| 0 <= n < |r.assignments| && r.assignments[n] == a;
        assert AssignedIds(r.assignments)[n] == a.playerId;
        SubsequenceElements(AssignedIds(r.assignments), CandidateIds(pool), a.playerId);
        var i := PoolIdSource(candidates, a.playerId);
        assert i != q;
      }
    }
  }

  /**
   * A successful run, in the snapshot's terms: one decision per unassigned
   * player in order, the guild limit respected, and each roster grown by
   * exactly the players assigned to it.
   */
  lemma BalanceSpec(guilds: seq<Guild>, candidates: seq<Candidate>, maxGuildPlayers: int)
    requires DistinctIds(guilds)
    ensures var out := Balance(guilds, candidates, maxGuildPlayers);
            out.Success? ==>
              var r := out.value;
              && |r.assignments| + |r.skipped| == |Unassigned(candidates)|
              && IsSubsequence(AssignedIds(r.assignments), CandidateIds(Unassigned(candidates)))
              && r.assignments == PlacedBy(Unassigned(candidates), Decisions(guilds, Unassigned(candidates), maxGuildPlayers))
              && r.skipped == SkippedBy(Unassigned(candidates), Decisions(guilds, Unassigned(candidates), maxGuildPlayers))
              && |r.guilds| == |guilds|
              && (forall i :: 0 <= i < |guilds| ==>
                    |r.guilds[i].members| <= if |guilds[i].members| < maxGuildPlayers then maxGuildPlayers
                                             else |guilds[i].members|)
              && (forall i :: 0 <= i < |guilds| ==>
                    MemberIds(r.guilds[i].members)
                    == MemberIds(guilds[i].members) + AssignedTo(r.assignments, guilds[i].id))
  {
    var pool := Unassigned(candidates);
    RunDecisions(guilds, pool, maxGuildPlayers);
    RunCapacity(guilds, pool, maxGuildPlayers);
    RunRosters(guilds, pool, maxGuildPlayers);
  }
}
