/**
 * The guild-balancing run: from a snapshot of guilds and a list of players,
 * place every player that has no guild yet, one at a time and in input
 * order, into the guild that ranks first among those still under capacity.
 * Every placement is applied to a working copy of the rosters, so later
 * players see the new sizes, loads and classes.
 */
module Balancing {
  import opened Wrappers
  import opened Entities
  import opened RequiredClass
  import opened Ranking

  /** Class labels the sufficiency check counts, spelled exactly as that check spells them. */
  const CountedWarrior: string := "GUERREIRO"
  /** The cleric label as the check holds it: "CLÉRIGO" mis-decoded to 'Ã' followed by '‰'. */
  const CountedCleric: string := "CL\U{C3}\U{2030}RIGO"
  const CountedMage: string := "MAGO"
  const CountedArcher: string := "ARQUEIRO"

  /** Why a run fails; both are raised before any player is placed. */
  datatype BalanceError =
    | GuildsNotFound      // the snapshot holds no guild
    | NotEnoughClasses    // the unassigned pool cannot supply every guild with each role

  /** A placement decision: this player now belongs to this guild. */
  datatype Assignment = Assignment(playerId: Id, guildId: Id)

  /** What a run produces: its decisions in order, the players it could not place, the final rosters. */
  datatype RunResult = RunResult(assignments: seq<Assignment>, skipped: seq<Id>, guilds: seq<Guild>)

  // ----- the pool ---------------------------------------------------------

  /** The players the run distributes: those whose guild id is falsy, in input order. */
  function Unassigned(cs: seq<Candidate>): (r: seq<Candidate>)
    ensures |r| <= |cs|
    ensures forall i :: 0 <= i < |r| ==> !IsSet(r[i].guildId)
  {
    if |cs| == 0 then []
    else (if IsSet(cs[0].guildId) then [] else [cs[0]]) + Unassigned(cs[1..])
  }

  /** A player is in the pool exactly when it is offered and has no guild id. */
  lemma {:induction false} UnassignedMembership(cs: seq<Candidate>, c: Candidate)
    ensures c in Unassigned(cs) <==> c in cs && !IsSet(c.guildId)
  {
    if |cs| > 0 {
      UnassignedMembership(cs[1..], c);
      assert cs == [cs[0]] + cs[1..];
    }
  }

  /** A list in which nobody has a guild id is its own pool. */
  lemma {:induction false} UnassignedAllFree(cs: seq<Candidate>)
    requires forall i :: 0 <= i < |cs| ==> !IsSet(cs[i].guildId)
    ensures Unassigned(cs) == cs
  {
    if |cs| > 0 {
      UnassignedAllFree(cs[1..]);
      assert cs == [cs[0]] + cs[1..];
    }
  }

  /** Filtering the pool a second time changes nothing. */
  lemma {:induction false} UnassignedIdempotent(cs: seq<Candidate>)
    ensures Unassigned(Unassigned(cs)) == Unassigned(cs)
  {
    if |cs| > 0 {
      UnassignedIdempotent(cs[1..]);
      var head := if IsSet(cs[0].guildId) then [] else [cs[0]];
      UnassignedAppend(head, Unassigned(cs[1..]));
    }
  }

  lemma {:induction false} UnassignedAppend(a: seq<Candidate>, b: seq<Candidate>)
    ensures Unassigned(a + b) == Unassigned(a) + Unassigned(b)
  {
    if |a| > 0 {
      UnassignedAppend(a[1..], b);
      assert (a + b)[1..] == a[1..] + b;
    } else {
      assert a + b == b;
    }
  }

  /** Number of pool players carrying exactly the given class label. */
  function CountClass(pool: seq<Candidate>, cls: string): (n: nat)
    ensures n <= |pool|
    ensures n > 0 <==> exists i :: 0 <= i < |pool| && pool[i].cls == cls
  {
    if |pool| == 0 then 0
    else
      assert forall i :: 1 <= i < |pool| ==> pool[1..][i - 1] == pool[i];
      (if pool[0].cls == cls then 1 else 0) + CountClass(pool[1..], cls)
  }

  /** Number of pool players that are a mage or an archer. */
  function CountMageOrArcher(pool: seq<Candidate>): (n: nat)
    ensures n <= |pool|
  {
    if |pool| == 0 then 0
    else (if pool[0].cls == CountedMage || pool[0].cls == CountedArcher then 1 else 0)
         + CountMageOrArcher(pool[1..])
  }

  /** Counting mages or archers together is counting each and adding. */
  lemma {:induction false} MageOrArcherIsSum(pool: seq<Candidate>)
    ensures CountMageOrArcher(pool) == CountClass(pool, CountedMage) + CountClass(pool, CountedArcher)
  {
    if |pool| > 0 {
      MageOrArcherIsSum(pool[1..]);
    }
  }

  /**
   * The pool has fewer warriors, clerics, or mages-plus-archers than there
   * are guilds; a pool without a shortage holds at least three players per
   * guild.
   */
  predicate ClassShortage(pool: seq<Candidate>, guildCount: int)
    ensures !ClassShortage(pool, guildCount) ==> 3 * guildCount <= |pool|
  {
    RolesFitPool(pool);
    || CountClass(pool, CountedWarrior) < guildCount
    || CountClass(pool, CountedCleric) < guildCount
    || CountMageOrArcher(pool) < guildCount
  }

  /** The three counted roles are disjoint, so together they never exceed the pool. */
  lemma {:induction false} RolesFitPool(pool: seq<Candidate>)
    ensures CountClass(pool, CountedWarrior) + CountClass(pool, CountedCleric) + CountMageOrArcher(pool) <= |pool|
  {
    if |pool| > 0 {
      RolesFitPool(pool[1..]);
    }
  }

  // ----- choosing a guild -------------------------------------------------

  /** A guild can still take a player while its roster is below the limit. */
  predicate Eligible(g: Guild, maxGuildPlayers: int) {
    |g.members| < maxGuildPlayers
  }

  /** The ranking summary of a guild as its roster stands now. */
  function InfoOf(g: Guild): (info: GuildInfo)
    ensures info.guildId == g.id
    ensures info.needsClass ==> |g.members| >= 3
  {
    GuildInfo(g.id, Load(g.members), HasRequiredClasses(g.members))
  }

  /** Summaries of the guilds still under capacity, in snapshot order. */
  function Infos(gs: seq<Guild>, maxGuildPlayers: int): (r: seq<GuildInfo>)
    ensures |r| <= |gs|
  {
    if |gs| == 0 then []
    else
      assert forall j :: 1 <= j < |gs| ==> gs[1..][j - 1] == gs[j];
      (if Eligible(gs[0], maxGuildPlayers) then [InfoOf(gs[0])] else [])
         + Infos(gs[1..], maxGuildPlayers)
  }

  /** The id of the guild at the head of the ranking, if any guild has room. */
  function Select(gs: seq<Guild>, maxGuildPlayers: int): (r: Option<Id>)
    ensures r.Some? <==> |Infos(gs, maxGuildPlayers)| > 0
    ensures r.Some? ==> r.value == Infos(gs, maxGuildPlayers)[BestIndex(Infos(gs, maxGuildPlayers))].guildId
  {
    var infos := Infos(gs, maxGuildPlayers);
    var ranked := Rank(infos);
    if |ranked| > 0 then
      RankHead(infos);
      Some(ranked[0].guildId)
    else None
  }

  /**
   * Guild `i` is the one the run should pick: it has room; if any guild with
   * room has a complete roster, so does `i`; among guilds with room and the
   * same completeness its load is least; and every earlier such guild has a
   * strictly larger load (ties go to the earlier guild).
   */
  ghost predicate IsChoice(gs: seq<Guild>, maxGuildPlayers: int, i: int) {
    && 0 <= i < |gs|
    && Eligible(gs[i], maxGuildPlayers)
    && (forall j :: 0 <= j < |gs| && Eligible(gs[j], maxGuildPlayers) && HasRequiredClasses(gs[j].members)
          ==> HasRequiredClasses(gs[i].members))
    && (forall j :: 0 <= j < |gs| && Eligible(gs[j], maxGuildPlayers)
          && HasRequiredClasses(gs[j].members) == HasRequiredClasses(gs[i].members)
          ==> Load(gs[i].members) <= Load(gs[j].members))
    && (forall j :: 0 <= j < i && Eligible(gs[j], maxGuildPlayers)
          && HasRequiredClasses(gs[j].members) == HasRequiredClasses(gs[i].members)
          ==> Load(gs[i].members) < Load(gs[j].members))
  }

  /** There are no summaries exactly when no guild has room. */
  lemma {:induction false} InfosEmpty(gs: seq<Guild>, maxGuildPlayers: int)
    ensures |Infos(gs, maxGuildPlayers)| == 0 <==> forall j :: 0 <= j < |gs| ==> !Eligible(gs[j], maxGuildPlayers)
  {
    if |gs| > 0 {
      InfosEmpty(gs[1..], maxGuildPlayers);
      assert forall j :: 1 <= j < |gs| ==> gs[1..][j - 1] == gs[j];
    }
  }

  /** The summaries are exactly those of the guilds with room. */
  lemma {:induction false} InfosMembership(gs: seq<Guild>, maxGuildPlayers: int, x: GuildInfo)
    ensures x in Infos(gs, maxGuildPlayers)
            <==> exists j :: 0 <= j < |gs| && Eligible(gs[j], maxGuildPlayers) && x == InfoOf(gs[j])
  {
    if |gs| > 0 {
      InfosMembership(gs[1..], maxGuildPlayers, x);
      assert forall j :: 1 <= j < |gs| ==> gs[1..][j - 1] == gs[j];
    }
  }

  /**
   * `js` says where each summary comes from: summary `k` is that of guild
   * `js[k]`, which has room; the positions strictly increase, and every guild
   * with room appears.
   */
  ghost predicate IsSourceList(gs: seq<Guild>, maxGuildPlayers: int, infos: seq<GuildInfo>, js: seq<int>) {
    && |js| == |infos|
    && (forall k :: 0 <= k < |js| ==>
          0 <= js[k] < |gs| && Eligible(gs[js[k]], maxGuildPlayers) && infos[k] == InfoOf(gs[js[k]]))
    && (forall k, l :: 0 <= k < l < |js| ==> js[k] < js[l])
    && (forall j :: 0 <= j < |gs| && Eligible(gs[j], maxGuildPlayers) ==> j in js)
  }

  /** There is one summary per guild with room, in guild order. */
  lemma {:induction false} InfosSource(gs: seq<Guild>, maxGuildPlayers: int) returns (js: seq<int>)
    decreases |gs|
    ensures IsSourceList(gs, maxGuildPlayers, Infos(gs, maxGuildPlayers), js)
  {
    if |gs| == 0 {
      js := [];
    } else {
      var rest := Infos(gs[1..], maxGuildPlayers);
      var t := InfosSource(gs[1..], maxGuildPlayers);
      var shifted := ShiftedSources(gs, maxGuildPlayers, rest, t);
      if Eligible(gs[0], maxGuildPlayers) {
        assert Infos(gs, maxGuildPlayers) == [InfoOf(gs[0])] + rest;
        js := [0] + shifted;
        PrependSource(gs, maxGuildPlayers, rest, shifted);
      } else {
        assert Infos(gs, maxGuildPlayers) == rest;
        js := shifted;
        SkipSource(gs, maxGuildPlayers, rest, shifted);
      }
    }
  }

  /** The tail's sources, shifted by one: they point into `gs` past its head. */
  lemma ShiftedSources(gs: seq<Guild>, maxGuildPlayers: int, infos: seq<GuildInfo>, t: seq<int>) returns (shifted: seq<int>)
    requires |gs| > 0 && IsSourceList(gs[1..], maxGuildPlayers, infos, t)
    ensures |shifted| == |infos|
    ensures forall i :: 0 <= i < |shifted| ==>
              0 < shifted[i] < |gs| && Eligible(gs[shifted[i]], maxGuildPlayers) && infos[i] == InfoOf(gs[shifted[i]])
    ensures forall k, l :: 0 <= k < l < |shifted| ==> shifted[k] < shifted[l]
    ensures forall j :: 0 < j < |gs| && Eligible(gs[j], maxGuildPlayers) ==> j in shifted
  {
    shifted := seq(|t|, i requires 0 <= i < |t| => t[i] + 1);
    ShiftedElements(gs, maxGuildPlayers, infos, t, shifted);
    ShiftedComplete(gs, maxGuildPlayers, infos, t, shifted);
  }

  /** Each shifted source points at the same guild, now counted from the head. */
  lemma ShiftedElements(gs: seq<Guild>, maxGuildPlayers: int, infos: seq<GuildInfo>, t: seq<int>, shifted: seq<int>)
    requires |gs| > 0 && IsSourceList(gs[1..], maxGuildPlayers, infos, t)
    requires |shifted| == |t| && forall i :: 0 <= i < |t| ==> shifted[i] == t[i] + 1
    ensures forall i :: 0 <= i < |shifted| ==>
              0 < shifted[i] < |gs| && Eligible(gs[shifted[i]], maxGuildPlayers) && infos[i] == InfoOf(gs[shifted[i]])
    ensures forall k, l :: 0 <= k < l < |shifted| ==> shifted[k] < shifted[l]
  {
    var max := maxGuildPlayers;
    forall i | 0 <= i < |shifted|
      ensures 0 < shifted[i] < |gs| && Eligible(gs[shifted[i]], max) && infos[i] == InfoOf(gs[shifted[i]])
    {
      assert gs[1..][t[i]] == gs[shifted[i]];
    }
    forall k, l | 0 <= k < l < |shifted|
      ensures shifted[k] < shifted[l]
    {
      assert t[k] < t[l];
    }
  }

  /** Every guild with room past the head is among the shifted sources. */
  lemma ShiftedComplete(gs: seq<Guild>, maxGuildPlayers: int, infos: seq<GuildInfo>, t: seq<int>, shifted: seq<int>)
    requires |gs| > 0 && IsSourceList(gs[1..], maxGuildPlayers, infos, t)
    requires |shifted| == |t| && forall i :: 0 <= i < |t| ==> shifted[i] == t[i] + 1
    ensures forall j :: 0 < j < |gs| && Eligible(gs[j], maxGuildPlayers) ==> j in shifted
  {
    forall j | 0 < j < |gs| && Eligible(gs[j], maxGuildPlayers)
      ensures j in shifted
    {
      assert gs[1..][j - 1] == gs[j];
      var i :| 0 <= i < |t| && t[i] == j - 1;
      assert shifted[i] == j;
    }
  }

  /** A head without room contributes no summary: the shifted sources are already complete. */
  lemma SkipSource(gs: seq<Guild>, maxGuildPlayers: int, infos: seq<GuildInfo>, shifted: seq<int>)
    requires |gs| > 0 && !Eligible(gs[0], maxGuildPlayers)
    requires |shifted| == |infos|
    requires forall i :: 0 <= i < |shifted| ==>
               0 < shifted[i] < |gs| && Eligible(gs[shifted[i]], maxGuildPlayers) && infos[i] == InfoOf(gs[shifted[i]])
    requires forall k, l :: 0 <= k < l < |shifted| ==> shifted[k] < shifted[l]
    requires forall j :: 0 < j < |gs| && Eligible(gs[j], maxGuildPlayers) ==> j in shifted
    ensures IsSourceList(gs, maxGuildPlayers, infos, shifted)
  {
  }

  /** Putting a head with room in front of the shifted sources. */
  lemma PrependSource(gs: seq<Guild>, maxGuildPlayers: int, infos: seq<GuildInfo>, shifted: seq<int>)
    requires |gs| > 0 && Eligible(gs[0], maxGuildPlayers)
    requires |shifted| == |infos|
    requires forall i :: 0 <= i < |shifted| ==>
               0 < shifted[i] < |gs| && Eligible(gs[shifted[i]], maxGuildPlayers) && infos[i] == InfoOf(gs[shifted[i]])
    requires forall k, l :: 0 <= k < l < |shifted| ==> shifted[k] < shifted[l]
    requires forall j :: 0 < j < |gs| && Eligible(gs[j], maxGuildPlayers) ==> j in shifted
    ensures IsSourceList(gs, maxGuildPlayers, [InfoOf(gs[0])] + infos, [0] + shifted)
  {
    var max := maxGuildPlayers;
    var js := [0] + shifted;
    var all := [InfoOf(gs[0])] + infos;
    forall k | 0 <= k < |js|
      ensures 0 <= js[k] < |gs| && Eligible(gs[js[k]], max) && all[k] == InfoOf(gs[js[k]])
    {
      if k > 0 {
        assert js[k] == shifted[k - 1] && all[k] == infos[k - 1];
      }
    }
    forall k, l | 0 <= k < l < |js|
      ensures js[k] < js[l]
    {
      assert js[l] == shifted[l - 1];
      if k > 0 {
        assert js[k] == shifted[k - 1];
      }
    }
    forall j | 0 <= j < |gs| && Eligible(gs[j], max)
      ensures j in js
    {
      if j > 0 {
        var i :| 0 <= i < |shifted| && shifted[i] == j;
        assert js[i + 1] == j;
      }
    }
  }

  /** Guild `i` has room and is the first best under the comparator among guilds with room. */
  ghost predicate IsRankedFirst(gs: seq<Guild>, maxGuildPlayers: int, i: int) {
    && 0 <= i < |gs|
    && Eligible(gs[i], maxGuildPlayers)
    && (forall j :: 0 <= j < |gs| && Eligible(gs[j], maxGuildPlayers) ==> !Precedes(InfoOf(gs[j]), InfoOf(gs[i])))
    && (forall j :: 0 <= j < i && Eligible(gs[j], maxGuildPlayers) ==> Precedes(InfoOf(gs[i]), InfoOf(gs[j])))
  }

  /** Being first under the comparator is being the choice described in the guilds' own terms. */
  lemma RankedFirstIsChoice(gs: seq<Guild>, maxGuildPlayers: int, i: int)
    ensures IsRankedFirst(gs, maxGuildPlayers, i) <==> IsChoice(gs, maxGuildPlayers, i)
  {
  }

  /** Shifting a first-best guild of the tail past an ineligible head. */
  lemma RankedFirstSkipsHead(gs: seq<Guild>, maxGuildPlayers: int, i': int)
    requires |gs| > 0 && !Eligible(gs[0], maxGuildPlayers)
    requires IsRankedFirst(gs[1..], maxGuildPlayers, i')
    ensures IsRankedFirst(gs, maxGuildPlayers, i' + 1)
  {
    assert forall j :: 1 <= j < |gs| ==> gs[1..][j - 1] == gs[j];
  }

  /** The tail's first-best guild wins when it sorts strictly before an eligible head. */
  lemma RankedFirstBeatsHead(gs: seq<Guild>, maxGuildPlayers: int, i': int)
    requires |gs| > 0 && Eligible(gs[0], maxGuildPlayers)
    requires IsRankedFirst(gs[1..], maxGuildPlayers, i')
    requires Precedes(InfoOf(gs[i' + 1]), InfoOf(gs[0]))
    ensures IsRankedFirst(gs, maxGuildPlayers, i' + 1)
  {
    assert forall j :: 1 <= j < |gs| ==> gs[1..][j - 1] == gs[j];
    CompareIsConsistent(InfoOf(gs[0]), InfoOf(gs[i' + 1]), InfoOf(gs[0]));
  }

  /** An eligible head wins when the tail's first-best guild does not sort strictly before it. */
  lemma RankedFirstKeepsHead(gs: seq<Guild>, maxGuildPlayers: int, i': int)
    requires |gs| > 0 && Eligible(gs[0], maxGuildPlayers)
    requires IsRankedFirst(gs[1..], maxGuildPlayers, i')
    requires !Precedes(InfoOf(gs[i' + 1]), InfoOf(gs[0]))
    ensures IsRankedFirst(gs, maxGuildPlayers, 0)
  {
    forall j | 0 <= j < |gs| && Eligible(gs[j], maxGuildPlayers)
      ensures !Precedes(InfoOf(gs[j]), InfoOf(gs[0]))
    {
      if j > 0 {
        assert gs[1..][j - 1] == gs[j];
        CompareIsConsistent(InfoOf(gs[0]), InfoOf(gs[i' + 1]), InfoOf(gs[j]));
      }
    }
  }

  /** The first best summary belongs to the guild that ranks first. */
  lemma {:induction false} InfosChoice(gs: seq<Guild>, maxGuildPlayers: int) returns (i: nat)
    requires |Infos(gs, maxGuildPlayers)| > 0
    ensures IsRankedFirst(gs, maxGuildPlayers, i)
    ensures InfoOf(gs[i]) == Infos(gs, maxGuildPlayers)[BestIndex(Infos(gs, maxGuildPlayers))]
  {
    var max := maxGuildPlayers;
    var s := Infos(gs, max);
    var t := Infos(gs[1..], max);
    if !Eligible(gs[0], max) {
      assert s == t;
      var i' := InfosChoice(gs[1..], max);
      assert gs[1..][i'] == gs[i' + 1];
      RankedFirstSkipsHead(gs, max, i');
      i := i' + 1;
    } else if |t| == 0 {
      InfosEmpty(gs[1..], max);
      assert s == [InfoOf(gs[0])];
      assert forall j :: 1 <= j < |gs| ==> gs[1..][j - 1] == gs[j];
      i := 0;
    } else {
      assert s == [InfoOf(gs[0])] + t;
      assert s[1..] == t;
      var i' := InfosChoice(gs[1..], max);
      assert gs[1..][i'] == gs[i' + 1];
      var k := BestIndex(t) + 1;
      assert s[k] == InfoOf(gs[i' + 1]);
      if Precedes(s[k], s[0]) {
        assert BestIndex(s) == k;
        RankedFirstBeatsHead(gs, max, i');
        i := i' + 1;
      } else {
        assert BestIndex(s) == 0;
        RankedFirstKeepsHead(gs, max, i');
        i := 0;
      }
    }
  }

  /** Selection returns nothing exactly when no guild has room, and otherwise the choice's id. */
  lemma SelectSpec(gs: seq<Guild>, maxGuildPlayers: int) returns (i: int)
    ensures Select(gs, maxGuildPlayers).None? <==> forall j :: 0 <= j < |gs| ==> !Eligible(gs[j], maxGuildPlayers)
    ensures Select(gs, maxGuildPlayers).Some? ==>
              IsChoice(gs, maxGuildPlayers, i) && Select(gs, maxGuildPlayers).value == gs[i].id
  {
    InfosEmpty(gs, maxGuildPlayers);
    i := 0;
    if |Infos(gs, maxGuildPlayers)| > 0 {
      RankHead(Infos(gs, maxGuildPlayers));
      i := InfosChoice(gs, maxGuildPlayers);
      RankedFirstIsChoice(gs, maxGuildPlayers, i);
    }
  }

  /** Index of the first guild with the given id: the `find` the run applies the choice with. */
  function FindGuild(gs: seq<Guild>, id: Id): (r: Option<nat>)
    ensures r.Some? ==> r.value < |gs| && gs[r.value].id == id
    ensures r.Some? ==> forall j :: 0 <= j < r.value ==> gs[j].id != id
    ensures r.None? ==> forall j :: 0 <= j < |gs| ==> gs[j].id != id
  {
    if |gs| == 0 then None
    else if gs[0].id == id then Some(0)
    else match FindGuild(gs[1..], id)
      case None => None
      case Some(k) => Some(k + 1)
  }

  /** Pushes a member onto the first guild with the given id; no such guild, no change. */
  function Join(gs: seq<Guild>, id: Id, m: Member): (r: seq<Guild>)
    ensures |r| == |gs|
    ensures forall i :: 0 <= i < |gs| ==> r[i].id == gs[i].id
  {
    match FindGuild(gs, id)
    case None => gs
    case Some(k) => gs[k := gs[k].(members := gs[k].members + [m])]
  }

  // ----- the run ----------------------------------------------------------

  /** One iteration: the guild chosen for a player (if any) and the rosters after pushing it there. */
  datatype Step = Step(choice: Option<Id>, guilds: seq<Guild>)

  /**
   * One player's iteration: skipped, rosters untouched, exactly when no
   * guild has room; otherwise pushed onto the selected guild.
   */
  function Place(gs: seq<Guild>, c: Candidate, maxGuildPlayers: int): (step: Step)
    ensures step.choice.None? ==> step.guilds == gs
    ensures |step.guilds| == |gs|
  {
    match Select(gs, maxGuildPlayers)
    case None => Step(None, gs)
    case Some(id) => Step(Some(id), Join(gs, id, AsMember(c)))
  }

  /** Prepends one iteration's decision for player `c` to the decisions that follow it. */
  function Record(c: Candidate, choice: Option<Id>, rest: RunResult): RunResult {
    match choice
    case None => rest.(skipped := [c.id] + rest.skipped)
    case Some(id) => rest.(assignments := [Assignment(c.id, id)] + rest.assignments)
  }

  /** The placement loop over a pool, with no class check. */
  function Run(gs: seq<Guild>, pool: seq<Candidate>, maxGuildPlayers: int): (r: RunResult)
    decreases |pool|
    ensures |r.assignments| + |r.skipped| == |pool|
    ensures |r.guilds| == |gs|
  {
    if |pool| == 0 then RunResult([], [], gs)
    else
      var step := Place(gs, pool[0], maxGuildPlayers);
      Record(pool[0], step.choice, Run(step.guilds, pool[1..], maxGuildPlayers))
  }

  /**
   * The loop as written: every iteration first re-evaluates the class check
   * over the whole initial pool (`pool`) against the number of guilds, then
   * places the next player of `rest`.
   */
  function Loop(gs: seq<Guild>, pool: seq<Candidate>, rest: seq<Candidate>, maxGuildPlayers: int)
    : (r: Result<RunResult, BalanceError>)
    decreases |rest|
    ensures r.Failure? ==> r.error == NotEnoughClasses && |rest| > 0
    ensures r.Success? ==> |r.value.assignments| + |r.value.skipped| == |rest|
  {
    if |rest| == 0 then Success(RunResult([], [], gs))
    else if ClassShortage(pool, |gs|) then Failure(NotEnoughClasses)
    else
      var step := Place(gs, rest[0], maxGuildPlayers);
      var after :- Loop(step.guilds, pool, rest[1..], maxGuildPlayers);
      Success(Record(rest[0], step.choice, after))
  }

  /**
   * The check inside the loop fires before the first placement or never:
   * its inputs do not change while the loop runs.
   */
  lemma {:induction false} LoopChecksOnce(gs: seq<Guild>, pool: seq<Candidate>, rest: seq<Candidate>, maxGuildPlayers: int)
    decreases |rest|
    ensures Loop(gs, pool, rest, maxGuildPlayers)
            == if |rest| > 0 && ClassShortage(pool, |gs|) then Failure(NotEnoughClasses)
               else Success(Run(gs, rest, maxGuildPlayers))
  {
    if |rest| > 0 && !ClassShortage(pool, |gs|) {
      var step := Place(gs, rest[0], maxGuildPlayers);
      LoopChecksOnce(step.guilds, pool, rest[1..], maxGuildPlayers);
    }
  }

  /** The whole run: fail without guilds, filter the pool, then loop over it. */
  function Balance(guilds: seq<Guild>, candidates: seq<Candidate>, maxGuildPlayers: int)
    : (r: Result<RunResult, BalanceError>)
    ensures |guilds| == 0 ==> r == Failure(GuildsNotFound)
    ensures |guilds| > 0 && |Unassigned(candidates)| == 0 ==> r == Success(RunResult([], [], guilds))
    ensures |guilds| > 0 ==>
              (r.Failure? <==> |Unassigned(candidates)| > 0 && ClassShortage(Unassigned(candidates), |guilds|))
    ensures r.Failure? ==> r.error == GuildsNotFound || r.error == NotEnoughClasses
    ensures r.Success? ==> r.value == Run(guilds, Unassigned(candidates), maxGuildPlayers)
  {
    if |guilds| == 0 then Failure(GuildsNotFound)
    else
      var pool := Unassigned(candidates);
      LoopChecksOnce(guilds, pool, pool, maxGuildPlayers);
      Loop(guilds, pool, pool, maxGuildPlayers)
  }
}
