/**
 * How the three class vocabularies in the code meet: the labels the player
 * validator accepts, the labels the class-sufficiency check counts, and the
 * labels the roster predicate looks for are pairwise disjoint.
 */
module Vocabulary {
  import opened Wrappers
  import opened Entities
  import opened RequiredClass
  import opened Balancing
  import PlayerDto

  /** A label the player validator accepts. */
  predicate Accepted(cls: string) {
    cls in PlayerDto.AllowedClasses
  }

  /** A label the class-sufficiency check counts. */
  predicate Counted(cls: string) {
    cls in [CountedWarrior, CountedCleric, CountedMage, CountedArcher]
  }

  /** The check counts no player whose label the validator accepts. */
  lemma {:induction false} AcceptedNeverCounted(pool: seq<Candidate>)
    requires forall i :: 0 <= i < |pool| ==> Accepted(pool[i].cls)
    ensures CountClass(pool, CountedWarrior) == 0
    ensures CountClass(pool, CountedCleric) == 0
    ensures CountMageOrArcher(pool) == 0
  {
    if |pool| > 0 {
      AcceptedNeverCounted(pool[1..]);
    }
  }

  /**
   * With at least one guild, a run over players whose labels all passed the
   * validator fails for lack of classes as soon as one of them has no guild.
   */
  lemma AcceptedPoolAlwaysFails(guilds: seq<Guild>, candidates: seq<Candidate>, maxGuildPlayers: int, k: int)
    requires |guilds| > 0
    requires forall i :: 0 <= i < |candidates| ==> Accepted(candidates[i].cls)
    requires 0 <= k < |candidates| && !IsSet(candidates[k].guildId)
    ensures Balance(guilds, candidates, maxGuildPlayers) == Failure(NotEnoughClasses)
  {
    var pool := Unassigned(candidates);
    UnassignedMembership(candidates, candidates[k]);
    forall i | 0 <= i < |pool|
      ensures Accepted(pool[i].cls)
    {
      UnassignedMembership(candidates, pool[i]);
    }
    AcceptedNeverCounted(pool);
  }

  /** A roster of validator labels is never complete. */
  lemma AcceptedRosterNeverComplete(ms: seq<Member>)
    requires forall i :: 0 <= i < |ms| ==> Accepted(ms[i].cls)
    ensures !HasRequiredClasses(ms)
  {
    assert forall i :: 0 <= i < |ms| ==> Classes(ms)[i] != Cleric;
  }

  /** A roster of the labels the check counts is never complete either. */
  lemma CountedRosterNeverComplete(ms: seq<Member>)
    requires forall i :: 0 <= i < |ms| ==> Counted(ms[i].cls)
    ensures !HasRequiredClasses(ms)
  {
    assert forall i :: 0 <= i < |ms| ==> Classes(ms)[i] != Cleric;
  }

  /**
   * When no roster is complete, the ranking reduces to load alone: the
   * choice is the first guild with room whose load is least among guilds
   * with room.
   */
  lemma ChoiceByLoadOnly(gs: seq<Guild>, maxGuildPlayers: int, i: int)
    requires forall j :: 0 <= j < |gs| ==> !HasRequiredClasses(gs[j].members)
    ensures IsChoice(gs, maxGuildPlayers, i) <==>
              && 0 <= i < |gs|
              && Eligible(gs[i], maxGuildPlayers)
              && (forall j :: 0 <= j < |gs| && Eligible(gs[j], maxGuildPlayers) ==> Load(gs[i].members) <= Load(gs[j].members))
              && (forall j :: 0 <= j < i && Eligible(gs[j], maxGuildPlayers) ==> Load(gs[i].members) < Load(gs[j].members))
  {
  }
}
