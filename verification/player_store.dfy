/**
 * Player operations of the service layer over an abstract player store:
 * the name-uniqueness rules of create and update, and the reset that clears
 * every player's guild. The store is a map from id to record; its by-name
 * lookup and listing are supplied as parameters with their contracts.
 */
module PlayerStore {
  import opened Wrappers
  import opened Entities

  /** A stored player; timestamps are left out. */
  datatype PlayerRecord = PlayerRecord(name: string, cls: string, experience: int, guildId: Option<Id>)

  type Players = map<Id, PlayerRecord>

  /** The fields a create request hands to the service. */
  datatype PlayerInput = PlayerInput(name: string, cls: string, experience: int, guildId: Option<Id>)

  /**
   * The fields an update request hands to the service. The controller
   * validates a defaulted copy of the request but passes the raw body on, so
   * a field can be absent (`None`), and the store's update leaves an absent
   * field unchanged.
   */
  datatype PlayerChanges = PlayerChanges(name: Option<string>, cls: Option<string>, experience: Option<int>, guildId: Option<Id>)

  datatype StoreError =
    | NameTaken(name: string)   // "Player with name … already exists"
    | PlayerNotFound(id: Id)    // the store rejects a write to a missing id

  predicate NameInUse(ps: Players, name: string) {
    exists id :: id in ps && ps[id].name == name
  }

  /** What the store's by-name lookup may answer: nothing when no player has the name, else some player that has it. */
  predicate IsNameLookup(ps: Players, name: string, found: Option<Id>) {
    && (found.None? <==> !NameInUse(ps, name))
    && (found.Some? ==> found.value in ps && ps[found.value].name == name)
  }

  /** No two distinct players share a non-empty name. */
  predicate UniqueNames(ps: Players) {
    forall a, b :: a in ps && b in ps && a != b && ps[a].name != "" ==> ps[a].name != ps[b].name
  }

  /** The guild a write connects: the given id when truthy; otherwise none is written. */
  function Connected(guildId: Option<Id>): (g: Option<Id>)
    ensures g.Some? <==> IsSet(guildId)
    ensures g.Some? ==> g == guildId
  {
    if IsSet(guildId) then guildId else None
  }

  /** Creates a player under a fresh id unless some player already has the name. */
  function CreatePlayer(ps: Players, input: PlayerInput, freshId: Id): (r: Result<Players, StoreError>)
    requires freshId !in ps
    ensures r.Failure? <==> NameInUse(ps, input.name)
    ensures r.Failure? ==> r.error == NameTaken(input.name)
    ensures r.Success? ==>
              && r.value.Keys == ps.Keys + {freshId}
              && (forall id :: id in ps ==> r.value[id] == ps[id])
              && r.value[freshId] == PlayerRecord(input.name, input.cls, input.experience, Connected(input.guildId))
  {
    if NameInUse(ps, input.name) then Failure(NameTaken(input.name))
    else Success(ps[freshId := PlayerRecord(input.name, input.cls, input.experience, Connected(input.guildId))])
  }

  /**
   * Updates player `id`. A truthy name is first looked up (`byName` is the
   * lookup's answer) and rejected when it belongs to another player; an
   * empty or absent name is not checked. Each given field is overwritten and
   * each absent one kept; the guild changes only when a truthy guild id is
   * given.
   */
  function UpdatePlayer(ps: Players, id: Id, changes: PlayerChanges, byName: Option<Id>): (r: Result<Players, StoreError>)
    requires IsSet(changes.name) ==> IsNameLookup(ps, changes.name.value, byName)
    ensures r.Failure? && r.error.NameTaken? <==> IsSet(changes.name) && byName.Some? && byName.value != id
    ensures r.Failure? && r.error.PlayerNotFound? <==> !(IsSet(changes.name) && byName.Some? && byName.value != id) && id !in ps
    ensures r.Success? ==>
              && r.value.Keys == ps.Keys
              && (forall other :: other in ps && other != id ==> r.value[other] == ps[other])
              && r.value[id].name == (if changes.name.Some? then changes.name.value else ps[id].name)
              && r.value[id].cls == (if changes.cls.Some? then changes.cls.value else ps[id].cls)
              && r.value[id].experience == (if changes.experience.Some? then changes.experience.value else ps[id].experience)
              && r.value[id].guildId == (if IsSet(changes.guildId) then changes.guildId else ps[id].guildId)
  {
    if IsSet(changes.name) && byName.Some? && byName.value != id then Failure(NameTaken(changes.name.value))
    else if id !in ps then Failure(PlayerNotFound(id))
    else
      var current := ps[id];
      var guild := if IsSet(changes.guildId) then changes.guildId else current.guildId;
      Success(ps[id := PlayerRecord(
        changes.name.GetOr(current.name), changes.cls.GetOr(current.cls),
        changes.experience.GetOr(current.experience), guild)])
  }

  /** Creating fails exactly on a duplicate name, so a store with unique names keeps them unique. */
  lemma CreateKeepsNamesUnique(ps: Players, input: PlayerInput, freshId: Id)
    requires freshId !in ps && UniqueNames(ps)
    ensures CreatePlayer(ps, input, freshId).Success? ==> UniqueNames(CreatePlayer(ps, input, freshId).value)
  {
  }

  /**
   * On a store with unique names, an update is rejected for its name exactly
   * when the name is truthy and held by a different player; keeping one's
   * own name is allowed.
   */
  lemma UpdateNameRule(ps: Players, id: Id, changes: PlayerChanges, byName: Option<Id>)
    requires IsSet(changes.name) ==> IsNameLookup(ps, changes.name.value, byName)
    requires UniqueNames(ps)
    ensures (UpdatePlayer(ps, id, changes, byName).Failure? && UpdatePlayer(ps, id, changes, byName).error.NameTaken?)
            <==> IsSet(changes.name) && exists other :: other in ps && other != id && ps[other].name == changes.name.value
  {
    if IsSet(changes.name) && byName.Some? && byName.value == id {
      forall other | other in ps && other != id
        ensures ps[other].name != changes.name.value
      {
        assert ps[id].name == changes.name.value;
      }
    }
  }

  /** A successful update keeps non-empty names unique. */
  lemma UpdateKeepsNamesUnique(ps: Players, id: Id, changes: PlayerChanges, byName: Option<Id>)
    requires IsSet(changes.name) ==> IsNameLookup(ps, changes.name.value, byName)
    requires UniqueNames(ps)
    ensures UpdatePlayer(ps, id, changes, byName).Success? ==> UniqueNames(UpdatePlayer(ps, id, changes, byName).value)
  {
    if UpdatePlayer(ps, id, changes, byName).Success? && IsSet(changes.name) {
      UpdateNameRule(ps, id, changes, byName);
    }
  }

  /** An empty name skips the check, so two players can end up both named "". */
  lemma EmptyNameSkipsCheck()
    ensures var ps := map["p1" := PlayerRecord("", "MAGE", 10, None), "p2" := PlayerRecord("Bob", "MAGE", 10, None)];
            var r := UpdatePlayer(ps, "p2", PlayerChanges(Some(""), Some("MAGE"), Some(10), None), None);
            r.Success? && r.value["p1"].name == r.value["p2"].name
  {
  }

  // ----- reset ------------------------------------------------------------

  /** The disconnect write: clears one player's guild. */
  function Disconnect(ps: Players, id: Id): (r: Result<Players, StoreError>)
    ensures r.Failure? <==> id !in ps
    ensures r.Success? ==> r.value.Keys == ps.Keys && r.value[id] == ps[id].(guildId := None)
    ensures r.Success? ==> forall other :: other in ps && other != id ==> r.value[other] == ps[other]
  {
    if id in ps then Success(ps[id := ps[id].(guildId := None)]) else Failure(PlayerNotFound(id))
  }

  /** The disconnect writes a reset issued, in order, and the store after them. */
  datatype ResetResult = ResetResult(disconnects: seq<Id>, players: Players)

  /** Issues one disconnect per listed player (`listed` is what the store's listing returned). */
  function ResetPlayersGuild(ps: Players, listed: seq<Id>): (r: Result<ResetResult, StoreError>)
    decreases |listed|
    ensures r.Failure? <==> exists k :: 0 <= k < |listed| && listed[k] !in ps
    ensures r.Failure? ==> r.error.PlayerNotFound? && r.error.id in listed && r.error.id !in ps
    ensures r.Success? ==> r.value.disconnects == listed && r.value.players.Keys == ps.Keys
  {
    assert forall k :: 1 <= k < |listed| ==> listed[1..][k - 1] == listed[k];
    if |listed| == 0 then Success(ResetResult([], ps))
    else
      var ps' :- Disconnect(ps, listed[0]);
      var rest :- ResetPlayersGuild(ps', listed[1..]);
      Success(ResetResult([listed[0]] + rest.disconnects, rest.players))
  }

  /**
   * Resetting over a listing of stored players succeeds, disconnects each
   * listed player once in listing order, clears exactly their guilds, and
   * changes nothing else.
   */
  lemma {:induction false} ResetClearsListed(ps: Players, listed: seq<Id>)
    requires forall k :: 0 <= k < |listed| ==> listed[k] in ps
    decreases |listed|
    ensures var r := ResetPlayersGuild(ps, listed);
            && r.Success?
            && r.value.disconnects == listed
            && r.value.players.Keys == ps.Keys
            && (forall id :: id in ps ==>
                  r.value.players[id] == if id in listed then ps[id].(guildId := None) else ps[id])
  {
    if |listed| > 0 {
      var ps' := Disconnect(ps, listed[0]).value;
      var tail := listed[1..];
      assert forall k :: 0 <= k < |tail| ==> tail[k] == listed[k + 1];
      ResetClearsListed(ps', tail);
      var rest := ResetPlayersGuild(ps', tail).value;
      assert ResetPlayersGuild(ps, listed) == Success(ResetResult([listed[0]] + rest.disconnects, rest.players));
      forall id | id in ps
        ensures rest.players[id] == if id in listed then ps[id].(guildId := None) else ps[id]
      {
        assert listed == [listed[0]] + tail;
        assert id in listed <==> id == listed[0] || id in tail;
      }
    }
  }

  /**
   * When the listing is every stored player, once each, the reset issues
   * exactly one disconnect per stored player and leaves every player
   * without a guild and otherwise unchanged.
   */
  lemma ResetClearsAll(ps: Players, listed: seq<Id>)
    requires forall id :: id in ps <==> id in listed
    requires forall i, j :: 0 <= i < j < |listed| ==> listed[i] != listed[j]
    ensures var r := ResetPlayersGuild(ps, listed);
            && r.Success?
            && (forall id :: id in ps ==> multiset(r.value.disconnects)[id] == 1)
            && |r.value.disconnects| == |ps|
            && r.value.players.Keys == ps.Keys
            && (forall id :: id in ps ==> r.value.players[id] == ps[id].(guildId := None))
  {
    ResetClearsListed(ps, listed);
    DistinctCount(listed, ps.Keys);
  }

  /** A duplicate-free listing of exactly a key set has one occurrence per key and the set's size. */
  lemma {:induction false} DistinctCount(listed: seq<Id>, keys: set<Id>)
    requires forall id :: id in keys <==> id in listed
    requires forall i, j :: 0 <= i < j < |listed| ==> listed[i] != listed[j]
    decreases |listed|
    ensures forall id :: id in keys ==> multiset(listed)[id] == 1
    ensures |listed| == |keys|
  {
    if |listed| == 0 {
      assert keys == {};
    } else {
      var x := listed[0];
      var tail := listed[1..];
      assert listed == [x] + tail;
      assert x !in tail;
      DistinctCount(tail, keys - {x});
      assert multiset(listed) == multiset{x} + multiset(tail);
    }
  }
}
