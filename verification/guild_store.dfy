/**
 * Guild operations of the service layer over an abstract guild store: create,
 * rename and delete, with the rule that a guild name may be taken only once.
 */
module GuildStore {
  import opened Wrappers
  import opened Entities

  /** A stored guild; timestamps are left out and the roster lives on the players. */
  datatype GuildRecord = GuildRecord(name: string)

  type Guilds = map<Id, GuildRecord>

  datatype GuildError =
    | GuildNameTaken(name: string)   // "Guild with name … already exists"
    | GuildNotFound(id: Id)          // the store rejects a write to a missing id

  predicate NameInUse(gs: Guilds, name: string) {
    exists id :: id in gs && gs[id].name == name
  }

  /** No two distinct guilds share a name. */
  predicate UniqueNames(gs: Guilds) {
    forall a, b :: a in gs && b in gs && a != b ==> gs[a].name != gs[b].name
  }

  /** Creates a guild under a fresh id unless some guild already has the name. */
  function CreateGuild(gs: Guilds, name: string, freshId: Id): (r: Result<Guilds, GuildError>)
    requires freshId !in gs
    ensures r.Failure? <==> NameInUse(gs, name)
    ensures r.Failure? ==> r.error == GuildNameTaken(name)
    ensures r.Success? ==>
              && r.value.Keys == gs.Keys + {freshId}
              && r.value[freshId].name == name
              && (forall id :: id in gs ==> r.value[id] == gs[id])
  {
    if NameInUse(gs, name) then Failure(GuildNameTaken(name))
    else Success(gs[freshId := GuildRecord(name)])
  }

  /**
   * Renames guild `id`. Any guild holding the new name blocks it, the guild
   * being renamed included.
   */
  function UpdateGuild(gs: Guilds, id: Id, name: string): (r: Result<Guilds, GuildError>)
    ensures r.Failure? && r.error.GuildNameTaken? <==> NameInUse(gs, name)
    ensures r.Failure? && r.error.GuildNotFound? <==> !NameInUse(gs, name) && id !in gs
    ensures r.Success? ==>
              && r.value.Keys == gs.Keys
              && r.value[id].name == name
              && (forall other :: other in gs && other != id ==> r.value[other] == gs[other])
  {
    if NameInUse(gs, name) then Failure(GuildNameTaken(name))
    else if id !in gs then Failure(GuildNotFound(id))
    else Success(gs[id := GuildRecord(name)])
  }

  /** Deletes guild `id`; a missing id is rejected by the store. */
  function DeleteGuild(gs: Guilds, id: Id): (r: Result<Guilds, GuildError>)
    ensures r.Failure? <==> id !in gs
    ensures r.Success? ==>
              && r.value.Keys == gs.Keys - {id}
              && (forall other :: other in r.value ==> r.value[other] == gs[other])
  {
    if id !in gs then Failure(GuildNotFound(id))
    else Success(map other | other in gs && other != id :: gs[other])
  }

  /** Renaming a guild to the name it already has is rejected. */
  lemma RenameToOwnNameFails(gs: Guilds, id: Id)
    requires id in gs
    ensures UpdateGuild(gs, id, gs[id].name) == Failure(GuildNameTaken(gs[id].name))
  {
  }

  /** Create and rename keep guild names pairwise distinct; delete cannot break it. */
  lemma OperationsKeepNamesUnique(gs: Guilds, id: Id, name: string, freshId: Id)
    requires UniqueNames(gs) && freshId !in gs
    ensures CreateGuild(gs, name, freshId).Success? ==> UniqueNames(CreateGuild(gs, name, freshId).value)
    ensures UpdateGuild(gs, id, name).Success? ==> UniqueNames(UpdateGuild(gs, id, name).value)
    ensures DeleteGuild(gs, id).Success? ==> UniqueNames(DeleteGuild(gs, id).value)
  {
  }

  /** Creating and then deleting the new guild restores the store. */
  lemma CreateThenDelete(gs: Guilds, name: string, freshId: Id)
    requires freshId !in gs
    ensures CreateGuild(gs, name, freshId).Success? ==>
              DeleteGuild(CreateGuild(gs, name, freshId).value, freshId) == Success(gs)
  {
    if CreateGuild(gs, name, freshId).Success? {
      var created := CreateGuild(gs, name, freshId).value;
      var after := DeleteGuild(created, freshId).value;
      assert after.Keys == gs.Keys;
      assert forall id :: id in gs ==> after[id] == gs[id];
      assert after == gs;
    }
  }
}
