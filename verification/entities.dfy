/**
 * The records the balancing run works on: guild rosters as the guild store
 * returns them (each guild with its players) and the players offered for
 * distribution.
 */
module Entities {
  import opened Wrappers

  /** Store identifiers (UUID strings in the store). */
  type Id = string

  /** A player as it appears in a guild's roster: only the fields the run reads. */
  datatype Member = Member(id: Id, cls: string, experience: int)

  /** A guild of the snapshot together with its current roster, in store order. */
  datatype Guild = Guild(id: Id, members: seq<Member>)

  /** A player offered to the run; `guildId` is absent or a (possibly empty) string. */
  datatype Candidate = Candidate(id: Id, cls: string, experience: int, guildId: Option<Id>)

  /** JavaScript truthiness of an optional string such as a guild id or a name: absent and `""` are both falsy. */
  predicate IsSet(guildId: Option<Id>) {
    guildId.Some? && guildId.value != ""
  }

  /** The roster entry a candidate becomes once it is pushed onto a guild. */
  function AsMember(c: Candidate): (m: Member)
    ensures m.id == c.id && m.cls == c.cls && m.experience == c.experience
  {
    Member(c.id, c.cls, c.experience)
  }

  /** The identifiers of a roster, in roster order. */
  function MemberIds(ms: seq<Member>): (ids: seq<Id>)
    ensures |ids| == |ms|
    ensures forall i :: 0 <= i < |ms| ==> ids[i] == ms[i].id
  {
    seq(|ms|, i requires 0 <= i < |ms| => ms[i].id)
  }

  /** Total experience of a roster, summed left to right from 0; it equals the sum taken from the front. */
  function Load(ms: seq<Member>): (total: int)
    ensures total == SumFromFront(ms)
  {
    if |ms| == 0 then 0
    else
      SumFromFrontAppend(ms[..|ms| - 1], ms[|ms| - 1]);
      assert ms[..|ms| - 1] + [ms[|ms| - 1]] == ms;
      Load(ms[..|ms| - 1]) + ms[|ms| - 1].experience
  }

  /** The same total, folded from the front: an independent reference for `Load`. */
  function SumFromFront(ms: seq<Member>): int {
    if |ms| == 0 then 0 else ms[0].experience + SumFromFront(ms[1..])
  }

  lemma {:induction false} SumFromFrontAppend(ms: seq<Member>, m: Member)
    ensures SumFromFront(ms + [m]) == SumFromFront(ms) + m.experience
  {
    if |ms| > 0 {
      SumFromFrontAppend(ms[1..], m);
      assert (ms + [m])[1..] == ms[1..] + [m];
    }
  }

  /** A roster of non-negative experiences has a non-negative total. */
  lemma {:induction false} LoadNonNegative(ms: seq<Member>)
    requires forall i :: 0 <= i < |ms| ==> ms[i].experience >= 0
    ensures Load(ms) >= 0
  {
    if |ms| > 0 {
      LoadNonNegative(ms[..|ms| - 1]);
    }
  }

  /** Adding a member to a roster adds exactly its experience to the load. */
  lemma LoadAppend(ms: seq<Member>, m: Member)
    ensures Load(ms + [m]) == Load(ms) + m.experience
  {
    assert (ms + [m])[..|ms|] == ms;
  }

  /** The guild ids of a snapshot, in snapshot order. */
  function GuildIds(gs: seq<Guild>): (ids: seq<Id>)
    ensures |ids| == |gs|
    ensures forall i :: 0 <= i < |gs| ==> ids[i] == gs[i].id
  {
    seq(|gs|, i requires 0 <= i < |gs| => gs[i].id)
  }

  /** No two guilds of a snapshot share an id (the store's primary key). */
  predicate DistinctIds(gs: seq<Guild>) {
    forall i, j :: 0 <= i < j < |gs| ==> gs[i].id != gs[j].id
  }
}
