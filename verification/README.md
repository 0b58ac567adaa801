# Guild balancing service — a Dafny model

This project models the service core of a small guild manager for a
role-playing game. Players have a class label, an experience value and an
optional guild. Guilds are named and hold a roster of players. The model covers:

- **The balancing run** (`PlayerService.balancedPlayer`). The run reads a
  snapshot of every guild with its roster. It keeps the offered players whose
  guild id is falsy and handles them in input order. Before each placement it
  re-checks that the pool holds at least as many warriors, clerics, and
  mages-plus-archers as there are guilds. For each player it then:
  - summarises every guild still below the per-guild limit: its total
    experience, and whether its roster already covers the required roles
    (`hasRequiredClasses`);
  - stable-sorts the summaries, complete rosters first and then by lower
    load;
  - pushes the player onto the first guild carrying the head's id, or skips
    the player when no guild has room.
- **The request handler's guard.** A per-guild limit below 3 is a client
  error (HTTP 400). Failures of the run are server errors (HTTP 500).
- **Player create/update.** A name already in use is refused on create. On
  update it is refused only when the name is truthy and belongs to another
  player. A truthy guild id connects the guild. The update handler validates
  a defaulted copy of the request but hands the raw body on, so an update
  field can be absent, and an absent field keeps its stored value. The reset
  issues one disconnect per listed player.
- **Guild create/rename/delete.** A name may be taken only once; a rename
  conflicts even with the guild's own current name.
- **The player request and response shapes.** The request constructor's
  defaults and the validation rules its decorators declare. The output
  DTO's constructor maps a falsy guild id to null; the handlers do not use
  it, and build their responses by copying the stored fields, guild id
  included, as they are.

Modules: `Entities` (snapshot records), `RequiredClass` (roster
predicate), `Ranking` (comparator, stable sort, head of the sort), `Balancing`
(the run), `BalancingProperties` (what a run guarantees), `BalanceEndpoint`,
`PlayerStore`, `GuildStore`, `PlayerDto`, `Vocabulary` (how the class labels
of the different parts relate), `Scenarios` (the service tests' fixtures).

Behaviour of the code as written, which the model follows:

- **Three class vocabularies that never meet.** Each part of the code uses
  its own class labels:
  - the validator accepts `WARRIOR`, `MAGE`, `CLERIC`;
  - the sufficiency check counts `GUERREIRO`, `MAGO`, `ARQUEIRO` and a
    mis-decoded `CLÃ‰RIGO`;
  - the roster predicate looks for `Clérigo`, `Guerreiro`, `Mago`, `Arqueiro`.

  Two consequences are proved:
  - a non-empty pool of validated players always fails the sufficiency check
    (`Vocabulary.AcceptedPoolAlwaysFails`);
  - no roster made of validator or counted labels is ever complete, so
    ranking reduces to load alone (`Vocabulary.ChoiceByLoadOnly`).
- **The service test's six-player fixture fails.** It spells clerics
  `CLÉRIGO`, which the check does not count, so the run fails instead of
  distributing (`Scenarios.FixtureClericsNotCounted`). The same distribution
  spelled the way the check counts is traced in full
  (`Scenarios.DistributionTrace`).
- **The "needs class" summary means "already complete".** The flag is the
  value of `hasRequiredClasses`, so guilds whose roster is already complete
  rank first. Ranking does not depend on the candidate's own class.
- **The limit is checked in the handler.** The `maxGuildPlayers < 3` check
  sits in the HTTP handler, not in the run. The run accepts any limit.
- **Archers cannot be created.** The validator's class list has no archer
  label.

## Model

| member | source | states |
|---|---|---|
| Balancing.Unassigned | src/services/player.service.ts:82 | the pool is no longer than the offered list and nobody in it has a truthy guild id |
| Balancing.CountClass | src/services/player.service.ts:87-88 | the count of a label is at most the pool's size, and positive exactly when some pool player carries that label |
| Balancing.CountMageOrArcher | src/services/player.service.ts:89 | the mage-or-archer count is at most the pool's size |
| Balancing.ClassShortage | src/services/player.service.ts:87-92 | a pool that passes the check holds at least three players per guild |
| Balancing.RolesFitPool | src/services/player.service.ts:87-89 | the three counted roles are disjoint: warriors, clerics and mages-or-archers together never exceed the pool |
| Balancing.InfoOf | src/services/player.service.ts:101-109 | a summary carries its guild's id, and a guild counted complete has at least three members |
| Balancing.Infos | src/services/player.service.ts:96-110 | there are no more summaries than guilds |
| Balancing.InfosSource | src/services/player.service.ts:96-110 | each summary is the summary of one guild that is below the limit; the summaries follow guild order with strictly increasing guild positions; every guild below the limit contributes one |
| Balancing.InfosMembership | src/services/player.service.ts:96-110 | the summaries are exactly those of the guilds below the limit |
| Balancing.Select | src/services/player.service.ts:112-129 | a guild is selected exactly when some summary exists, and it is the guild of the first best summary (nothing sorts strictly before it, it sorts strictly before every earlier one) |
| Balancing.Place | src/services/player.service.ts:128-143 | a skipped player leaves the rosters untouched; the number of guilds never changes |
| Balancing.Run | src/services/player.service.ts:84-143 | one decision per pool player, and the number of guilds kept |
| Balancing.Loop | src/services/player.service.ts:84-143 | the loop fails only with the class error and only over a non-empty pool; a successful loop makes one decision per player |
| Balancing.Balance | src/services/player.service.ts:74-152 | no guild fails with GuildsNotFound; an empty pool returns the snapshot untouched; with guilds, the run fails exactly when the pool is non-empty and short of a role; otherwise the result is the placement run over the pool |
| Balancing.LoopChecksOnce | src/services/player.service.ts:84-94 | the in-loop class check either fires before the first placement or never, because its inputs do not change while the loop runs |
| Balancing.UnassignedMembership | src/services/player.service.ts:82 | a player is in the pool exactly when it was offered and its guild id is falsy |
| Balancing.UnassignedAllFree | src/services/player.service.ts:82 | a list in which nobody has a guild id is its own pool |
| Balancing.UnassignedIdempotent | src/services/player.service.ts:82 | filtering the pool again changes nothing |
| Balancing.UnassignedAppend | src/services/player.service.ts:82 | the pool of a concatenation is the concatenation of the pools (the filter keeps order) |
| Balancing.MageOrArcherIsSum | src/services/player.service.ts:87-89 | counting mages-or-archers together equals counting mages plus counting archers |
| Balancing.InfosEmpty | src/services/player.service.ts:96-110 | there are no guild summaries exactly when every guild is at or above the limit |
| Balancing.RankedFirstIsChoice | src/services/player.service.ts:112-126 | being first under the comparator is the same as the choice stated in roster terms: complete before incomplete, then least load, earlier guild on ties |
| Balancing.InfosChoice | src/services/player.service.ts:96-126 | the first best summary belongs to a guild that has room and ranks first among the guilds with room |
| Balancing.SelectSpec | src/services/player.service.ts:96-129 | selection yields nothing exactly when no guild has room; otherwise it yields the id of a guild satisfying the choice rule |
| Balancing.FindGuild | src/services/player.service.ts:137 | the found index is the first guild carrying the id; none is found only when no guild carries it |
| Balancing.Join | src/services/player.service.ts:137-140 | pushing a member keeps the number of guilds and every guild's id |
| BalancingProperties.FindDistinct | src/services/player.service.ts:137 | with distinct guild ids, looking up a guild's id finds that very guild |
| BalancingProperties.PlaceSpec | src/services/player.service.ts:128-143 | a player is skipped exactly when no guild has room, and then nothing changes; otherwise the chosen guild gains exactly that player at the end of its roster and every other guild is unchanged |
| BalancingProperties.StepShape | src/services/player.service.ts:128-143 | one iteration keeps the guilds and their order, only extends rosters, and picks a guild of the snapshot |
| BalancingProperties.RunDecisions | src/services/player.service.ts:84-143 | the assignments and the skipped list are the two projections of one pool-aligned decision list, so each pool player lands in exactly one of them; both follow pool order |
| BalancingProperties.RunFollowsPool | src/services/player.service.ts:84-143 | the assignments' player ids and the skipped ids are each a subsequence of the pool ids |
| BalancingProperties.Decisions | src/services/player.service.ts:84-143 | the run's decisions, one per pool player, aligned with the pool |
| BalancingProperties.RunProjects | src/services/player.service.ts:128-143 | the run's assignments are the players whose decision names a guild (with that guild) and its skipped list the players with no decision, both in pool order |
| BalancingProperties.PlacedByMembership | src/services/player.service.ts:128-140 | an assignment is present exactly when some player's decision names its guild |
| BalancingProperties.SkippedByMembership | src/services/player.service.ts:141-143 | an id is skipped exactly when some player with that id got no decision |
| BalancingProperties.EachPlayerDecidedOnce | src/services/player.service.ts:84-143 | with distinct pool ids, each pool player is assigned exactly when its decision names a guild (and to that guild) and skipped exactly when it has none, never both |
| BalancingProperties.RunGuilds | src/services/player.service.ts:84-143 | the run keeps the guilds in order, only extends rosters, and assigns only to guilds of the snapshot |
| BalancingProperties.RunCapacity | src/services/player.service.ts:96-99 | a guild at or above the limit is never touched; a guild below it ends at most at the limit |
| BalancingProperties.StepCapacity | src/services/player.service.ts:96-140 | one iteration keeps guild ids distinct, leaves full guilds untouched, and grows a guild with room to at most the limit |
| BalancingProperties.StepRosters | src/services/player.service.ts:135-140 | after one iteration each roster's ids are its previous ids plus this player when the player was sent to it |
| BalancingProperties.RunRosters | src/services/player.service.ts:84-143 | each final roster is the initial roster followed by exactly the players assigned to that guild, in assignment order |
| BalancingProperties.RecordAssignedTo | src/services/player.service.ts:129-135 | the players sent to a guild by a run are this iteration's (if any) followed by the rest's |
| BalancingProperties.BalanceIgnoresAssigned | src/services/player.service.ts:82 | offering players that already have a guild changes nothing about the outcome |
| BalancingProperties.AlreadyAssignedNeverPlaced | src/services/player.service.ts:82-84 | with distinct player ids, a player offered with a guild id is never assigned |
| BalancingProperties.BalanceSpec | src/services/player.service.ts:74-152 | a successful run's assignments and skipped list are the two projections of one decision per unassigned player, in pool order; it respects the limit, keeps the guilds, and grows each roster by exactly its assigned players |
| Entities.Load | src/services/player.service.ts:101 | the left-to-right total equals the total folded from the front |
| Entities.LoadNonNegative | src/services/player.service.ts:101 | a roster of non-negative experiences has a non-negative total |
| Entities.SumFromFrontAppend | src/services/player.service.ts:101 | adding a member at the end adds exactly its experience to the total folded from the front |
| Entities.LoadAppend | src/services/player.service.ts:101 | adding a member adds exactly its experience to the roster's total |
| RequiredClass.HasRequiredClasses | src/utils/requiredClass.ts:1-8 | a complete roster has at least three members, the three role labels being distinct |
| RequiredClass.RequiredClassesBySet | src/utils/requiredClass.ts:1-8 | a roster is complete exactly when its label set holds the cleric label, the warrior label, and the mage or the archer label |
| RequiredClass.ClassInSet | src/utils/requiredClass.ts:2-6 | a label occurs in the mapped class list exactly when some member carries it |
| RequiredClass.DependsOnlyOnClassSet | src/utils/requiredClass.ts:1-8 | rosters with the same label set are both complete or both incomplete: order, duplicates and experience do not matter |
| RequiredClass.EmptyRosterIncomplete | src/utils/requiredClass.ts:3-7 | an empty roster is never complete |
| RequiredClass.AppendKeepsComplete | src/utils/requiredClass.ts:1-8 | a complete roster stays complete when a member is added |
| RequiredClass.MatchingIsExact | src/utils/requiredClass.ts:4-6 | labels match exactly: an upper-case or padded warrior label does not count, the exact spelling does |
| RequiredClass.MageArcherInterchangeable | src/utils/requiredClass.ts:6 | turning a mage into an archer never changes completeness |
| Ranking.Compare | src/services/player.service.ts:112-126 | the comparator answers -1, 0 or 1, and is negative exactly when the first summary is complete and the second is not, or both agree on completeness and the first has the lower load |
| Ranking.CompareIsConsistent | src/services/player.service.ts:112-126 | the comparator is antisymmetric and reflexive-zero, both "before" and "not after" are transitive, and it returns 0 exactly on equal completeness and load |
| Ranking.Insert | src/services/player.service.ts:112 | insertion adds exactly one element and keeps the others (multiset) |
| Ranking.InsertSorted | src/services/player.service.ts:112-126 | inserting into a sorted sequence keeps it sorted |
| Ranking.Rank | src/services/player.service.ts:112 | the sort is a permutation of its input |
| Ranking.RankSorted | src/services/player.service.ts:112-126 | the sort's output is sorted under the comparator |
| Ranking.BestIndex | src/services/player.service.ts:112-129 | the returned position is the first best summary: nothing sorts strictly before it and it sorts strictly before every earlier summary |
| Ranking.FirstBestIsUnique | src/services/player.service.ts:112-129 | at most one position is the first best summary |
| Ranking.RankHead | src/services/player.service.ts:128-129 | the head of the stable sort is the input's first best summary |
| Ranking.RankHeadCharacterised | src/services/player.service.ts:128-129 | a position is the first best exactly when it is the one the head of the sort comes from |
| BalanceEndpoint.HandleBalance | src/adapters/http/player/player.controller.ts:163-175 | a limit below 3 is refused before the run; otherwise the run's success or failure is passed through |
| BalanceEndpoint.Status | src/adapters/http/player/player.controller.ts:166-174 | 200 exactly on success, 400 exactly for the too-small limit, and no other code than 200, 400 or 500 |
| BalanceEndpoint.StatusRule | src/adapters/http/player/player.controller.ts:163-175 | 400 exactly when the limit is below 3 (even without guilds); 500 exactly when the limit is accepted and the run fails; 200 exactly when it succeeds |
| PlayerStore.Connected | src/services/player.service.ts:35-41 | a guild is connected exactly when the given guild id is truthy, and it is that id |
| PlayerStore.CreatePlayer | src/services/player.service.ts:23-44 | creation fails exactly when some player already has the name; otherwise exactly one new record is added under the fresh id and the others are unchanged |
| PlayerStore.UpdatePlayer | src/services/player.service.ts:45-68 | a name conflict is reported exactly when the name is truthy and the lookup finds another player; a missing id is reported otherwise; on success only that player changes: each given field is overwritten, each absent one kept, and the guild changes only when a truthy guild id is given |
| PlayerStore.CreateKeepsNamesUnique | src/services/player.service.ts:24-27 | creation preserves uniqueness of non-empty names |
| PlayerStore.UpdateNameRule | src/services/player.service.ts:46-51 | on a store with unique names, an update is refused for its name exactly when the name is truthy and held by a different player; keeping one's own name is allowed |
| PlayerStore.UpdateKeepsNamesUnique | src/services/player.service.ts:46-51 | a successful update preserves uniqueness of non-empty names |
| PlayerStore.EmptyNameSkipsCheck | src/services/player.service.ts:46 | an update with an empty name skips the check, so two players can both end up named "" |
| PlayerStore.Disconnect | src/services/player.service.ts:157-162 | the disconnect write clears exactly that player's guild and fails on a missing id |
| PlayerStore.ResetPlayersGuild | src/services/player.service.ts:154-166 | the reset fails exactly when some listed id is not stored, naming such an id; on success it disconnects exactly the listed ids in listing order and keeps the set of players |
| PlayerStore.ResetClearsListed | src/services/player.service.ts:153-166 | over a listing of stored players the reset succeeds, disconnects each listed player in listing order, clears exactly their guilds and changes nothing else |
| PlayerStore.ResetClearsAll | src/services/player.service.ts:153-166 | when the listing is every stored player once, there is exactly one disconnect per player and every player ends without a guild |
| GuildStore.CreateGuild | src/services/guild.service.ts:20-32 | creation fails exactly when some guild has the name; otherwise exactly one guild with that name is added and the others are unchanged |
| GuildStore.UpdateGuild | src/services/guild.service.ts:34-44 | a rename fails exactly when any guild holds the new name; a missing id is reported otherwise; on success only that guild is renamed |
| GuildStore.DeleteGuild | src/services/guild.service.ts:46-48 | deletion fails exactly on a missing id; otherwise it removes exactly that guild |
| GuildStore.RenameToOwnNameFails | src/services/guild.service.ts:35-38 | renaming a guild to the name it already has is refused |
| GuildStore.OperationsKeepNamesUnique | src/services/guild.service.ts:20-48 | create, rename and delete each keep guild names pairwise distinct |
| GuildStore.CreateThenDelete | src/services/guild.service.ts:20-48 | deleting a just-created guild restores the store |
| PlayerDto.OrElse | src/adapters/http/player/dto/player.dto.ts:25-27 | `v \|\| fallback` is `v` when truthy and the fallback otherwise |
| PlayerDto.Construct | src/adapters/http/player/dto/player.dto.ts:24-29 | falsy name or class become "", falsy experience becomes 0, truthy values and the guild id pass through |
| PlayerDto.Validate | src/adapters/http/player/dto/player.dto.ts:5-22 | at most four errors, no field reported twice, and an accepted input has a string name and class, a numeric experience, and a guild id that is missing or a string |
| PlayerDto.ValidationRules | src/adapters/http/player/dto/player.dto.ts:5-22 | a name passes exactly when it is a non-empty string; a class exactly when it is one of WARRIOR, MAGE, CLERIC; an experience exactly when it is an integer from 0 to 100; a guild id exactly when it is missing or a string |
| PlayerDto.AcceptedRequests | src/adapters/http/player/dto/player.dto.ts:5-29 | a raw request passes after construction exactly when its name is a non-empty string, its class is allowed, its experience is falsy or an integer from 1 to 100, and its guild id is missing or a string |
| PlayerDto.MissingNameRejected | src/adapters/http/player/dto/player.dto.ts:6-8 | a request without a name is rejected on the name despite the constructor's default |
| PlayerDto.ToOutput | src/adapters/http/player/dto/player.dto.ts:43-52 | the output guild id is null exactly when the stored one is absent or "", and is otherwise copied; every other field is copied |
| PlayerDto.ToOutputIdempotent | src/adapters/http/player/dto/player.dto.ts:43-52 | normalising an already normalised player changes nothing |
| Vocabulary.AcceptedNeverCounted | src/services/player.service.ts:87-89 | the sufficiency check counts no player whose label the validator accepts |
| Vocabulary.AcceptedPoolAlwaysFails | src/services/player.service.ts:87-94 | with at least one guild, a run over validated players fails for lack of classes as soon as one of them has no guild |
| Vocabulary.AcceptedRosterNeverComplete | src/utils/requiredClass.ts:1-8 | a roster of validator labels is never complete |
| Vocabulary.CountedRosterNeverComplete | src/utils/requiredClass.ts:1-8 | a roster of the labels the check counts is never complete |
| Vocabulary.ChoiceByLoadOnly | src/services/player.service.ts:103-126 | when no roster is complete, the choice is the first guild with room whose load is least among the guilds with room |
| Scenarios.SingleWarriorShortage | src/services/player.service.spec.ts:110-130 | two empty guilds and one warrior: the run fails for lack of classes |
| Scenarios.FixtureClericsNotCounted | src/services/player.service.spec.ts:81-108 | the six-player fixture as spelled fails for lack of classes, because its cleric label is not the one counted |
| Scenarios.PlaceBetweenTwo | src/services/player.service.ts:96-143 | between two guilds with incomplete rosters and limit 3: the first when it has room and is not heavier than a second with room, else the second when it has room, else nobody |
| Scenarios.DistributionTrace | src/services/player.service.ts:74-152 | the fixture's distribution spelled as counted, plus a seventh player: players alternate g1, g2, ties to g1, and the seventh is skipped with both guilds full |
| Scenarios.UpdateWithoutExperience | src/adapters/http/player/player.controller.ts:104-130 | an update request without an experience passes validation through the constructor's default, and the update it hands on keeps the stored experience |
| Scenarios.ResetSinglePlayer | src/services/player.service.spec.ts:133-147 | one player in g1: exactly one disconnect, and the player ends without a guild |

## Left out

- The data store: repositories, Prisma queries and their filters, connection handling and timestamps. Stores are maps, and the by-name lookup is an input constrained to answer consistently with the map.
- `getGuildByName` is not part of this model: the guild repository does not define it. The guild name lookup is modelled as an exact-name search of the map.
- Identifier generation: fresh ids are inputs, required not to be in use.
- The balancing run's final re-read of the guilds and its "Balanced guilds not found" error. The model returns the in-memory rosters it built. These match the re-read (up to the order the store lists roster members in) only when the store is unchanged and every offered player is stored, is offered once, and carries the guild id the store holds. Otherwise they differ: a stored member of g1 offered with a falsy guild id stays in g1's in-memory roster and is also pushed onto the chosen guild, and a player offered twice is pushed twice.
- The per-player store write during balancing. It is modelled as the assignment it records. Its failures (for example a player id unknown to the store) are not modelled.
- `console.warn` for skipped players. The model records skipped players in a list.
- `BalancedPlayersDTO`. Its definition is not in the DTO file. The run takes the selected players and the limit directly, and the limit is an unbounded integer (no fractional or non-numeric limit).
- Malformed offered players. The handler checks only the limit, so the offered players are the unvalidated body. The model assumes them well typed: an integer experience, a string class, and a guild id that is a string or absent. With a string experience the load is a string concatenation. A missing experience makes the load of the guild the player is pushed onto `NaN`: the completeness branches of the comparator still order guilds, and guilds with numeric loads still compare with each other, but every load comparison against the `NaN` guild answers 0. The comparator is then inconsistent and the order the sort produces is up to the implementation. Neither case is modelled.
- `getPlayerById`, `getAllPlayers`, `deletePlayer`, `getGuildById`, `getAllGuilds`. They are direct store pass-throughs with no logic of their own.
- The guild controller and the player controller's other handlers: HTTP plumbing only. Of the player controller only the balancing guard is modelled.
- The validation library's internals: error messages, the whitelist and forbid options, and `NaN`/`Infinity` numbers. A request field is one of undefined, null, boolean, finite number, string or object.
- Foreign-key checks on connect and on guild deletion (the store's behaviour).
- Concurrency between requests: each operation is modelled as atomic.
- PlayerStore.CreatePlayer: takes the experience as present. A create request without one passes validation (the constructor defaults it to 0) but reaches the store without a value, where the store's schema default decides; the schema is not part of this model.
- PlayerStore.UpdatePlayer: an absent field is one missing from the raw body. A present `null` or other falsy non-number experience, which validation also lets through via the constructor's default, is not modelled.
- BalancingProperties.RunCapacity: requires distinct guild ids (the store's primary key). With repeated ids the `find` could push onto a different guild than the one that was ranked.
- BalancingProperties.BalanceSpec: requires distinct guild ids, for the same reason.
- BalancingProperties.AlreadyAssignedNeverPlaced: requires distinct player ids in the offered list.
