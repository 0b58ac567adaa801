/**
 * The balancing and reset fixtures of the service tests, evaluated on the
 * model, plus the distribution they describe spelled so the class check
 * passes.
 */
module Scenarios {
  import opened Wrappers
  import opened Entities
  import opened Balancing
  import Vocabulary
  import PlayerStore
  import PlayerDto

  /** A test player with the fixture's empty guild id. */
  function Unplaced(id: Id, cls: string, experience: int): Candidate {
    Candidate(id, cls, experience, Some(""))
  }

  const TwoEmptyGuilds: seq<Guild> := [Guild("g1", []), Guild("g2", [])]

  /** Two empty guilds and a single warrior: the run fails for lack of classes. */
  lemma SingleWarriorShortage()
    ensures Balance(TwoEmptyGuilds, [Unplaced("p1", "GUERREIRO", 500)], 10) == Failure(NotEnoughClasses)
  {
  }

  /**
   * The six-player fixture spells its clerics "CLÉRIGO"; the check counts only
   * its own mis-decoded spelling, so the run fails instead of distributing.
   */
  lemma FixtureClericsNotCounted()
    ensures Balance(TwoEmptyGuilds,
                    [ Unplaced("p1", "GUERREIRO", 500), Unplaced("p2", "GUERREIRO", 500)
                    , Unplaced("p3", "CL\U{C9}RIGO", 600), Unplaced("p4", "CL\U{C9}RIGO", 600)
                    , Unplaced("p5", "MAGO", 600), Unplaced("p6", "ARQUEIRO", 600) ], 3)
            == Failure(NotEnoughClasses)
  {
    var pool := [ Unplaced("p1", "GUERREIRO", 500), Unplaced("p2", "GUERREIRO", 500)
                , Unplaced("p3", "CL\U{C9}RIGO", 600), Unplaced("p4", "CL\U{C9}RIGO", 600)
                , Unplaced("p5", "MAGO", 600), Unplaced("p6", "ARQUEIRO", 600) ];
    UnassignedAllFree(pool);
    assert CountClass(pool, CountedCleric) == 0;
  }

  /** The six-player distribution, spelled as the check counts, plus a seventh player. */
  const Pool: seq<Candidate> :=
    [ Unplaced("p1", CountedWarrior, 500), Unplaced("p2", CountedWarrior, 500)
    , Unplaced("p3", CountedCleric, 600), Unplaced("p4", CountedCleric, 600)
    , Unplaced("p5", CountedMage, 600), Unplaced("p6", CountedArcher, 600)
    , Unplaced("p7", CountedMage, 100) ]

  /** First guild's roster after the first `n` placements of the distribution. */
  function FirstRoster(n: nat): seq<Member> {
    if n == 0 then [] else if n <= 2 then [AsMember(Pool[0])]
    else if n <= 4 then [AsMember(Pool[0]), AsMember(Pool[2])]
    else [AsMember(Pool[0]), AsMember(Pool[2]), AsMember(Pool[4])]
  }

  /** Second guild's roster after the first `n` placements of the distribution. */
  function SecondRoster(n: nat): seq<Member> {
    if n <= 1 then [] else if n <= 3 then [AsMember(Pool[1])]
    else if n <= 5 then [AsMember(Pool[1]), AsMember(Pool[3])]
    else [AsMember(Pool[1]), AsMember(Pool[3]), AsMember(Pool[5])]
  }

  /** Both guilds after the first `n` placements (six at most: the seventh changes nothing). */
  function Seats(n: nat): seq<Guild> {
    [Guild("g1", FirstRoster(n)), Guild("g2", SecondRoster(n))]
  }

  /** The assignments from player k+1 on: even positions to the first guild, odd to the second, up to the sixth. */
  function Alternating(k: nat): seq<Assignment>
    requires k <= 6
    decreases 6 - k
  {
    if k == 6 then [] else [Assignment(Pool[k].id, if k % 2 == 0 then "g1" else "g2")] + Alternating(k + 1)
  }

  /** Who goes where: players alternate between the guilds, the seventh is skipped. */
  const Choices: seq<Option<Id>> := [Some("g1"), Some("g2"), Some("g1"), Some("g2"), Some("g1"), Some("g2"), None]

  /**
   * With two empty guilds and a limit of three: no roster ever counts as
   * complete, so each player goes to the lighter guild, ties to the first;
   * the seventh finds both guilds full and is skipped.
   */
  lemma DistributionTrace()
    ensures Balance(TwoEmptyGuilds, Pool, 3)
            == Success(RunResult(
                 [ Assignment("p1", "g1"), Assignment("p2", "g2"), Assignment("p3", "g1")
                 , Assignment("p4", "g2"), Assignment("p5", "g1"), Assignment("p6", "g2") ],
                 ["p7"],
                 [ Guild("g1", [AsMember(Pool[0]), AsMember(Pool[2]), AsMember(Pool[4])])
                 , Guild("g2", [AsMember(Pool[1]), AsMember(Pool[3]), AsMember(Pool[5])]) ]))
  {
    DistributionPasses();
    DistributionRun();
  }

  /** Nobody in the pool has a guild and every role is present twice, so the checks pass and the loop runs. */
  lemma DistributionPasses()
    ensures Balance(TwoEmptyGuilds, Pool, 3) == Success(Run(TwoEmptyGuilds, Pool, 3))
  {
    UnassignedAllFree(Pool);
    ChecksPass();
  }

  /** The run itself, spelled out. */
  lemma DistributionRun()
    ensures Run(TwoEmptyGuilds, Pool, 3)
            == RunResult(
                 [ Assignment("p1", "g1"), Assignment("p2", "g2"), Assignment("p3", "g1")
                 , Assignment("p4", "g2"), Assignment("p5", "g1"), Assignment("p6", "g2") ],
                 ["p7"],
                 [ Guild("g1", [AsMember(Pool[0]), AsMember(Pool[2]), AsMember(Pool[4])])
                 , Guild("g2", [AsMember(Pool[1]), AsMember(Pool[3]), AsMember(Pool[5])]) ])
  {
    RunFrom0();
    assert Pool[0..] == Pool;
    AlternatingSpelled();
  }

  /** The alternation written out. */
  lemma AlternatingSpelled()
    ensures Alternating(0)
            == [ Assignment("p1", "g1"), Assignment("p2", "g2"), Assignment("p3", "g1")
               , Assignment("p4", "g2"), Assignment("p5", "g1"), Assignment("p6", "g2") ]
  {
    assert Alternating(4) == [Assignment("p5", "g1"), Assignment("p6", "g2")];
    assert Alternating(2) == [Assignment("p3", "g1"), Assignment("p4", "g2"), Assignment("p5", "g1"), Assignment("p6", "g2")];
  }

  /** Player one: both guilds empty, the tie goes to the first. */
  lemma TraceStep0()
    ensures Place(Seats(0), Pool[0], 3) == Step(Choices[0], Seats(1))
  {
    var m0 := AsMember(Pool[0]);
    assert [] + [m0] == [m0];
    PlaceBetweenTwo(Seats(0)[0], Seats(0)[1], Pool[0]);
  }

  /** Player two: the first guild is heavier, so the second. */
  lemma TraceStep1()
    ensures Place(Seats(1), Pool[1], 3) == Step(Choices[1], Seats(2))
  {
    var m0, m1 := AsMember(Pool[0]), AsMember(Pool[1]);
    assert [] + [m1] == [m1];
    LoadAppend([], m0);
    PlaceBetweenTwo(Seats(1)[0], Seats(1)[1], Pool[1]);
  }

  /** Player three: 500 against 500, the tie goes to the first. */
  lemma TraceStep2()
    ensures Place(Seats(2), Pool[2], 3) == Step(Choices[2], Seats(3))
  {
    var m0, m1, m2 := AsMember(Pool[0]), AsMember(Pool[1]), AsMember(Pool[2]);
    assert [m0] + [m2] == [m0, m2];
    LoadAppend([], m0); LoadAppend([], m1);
    PlaceBetweenTwo(Seats(2)[0], Seats(2)[1], Pool[2]);
  }

  /** Player four: 1100 against 500, the second. */
  lemma TraceStep3()
    ensures Place(Seats(3), Pool[3], 3) == Step(Choices[3], Seats(4))
  {
    var m0, m1, m2, m3 := AsMember(Pool[0]), AsMember(Pool[1]), AsMember(Pool[2]), AsMember(Pool[3]);
    assert [m1] + [m3] == [m1, m3];
    LoadAppend([], m0); LoadAppend([m0], m2); LoadAppend([], m1);
    PlaceBetweenTwo(Seats(3)[0], Seats(3)[1], Pool[3]);
  }

  /** Player five: 1100 against 1100, the first. */
  lemma TraceStep4()
    ensures Place(Seats(4), Pool[4], 3) == Step(Choices[4], Seats(5))
  {
    var m0, m1, m2, m3, m4 := AsMember(Pool[0]), AsMember(Pool[1]), AsMember(Pool[2]), AsMember(Pool[3]), AsMember(Pool[4]);
    assert [m0, m2] + [m4] == [m0, m2, m4];
    LoadAppend([], m0); LoadAppend([m0], m2); LoadAppend([], m1); LoadAppend([m1], m3);
    PlaceBetweenTwo(Seats(4)[0], Seats(4)[1], Pool[4]);
  }

  /** Player six: the first guild is full, so the second. */
  lemma TraceStep5()
    ensures Place(Seats(5), Pool[5], 3) == Step(Choices[5], Seats(6))
  {
    var m1, m3, m5 := AsMember(Pool[1]), AsMember(Pool[3]), AsMember(Pool[5]);
    assert [m1, m3] + [m5] == [m1, m3, m5];
    PlaceBetweenTwo(Seats(5)[0], Seats(5)[1], Pool[5]);
  }

  /** Player seven: both guilds are full and the player is skipped. */
  lemma TraceStep6()
    ensures Place(Seats(6), Pool[6], 3) == Step(Choices[6], Seats(7))
  {
    PlaceBetweenTwo(Seats(6)[0], Seats(6)[1], Pool[6]);
  }

  /** The run from player 7 on. */
  lemma RunFrom6()
    ensures Run(Seats(6), Pool[6..], 3) == RunResult(Alternating(6), ["p7"], Seats(6))
  {
    TraceStep6();
    assert Pool[6..][1..] == [];
  }

  /** The run from player 6 on. */
  lemma RunFrom5()
    ensures Run(Seats(5), Pool[5..], 3) == RunResult(Alternating(5), ["p7"], Seats(6))
  {
    TraceStep5();
    RunFrom6();
    assert Pool[5..][1..] == Pool[6..];
  }

  /** The run from player 5 on. */
  lemma RunFrom4()
    ensures Run(Seats(4), Pool[4..], 3) == RunResult(Alternating(4), ["p7"], Seats(6))
  {
    TraceStep4();
    RunFrom5();
    assert Pool[4..][1..] == Pool[5..];
  }

  /** The run from player 4 on. */
  lemma RunFrom3()
    ensures Run(Seats(3), Pool[3..], 3) == RunResult(Alternating(3), ["p7"], Seats(6))
  {
    TraceStep3();
    RunFrom4();
    assert Pool[3..][1..] == Pool[4..];
  }

  /** The run from player 3 on. */
  lemma RunFrom2()
    ensures Run(Seats(2), Pool[2..], 3) == RunResult(Alternating(2), ["p7"], Seats(6))
  {
    TraceStep2();
    RunFrom3();
    assert Pool[2..][1..] == Pool[3..];
  }

  /** The run from player 2 on. */
  lemma RunFrom1()
    ensures Run(Seats(1), Pool[1..], 3) == RunResult(Alternating(1), ["p7"], Seats(6))
  {
    TraceStep1();
    RunFrom2();
    assert Pool[1..][1..] == Pool[2..];
  }

  /** The run from player 1 on. */
  lemma RunFrom0()
    ensures Run(Seats(0), Pool[0..], 3) == RunResult(Alternating(0), ["p7"], Seats(6))
  {
    TraceStep0();
    RunFrom1();
    assert Pool[0..][1..] == Pool[1..];
  }

  /** The distribution pool has two of each counted role. */
  lemma ChecksPass()
    ensures !ClassShortage(Pool, 2)
  {
    MageOrArcherIsSum(Pool);
    assert Pool[7..] == [];
    assert Pool[6..][1..] == Pool[7..];
    assert CountClass(Pool[6..], CountedWarrior) == 0;
    assert CountClass(Pool[6..], CountedCleric) == 0;
    assert CountClass(Pool[6..], CountedMage) == 1;
    assert Pool[5..][1..] == Pool[6..];
    assert CountClass(Pool[5..], CountedWarrior) == 0;
    assert CountClass(Pool[5..], CountedCleric) == 0;
    assert CountClass(Pool[5..], CountedMage) == 1;
    assert Pool[4..][1..] == Pool[5..];
    assert CountClass(Pool[4..], CountedWarrior) == 0;
    assert CountClass(Pool[4..], CountedCleric) == 0;
    assert CountClass(Pool[4..], CountedMage) == 2;
    assert Pool[3..][1..] == Pool[4..];
    assert CountClass(Pool[3..], CountedWarrior) == 0;
    assert CountClass(Pool[3..], CountedCleric) == 1;
    assert CountClass(Pool[3..], CountedMage) == 2;
    assert Pool[2..][1..] == Pool[3..];
    assert CountClass(Pool[2..], CountedWarrior) == 0;
    assert CountClass(Pool[2..], CountedCleric) == 2;
    assert CountClass(Pool[2..], CountedMage) == 2;
    assert Pool[1..][1..] == Pool[2..];
    assert CountClass(Pool[1..], CountedWarrior) == 1;
    assert CountClass(Pool[1..], CountedCleric) == 2;
    assert CountClass(Pool[1..], CountedMage) == 2;
    assert Pool[0..][1..] == Pool[1..];
    assert CountClass(Pool[0..], CountedWarrior) == 2;
    assert CountClass(Pool[0..], CountedCleric) == 2;
    assert CountClass(Pool[0..], CountedMage) == 2;
    assert Pool[0..] == Pool;
  }

  /**
   * Placement between two guilds whose rosters are incomplete, limit three:
   * the first guild if it has room and is not heavier than a second guild
   * with room, else the second if it has room, else nobody.
   */
  lemma PlaceBetweenTwo(a: Guild, b: Guild, c: Candidate)
    requires a.id == "g1" && b.id == "g2"
    requires forall i :: 0 <= i < |a.members| ==> Vocabulary.Counted(a.members[i].cls)
    requires forall i :: 0 <= i < |b.members| ==> Vocabulary.Counted(b.members[i].cls)
    ensures Place([a, b], c, 3)
            == if |a.members| < 3 && (|b.members| >= 3 || Load(a.members) <= Load(b.members))
               then Step(Some(a.id), [a.(members := a.members + [AsMember(c)]), b])
               else if |b.members| < 3 then Step(Some(b.id), [a, b.(members := b.members + [AsMember(c)])])
               else Step(None, [a, b])
  {
    Vocabulary.CountedRosterNeverComplete(a.members);
    Vocabulary.CountedRosterNeverComplete(b.members);
    var gs := [a, b];
    var i := SelectSpec(gs, 3);
    if |a.members| < 3 && (|b.members| >= 3 || Load(a.members) <= Load(b.members)) {
      assert Select(gs, 3) == Some("g1") by {
        assert Eligible(gs[0], 3);
      }
      assert FindGuild(gs, "g1") == Some(0);
    } else if |b.members| < 3 {
      assert Select(gs, 3) == Some("g2") by {
        assert Eligible(gs[1], 3);
      }
      assert FindGuild(gs, "g2") == Some(1);
    } else {
      assert !Eligible(gs[0], 3) && !Eligible(gs[1], 3);
    }
  }

  /** The reset fixture: one player in guild g1, one disconnect, the guild cleared. */
  lemma ResetSinglePlayer()
    ensures PlayerStore.ResetPlayersGuild(map["p1" := PlayerStore.PlayerRecord("Player1", "GUERREIRO", 500, Some("g1"))], ["p1"])
            == Success(PlayerStore.ResetResult(["p1"], map["p1" := PlayerStore.PlayerRecord("Player1", "GUERREIRO", 500, None)]))
  {
    var before := map["p1" := PlayerStore.PlayerRecord("Player1", "GUERREIRO", 500, Some("g1"))];
    var after := map["p1" := PlayerStore.PlayerRecord("Player1", "GUERREIRO", 500, None)];
    assert PlayerStore.Disconnect(before, "p1") == Success(after) by {
      assert before["p1" := before["p1"].(guildId := None)] == after;
    }
    assert ["p1"][1..] == [];
    assert PlayerStore.ResetPlayersGuild(after, []) == Success(PlayerStore.ResetResult([], after));
    assert [["p1"][0]] + [] == ["p1"];
  }

  /**
   * An update request without an experience: the defaulted copy passes
   * validation, the raw body reaches the store with no experience, and the
   * stored experience is kept.
   */
  lemma UpdateWithoutExperience()
    ensures PlayerDto.Validate(PlayerDto.Construct(
              PlayerDto.PlayerInput(PlayerDto.Str("Ana"), PlayerDto.Str("MAGE"), PlayerDto.Undefined, PlayerDto.Undefined))) == []
    ensures var ps := map["p1" := PlayerStore.PlayerRecord("Ana", "MAGE", 40, None)];
            var r := PlayerStore.UpdatePlayer(ps, "p1", PlayerStore.PlayerChanges(Some("Ana"), Some("MAGE"), None, None), Some("p1"));
            r.Success? && r.value["p1"].experience == 40
  {
    assert PlayerDto.IntValue(0) == PlayerDto.Num(0.0);
  }
}
