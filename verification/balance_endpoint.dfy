/**
 * The balancing request handler's own rule: a per-guild limit below three is
 * refused as a client error before the run is attempted; run failures are
 * reported as server errors.
 */
module BalanceEndpoint {
  import opened Wrappers
  import opened Entities
  import opened Balancing

  /** The smallest per-guild limit the handler accepts. */
  const MinGuildPlayers: int := 3

  datatype EndpointError =
    | CapacityTooSmall               // "Max guild players must be at least 3"
    | ServiceFailed(cause: BalanceError)

  /** Checks the limit, then runs the balancing. */
  function HandleBalance(guilds: seq<Guild>, candidates: seq<Candidate>, maxGuildPlayers: int)
    : (r: Result<RunResult, EndpointError>)
    ensures r == Failure(CapacityTooSmall) <==> maxGuildPlayers < MinGuildPlayers
    ensures maxGuildPlayers >= MinGuildPlayers ==>
              match Balance(guilds, candidates, maxGuildPlayers)
              case Success(v) => r == Success(v)
              case Failure(e) => r == Failure(ServiceFailed(e))
  {
    if maxGuildPlayers < MinGuildPlayers then Failure(CapacityTooSmall)
    else match Balance(guilds, candidates, maxGuildPlayers)
      case Success(v) => Success(v)
      case Failure(e) => Failure(ServiceFailed(e))
  }

  /** The HTTP status the handler answers with. */
  function Status(r: Result<RunResult, EndpointError>): (code: int)
    ensures code == 200 <==> r.Success?
    ensures code == 400 <==> r == Failure(CapacityTooSmall)
    ensures code == 200 || code == 400 || code == 500
  {
    match r
    case Success(_) => 200
    case Failure(CapacityTooSmall) => 400
    case Failure(ServiceFailed(_)) => 500
  }

  /**
   * A too-small limit is the only client error, and it wins even when the
   * store holds no guild; every run failure is a server error.
   */
  lemma StatusRule(guilds: seq<Guild>, candidates: seq<Candidate>, maxGuildPlayers: int)
    ensures Status(HandleBalance(guilds, candidates, maxGuildPlayers)) == 400 <==> maxGuildPlayers < MinGuildPlayers
    ensures Status(HandleBalance(guilds, candidates, maxGuildPlayers)) == 500
            <==> maxGuildPlayers >= MinGuildPlayers && Balance(guilds, candidates, maxGuildPlayers).Failure?
    ensures Status(HandleBalance(guilds, candidates, maxGuildPlayers)) == 200
            <==> maxGuildPlayers >= MinGuildPlayers && Balance(guilds, candidates, maxGuildPlayers).Success?
  {
  }
}
