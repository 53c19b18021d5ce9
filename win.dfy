/** The win evaluator and the list of winners (src/utils/winConditions.js). */
module WinConditions {
  import opened Wrappers
  import opened Seqs
  import opened Roles
  import opened Records

  /** The four reasons the evaluator reports. */
  datatype WinReason = NoPlayersAlive | MafiaOutnumbers | AllMafiaEliminated | GameContinues

  function ReasonText(r: WinReason): string {
    match r
    case NoPlayersAlive => "No players alive"
    case MafiaOutnumbers => "Mafia equals or outnumbers other players"
    case AllMafiaEliminated => "All Mafia eliminated"
    case GameContinues => "Game continues"
  }

  /** `{winner, reason}`; the winner is a team or null. */
  datatype WinResult = WinResult(winner: Option<Team>, reason: WinReason)

  /** A player the evaluator counts: alive and not God. */
  predicate Counted(p: Player) {
    p.isAlive && p.role != Some(God)
  }

  /** The living players other than God. */
  function Living(players: seq<Player>): seq<Player> {
    Filter(players, Counted)
  }

  /** How many of the players are on the team. */
  function CountTeam(players: seq<Player>, team: Team): nat
    decreases |players|
  {
    if |players| == 0 then 0
    else CountTeam(players[..|players| - 1], team) + (if GetTeam(players[|players| - 1].role) == team then 1 else 0)
  }

  /**
   * The outcome for a list of players: nobody alive; else mafia wins when it
   * has members and at least as many as the citizen team (neutrals are not
   * counted); else citizens win when no mafia is left; else play goes on.
   */
  function Evaluate(players: seq<Player>): WinResult {
    var alive := Living(players);
    var mafia := CountTeam(alive, MafiaTeam);
    var citizen := CountTeam(alive, CitizenTeam);
    if |alive| == 0 then WinResult(None, NoPlayersAlive)
    else if mafia >= citizen && mafia > 0 then WinResult(Some(MafiaTeam), MafiaOutnumbers)
    else if mafia == 0 then WinResult(Some(CitizenTeam), AllMafiaEliminated)
    else WinResult(None, GameContinues)
  }

  /** `checkWinCondition`: filters the living non-God players and counts them team by team. */
  method CheckWinCondition(players: seq<Player>) returns (result: WinResult)
    ensures result == Evaluate(players)
  {
    var alivePlayers := Filter(players, Counted);
    if |alivePlayers| == 0 {
      return WinResult(None, NoPlayersAlive);
    }
    var mafia, citizen, neutral := 0, 0, 0;
    for i := 0 to |alivePlayers|
      invariant mafia == CountTeam(alivePlayers[..i], MafiaTeam)
      invariant citizen == CountTeam(alivePlayers[..i], CitizenTeam)
      invariant neutral == CountTeam(alivePlayers[..i], Neutral)
    {
      assert alivePlayers[..i + 1][..i] == alivePlayers[..i];
      match GetTeam(alivePlayers[i].role)
      case MafiaTeam => mafia := mafia + 1;
      case CitizenTeam => citizen := citizen + 1;
      case Neutral => neutral := neutral + 1;
    }
    assert alivePlayers[..|alivePlayers|] == alivePlayers;
    if mafia >= citizen && mafia > 0 {
      return WinResult(Some(MafiaTeam), MafiaOutnumbers);
    }
    if mafia == 0 {
      return WinResult(Some(CitizenTeam), AllMafiaEliminated);
    }
    return WinResult(None, GameContinues);
  }

  /** Each living player is counted on exactly one team. */
  lemma {:induction false} TeamsPartition(players: seq<Player>)
    ensures CountTeam(players, MafiaTeam) + CountTeam(players, CitizenTeam) + CountTeam(players, Neutral) == |players|
    decreases |players|
  {
    if |players| > 0 {
      TeamsPartition(players[..|players| - 1]);
    }
  }

  /** Counting distributes over concatenation. */
  lemma {:induction false} CountTeamAppend(a: seq<Player>, b: seq<Player>, team: Team)
    ensures CountTeam(a + b, team) == CountTeam(a, team) + CountTeam(b, team)
    decreases |b|
  {
    if |b| == 0 {
      assert a + b == a;
    } else {
      var n := |b| - 1;
      assert (a + b)[..|a + b| - 1] == a + b[..n];
      assert (a + b)[|a + b| - 1] == b[n];
      CountTeamAppend(a, b[..n], team);
    }
  }

  /** The reason always matches the winner: exactly one of the four outcomes, and never a neutral winner. */
  lemma OutcomeMatchesReason(players: seq<Player>)
    ensures Evaluate(players).winner == Some(MafiaTeam) <==> Evaluate(players).reason == MafiaOutnumbers
    ensures Evaluate(players).winner == Some(CitizenTeam) <==> Evaluate(players).reason == AllMafiaEliminated
    ensures Evaluate(players).winner.None? <==> Evaluate(players).reason in {NoPlayersAlive, GameContinues}
    ensures Evaluate(players).winner != Some(Neutral)
  {
  }

  /** Nobody is alive exactly when every player is dead or God. */
  lemma NoPlayersAliveExactly(players: seq<Player>)
    ensures Evaluate(players).reason == NoPlayersAlive <==>
      forall i :: 0 <= i < |players| ==> !players[i].isAlive || players[i].role == Some(God)
  {
    var alive := Living(players);
    if |alive| > 0 {
      assert alive[0] in alive;
    }
    if exists i :: 0 <= i < |players| && players[i].isAlive && players[i].role != Some(God) {
      var i :| 0 <= i < |players| && players[i].isAlive && players[i].role != Some(God);
      assert players[i] in alive;
    }
  }

  /** Adding a dead player, or a God, never changes the outcome. */
  lemma DeadPlayersIrrelevant(players: seq<Player>, p: Player)
    requires !p.isAlive || p.role == Some(God)
    ensures Evaluate(players + [p]) == Evaluate(players)
  {
    FilterAppend(players, [p], Counted);
    assert Living([p]) == [];
    assert Living(players + [p]) == Living(players);
  }

  /** The outcome depends only on the living non-God players: dropping everybody else, anywhere in the list, changes nothing. */
  lemma OnlyLivingPlayersMatter(players: seq<Player>)
    ensures Evaluate(Living(players)) == Evaluate(players)
  {
    FilterFilter(players, Counted, Counted, Counted);
  }

  /** Once someone counted is alive, adding a living terrorist changes nothing: terrorists are neutral. */
  lemma TerroristsDoNotCount(players: seq<Player>, p: Player)
    requires p.isAlive && p.role == Some(Terrorist)
    requires Evaluate(players).reason != NoPlayersAlive
    ensures Evaluate(players + [p]) == Evaluate(players)
  {
    FilterAppend(players, [p], Counted);
    assert Living([p]) == [p];
    CountTeamAppend(Living(players), [p], MafiaTeam);
    CountTeamAppend(Living(players), [p], CitizenTeam);
    assert CountTeam([p], MafiaTeam) == 0 && CountTeam([p], CitizenTeam) == 0 by {
      assert [p][..0] == [];
    }
  }

  /** When only terrorists are left alive, the citizens win. */
  lemma OnlyTerroristsLeftMeansCitizensWin(players: seq<Player>)
    requires |Living(players)| > 0
    requires forall i :: 0 <= i < |players| && players[i].isAlive && players[i].role != Some(God) ==> players[i].role == Some(Terrorist)
    ensures Evaluate(players) == WinResult(Some(CitizenTeam), AllMafiaEliminated)
  {
    var alive := Living(players);
    forall j | 0 <= j < |alive|
      ensures alive[j].role == Some(Terrorist)
    {
      assert alive[j] in players;
    }
    NoMafiaCounted(alive);
  }

  /** A list of terrorists has no mafia member. */
  lemma {:induction false} NoMafiaCounted(ps: seq<Player>)
    requires forall j :: 0 <= j < |ps| ==> ps[j].role == Some(Terrorist)
    ensures CountTeam(ps, MafiaTeam) == 0
    decreases |ps|
  {
    if |ps| > 0 {
      NoMafiaCounted(ps[..|ps| - 1]);
    }
  }

  /**
   * `getWinningPlayers`: nobody for a null winner; otherwise the non-God
   * players of the winning team, in order, alive or not.
   */
  function GetWinningPlayers(players: seq<Player>, winnerTeam: Option<Team>): (r: seq<Player>)
    ensures winnerTeam.None? ==> r == []
    ensures winnerTeam.Some? ==> forall p :: p in r <==> p in players && p.role != Some(God) && GetTeam(p.role) == winnerTeam.value
  {
    match winnerTeam
    case None => []
    case Some(team) => Filter(players, (p: Player) => p.role != Some(God) && GetTeam(p.role) == team)
  }

  /** The players of a winning team are taken in input order: filtering ignores nobody but God and the other teams. */
  lemma WinnersInInputOrder(a: seq<Player>, b: seq<Player>, team: Team)
    ensures GetWinningPlayers(a + b, Some(team)) == GetWinningPlayers(a, Some(team)) + GetWinningPlayers(b, Some(team))
  {
    FilterAppend(a, b, (p: Player) => p.role != Some(God) && GetTeam(p.role) == team);
  }
}
