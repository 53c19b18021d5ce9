/**
 * The rows the engine reads: players, actions and the game, plus the
 * lookups and JavaScript defaults the engine applies to them.
 */
module Records {
  import opened Wrappers
  import opened Roles
  import opened Phases

  type PlayerId = string

  /** A player row: role unset before the game starts and after a reset. */
  datatype Player = Player(
    id: PlayerId,
    role: Option<Role>,
    isAlive: bool,
    selfProtected: bool,
    terroristUsed: bool)

  /** An action row; `roundNumber` may be missing. */
  datatype Action = Action(
    playerId: PlayerId,
    actionType: ActionType,
    target: Option<PlayerId>,
    phase: Phase,
    roundNumber: Option<int>,
    confirmed: bool)

  /** A game row; `currentRound` may be missing, `winnerTeam` is unset or a team. */
  datatype Game = Game(phase: Phase, currentRound: Option<int>, winnerTeam: Option<Team>)

  /** `x || 1` on a round number: a missing or zero round reads as round 1. */
  function RoundOr1(r: Option<int>): (n: int)
    ensures n != 0
    ensures r.Some? && r.value != 0 ==> n == r.value
    ensures r.None? || r == Some(0) ==> n == 1
  {
    match r
    case None => 1
    case Some(k) => if k == 0 then 1 else k
  }

  /** JavaScript truthiness of an id: `null` and the empty string are false. */
  predicate IdGiven(t: Option<PlayerId>) {
    t.Some? && t.value != ""
  }

  /** `players.find(p => p.player_id === id)`: the first player with that id. */
  function Find(players: seq<Player>, id: Option<PlayerId>): (r: Option<Player>)
    ensures r.None? <==> id.None? || forall i :: 0 <= i < |players| ==> players[i].id != id.value
    ensures r.Some? ==> id.Some? && r.value.id == id.value && r.value in players
    ensures r.Some? ==>
      exists i :: 0 <= i < |players| && players[i] == r.value && (forall j :: 0 <= j < i ==> players[j].id != id.value)
    decreases |players|
  {
    if id.None? || |players| == 0 then None
    else if players[0].id == id.value then Some(players[0])
    else
      var rest := Find(players[1..], id);
      assert rest.Some? ==> forall i :: 0 <= i < |players[1..]| && players[1..][i] == rest.value ==>
        players[i + 1] == rest.value;
      rest
  }

  /** Position `i` holds the first player whose id is `id`. */
  predicate FirstWithId(players: seq<Player>, id: PlayerId, i: int) {
    0 <= i < |players| && players[i].id == id && forall j :: 0 <= j < i ==> players[j].id != id
  }

  /** `Find` returns exactly the player at the first position with that id. */
  lemma FindFirst(players: seq<Player>, id: PlayerId, i: int)
    requires FirstWithId(players, id, i)
    ensures Find(players, Some(id)) == Some(players[i])
  {
    var r := Find(players, Some(id));
    assert r.Some?;
    var k :| 0 <= k < |players| && players[k] == r.value && (forall j :: 0 <= j < k ==> players[j].id != id);
  }

  /** The ids of the players, in order. */
  function Ids(players: seq<Player>): (r: seq<PlayerId>)
    ensures |r| == |players|
    ensures forall i :: 0 <= i < |players| ==> r[i] == players[i].id
  {
    seq(|players|, i requires 0 <= i < |players| => players[i].id)
  }

  /** The acting player ids of the actions, in order (`actions.map(a => a.player_id)`). */
  function ActorIds(actions: seq<Action>): (r: seq<PlayerId>)
    ensures |r| == |actions|
    ensures forall i :: 0 <= i < |actions| ==> r[i] == actions[i].playerId
  {
    seq(|actions|, i requires 0 <= i < |actions| => actions[i].playerId)
  }

  /** A snapshot of one room: the game row, its players and its actions. */
  datatype Snapshot = Snapshot(game: Game, players: seq<Player>, actions: seq<Action>)
}
