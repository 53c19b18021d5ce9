/**
 * The moderator dashboard's phase advance and its effects on the room
 * (src/components/GodDashboard.jsx): store writes become a returned snapshot.
 */
module GodDashboard {
  import opened Wrappers
  import opened Seqs
  import opened Roles
  import opened Phases
  import opened Records
  import GodConfirmation
  import WinConditions
  import VotingLogic
  import NightResolution

  /** The actions of the current phase and round, a missing round reading as 1 on both sides. */
  function CurrentPhaseActions(s: Snapshot): (r: seq<Action>)
    ensures forall a :: a in r <==>
      a in s.actions && a.phase == s.game.phase && RoundOr1(a.roundNumber) == RoundOr1(s.game.currentRound)
  {
    Filter(s.actions, (a: Action) => a.phase == s.game.phase && RoundOr1(a.roundNumber) == RoundOr1(s.game.currentRound))
  }

  /** The store query for confirmed actions of a phase whose stored round equals `round` (a missing round never does). */
  function ConfirmedOfRound(actions: seq<Action>, phase: Phase, round: int): (r: seq<Action>)
    ensures forall a :: a in r <==> a in actions && a.phase == phase && a.confirmed && a.roundNumber == Some(round)
  {
    Filter(actions, (a: Action) => a.phase == phase && a.confirmed && a.roundNumber == Some(round))
  }

  /** `find` on action type: the first action of type `t`. */
  function FirstOfType(actions: seq<Action>, t: ActionType): (r: Option<Action>)
    ensures r.None? <==> forall i :: 0 <= i < |actions| ==> actions[i].actionType != t
    ensures r.Some? ==> r.value.actionType == t
    ensures r.Some? ==>
      exists i :: 0 <= i < |actions| && actions[i] == r.value && forall j :: 0 <= j < i ==> actions[j].actionType != t
    decreases |actions|
  {
    if |actions| == 0 then None
    else if actions[0].actionType == t then Some(actions[0])
    else
      var rest := FirstOfType(actions[1..], t);
      assert rest.Some? ==> forall i :: 0 <= i < |actions[1..]| && actions[1..][i] == rest.value ==> actions[i + 1] == rest.value;
      rest
  }

  /** The store update `is_alive: false` for every player whose id is in `ids`; nobody else changes. */
  function MarkDead(players: seq<Player>, ids: set<PlayerId>): (r: seq<Player>)
    ensures |r| == |players|
    ensures forall i :: 0 <= i < |r| ==> r[i] == if players[i].id in ids then players[i].(isAlive := false) else players[i]
  {
    seq(|players|, i requires 0 <= i < |players| => if players[i].id in ids then players[i].(isAlive := false) else players[i])
  }

  /** Some confirmed doctor_protect names the target. */
  predicate Protected(confirmed: seq<Action>, target: Option<PlayerId>) {
    exists a :: a in confirmed && a.actionType == DoctorProtect && a.target == target
  }

  /** The ids the night kills: the first kill's target unless protected, and the first bomb's bomber and target. */
  function NightVictims(confirmed: seq<Action>): set<PlayerId> {
    var killed := match FirstOfType(confirmed, MafiaKill)
      case Some(kill) =>
        if IdGiven(kill.target) && !Protected(confirmed, kill.target) then {kill.target.value} else {}
      case None => {};
    var bombed := match FirstOfType(confirmed, TerroristBomb)
      case Some(bomb) => if IdGiven(bomb.target) then {bomb.playerId, bomb.target.value} else {}
      case None => {};
    killed + bombed
  }

  /** The room after the round's confirmed night actions mark their victims dead. */
  function NightOutcome(s: Snapshot, round: int): Snapshot {
    s.(players := MarkDead(s.players, NightVictims(ConfirmedOfRound(s.actions, Night, round))))
  }

  /** Two store updates in a row kill the union of their ids. */
  lemma MarkDeadTwice(players: seq<Player>, first: set<PlayerId>, second: set<PlayerId>)
    ensures MarkDead(MarkDead(players, first), second) == MarkDead(players, first + second)
    ensures MarkDead(players, {}) == players
  {
  }

  /**
   * `processNightActions`: read the round's confirmed night actions; the
   * first confirmed kill, when it has a target, kills it unless a confirmed
   * protect names the same target; then the first confirmed bomb, when it has
   * a target, kills bomber and target.
   */
  method ProcessNightActions(s: Snapshot, round: int) returns (r: Snapshot)
    ensures r == NightOutcome(s, round)
  {
    var confirmedActions := ConfirmedOfRound(s.actions, Night, round);
    r := s;
    var killed: set<PlayerId> := {};
    var mafiaKill := FirstOfType(confirmedActions, MafiaKill);
    if mafiaKill.Some? && IdGiven(mafiaKill.value.target) {
      var doctorProtect := exists a :: a in confirmedActions && a.actionType == DoctorProtect && a.target == mafiaKill.value.target;
      if !doctorProtect {
        r := r.(players := MarkDead(r.players, {mafiaKill.value.target.value}));
        killed := {mafiaKill.value.target.value};
      }
    }
    var terroristBomb := FirstOfType(confirmedActions, TerroristBomb);
    if terroristBomb.Some? && IdGiven(terroristBomb.value.target) {
      var bombed := {terroristBomb.value.playerId, terroristBomb.value.target.value};
      MarkDeadTwice(s.players, killed, bombed);
      r := r.(players := MarkDead(r.players, bombed));
      killed := killed + bombed;
    }
    assert killed == NightVictims(confirmedActions);
    MarkDeadTwice(s.players, killed, {});
  }

  /** The night turns exactly its victims dead; every other field and player is left alone. */
  lemma NightOnlyKillsVictims(s: Snapshot, round: int)
    ensures var r := NightOutcome(s, round);
      var victims := NightVictims(ConfirmedOfRound(s.actions, Night, round));
      r.game == s.game && r.actions == s.actions && |r.players| == |s.players|
      && forall i :: 0 <= i < |s.players| ==>
        r.players[i].isAlive == (s.players[i].isAlive && s.players[i].id !in victims)
        && r.players[i] == s.players[i].(isAlive := r.players[i].isAlive)
  {
  }

  /**
   * Who the dashboard's night kills: the target of the first confirmed kill
   * when it is given and no confirmed protect names it, and the bomber and the
   * target of the first confirmed bomb when that bomb has a target, protected
   * or not.
   */
  lemma NightVictimsExactly(confirmed: seq<Action>, id: PlayerId)
    ensures id in NightVictims(confirmed) <==>
      (exists i :: FirstOf(confirmed, MafiaKill, i) && confirmed[i].target == Some(id) && id != ""
                   && !Protected(confirmed, Some(id)))
      || (exists i :: FirstOf(confirmed, TerroristBomb, i) && IdGiven(confirmed[i].target)
                   && (id == confirmed[i].playerId || Some(id) == confirmed[i].target))
  {
    FirstUnique(confirmed, MafiaKill);
    FirstUnique(confirmed, TerroristBomb);
  }

  /** Position `i` holds the first action of type `t`. */
  predicate FirstOf(actions: seq<Action>, t: ActionType, i: int) {
    0 <= i < |actions| && actions[i].actionType == t && forall j :: 0 <= j < i ==> actions[j].actionType != t
  }

  /** The action `find` returns is the one at the first position of its type. */
  lemma FirstUnique(actions: seq<Action>, t: ActionType)
    ensures FirstOfType(actions, t).Some? <==> exists i :: FirstOf(actions, t, i)
    ensures forall i :: FirstOf(actions, t, i) ==> FirstOfType(actions, t) == Some(actions[i])
  {
    var r := FirstOfType(actions, t);
    if r.Some? {
      var k :| 0 <= k < |actions| && actions[k] == r.value && forall j :: 0 <= j < k ==> actions[j].actionType != t;
      assert FirstOf(actions, t, k);
      forall i | FirstOf(actions, t, i)
        ensures i == k
      {
      }
    }
  }

  /** A living mafia player. */
  predicate AliveMafia(p: Player) {
    p.isAlive && p.role == Some(Mafia)
  }

  /** A living citizen, doctor, police or terrorist player: the dashboard's citizen side. */
  predicate AliveCitizenSide(p: Player) {
    p.isAlive && p.role in {Some(Citizen), Some(Doctor), Some(Police), Some(Terrorist)}
  }

  /** The dashboard's win rule: no living mafia means citizens; otherwise mafia when not outnumbered by the citizen side. */
  function DashboardWinner(players: seq<Player>): Option<Team> {
    var mafiaCount := |Filter(players, AliveMafia)|;
    var citizenCount := |Filter(players, AliveCitizenSide)|;
    if mafiaCount == 0 then Some(CitizenTeam)
    else if mafiaCount >= citizenCount then Some(MafiaTeam)
    else None
  }

  /** `checkAndUpdateWinCondition`: a winner ends the game and is recorded; without one nothing changes. */
  function CheckAndUpdateWinCondition(s: Snapshot): (r: Snapshot)
    ensures DashboardWinner(s.players).None? ==> r == s
    ensures DashboardWinner(s.players).Some? ==>
      r == s.(game := s.game.(phase := Ended, winnerTeam := DashboardWinner(s.players)))
  {
    match DashboardWinner(s.players)
    case Some(winner) => s.(game := s.game.(phase := Ended, winnerTeam := Some(winner)))
    case None => s
  }

  /**
   * Against the evaluator of the utilities: the dashboard counts exactly the
   * same living mafia, and on its citizen side at least the evaluator's
   * citizen team (it adds living terrorists).
   */
  lemma {:induction false} WinCountsCompare(players: seq<Player>)
    ensures |Filter(players, AliveMafia)| == WinConditions.CountTeam(WinConditions.Living(players), MafiaTeam)
    ensures |Filter(players, AliveCitizenSide)| >= WinConditions.CountTeam(WinConditions.Living(players), CitizenTeam)
    decreases |players|
  {
    if |players| > 0 {
      var init, last := players[..|players| - 1], players[|players| - 1];
      assert players == init + [last];
      WinCountsCompare(init);
      FilterAppend(init, [last], AliveMafia);
      FilterAppend(init, [last], AliveCitizenSide);
      FilterAppend(init, [last], WinConditions.Counted);
      var living := WinConditions.Living([last]);
      WinConditions.CountTeamAppend(WinConditions.Living(init), living, MafiaTeam);
      WinConditions.CountTeamAppend(WinConditions.Living(init), living, CitizenTeam);
      assert living == if WinConditions.Counted(last) then [last] else [];
      assert [last][1..] == [];
    }
  }

  /**
   * The two win rules agree in one direction each: a mafia win here is a
   * mafia win for the evaluator, and a citizen win of the evaluator is a
   * citizen win here.
   */
  lemma WinRulesRelate(players: seq<Player>)
    ensures DashboardWinner(players) == Some(MafiaTeam) ==> WinConditions.Evaluate(players).winner == Some(MafiaTeam)
    ensures WinConditions.Evaluate(players).winner == Some(CitizenTeam) ==> DashboardWinner(players) == Some(CitizenTeam)
  {
    WinCountsCompare(players);
    var alive := WinConditions.Living(players);
    if WinConditions.CountTeam(alive, MafiaTeam) > 0 {
      WinConditions.TeamsPartition(alive);
    }
  }

  /** The rules differ on a living mafia, terrorist and citizen: the evaluator gives mafia, the dashboard plays on. */
  lemma WinRulesDiverge()
    ensures var room := [Player("m", Some(Mafia), true, false, false),
                         Player("t", Some(Terrorist), true, false, false),
                         Player("c", Some(Citizen), true, false, false)];
      WinConditions.Evaluate(room).winner == Some(MafiaTeam) && DashboardWinner(room).None?
  {
    var room := [Player("m", Some(Mafia), true, false, false),
                 Player("t", Some(Terrorist), true, false, false),
                 Player("c", Some(Citizen), true, false, false)];
    assert room[1..][1..][1..] == [];
    assert WinConditions.Living(room) == room;
    assert room[..2][..1] == room[..1] && room[..3] == room;
    assert Filter(room, AliveCitizenSide) == room[1..];
    assert Filter(room, AliveMafia) == room[..1];
    assert room[..1][..0] == [];
    assert WinConditions.CountTeam(room[..1], MafiaTeam) == 1 && WinConditions.CountTeam(room[..1], CitizenTeam) == 0;
    assert WinConditions.CountTeam(room[..2], MafiaTeam) == 1 && WinConditions.CountTeam(room[..2], CitizenTeam) == 0;
  }

  /** With nobody alive the evaluator names no winner, while the dashboard gives citizens. */
  lemma NobodyAliveDiverges()
    ensures var dead := [Player("m", Some(Mafia), false, false, false)];
      WinConditions.Evaluate(dead).winner.None? && DashboardWinner(dead) == Some(CitizenTeam)
  {
    var dead := [Player("m", Some(Mafia), false, false, false)];
    assert dead[1..] == [];
  }

  /**
   * The dashboard's night keeps only the first of two unprotected kills,
   * where the utilities' resolution kills both targets.
   */
  lemma TwoKillsDiverge()
    ensures var first := Action("m1", MafiaKill, Some("b"), Night, Some(1), true);
      var second := Action("m2", MafiaKill, Some("c"), Night, Some(1), true);
      "c" !in NightVictims([first, second])
      && "b" in NightVictims([first, second])
      && Some("c") in NightResolution.NightSpec([first, second], []).deaths
  {
    var first := Action("m1", MafiaKill, Some("b"), Night, Some(1), true);
    var second := Action("m2", MafiaKill, Some("c"), Night, Some(1), true);
    var actions := [first, second];
    assert actions[1..][1..] == [];
    NightResolution.NightDeaths(actions, [], Some("c"));
    var protects := NightResolution.OfType(actions, DoctorProtect);
    assert second in actions;
  }

  /** The confirmed votes that name a target; the others are skipped. */
  function GivenVotes(votes: seq<Action>): (r: seq<Action>)
    ensures forall a :: a in r <==> a in votes && IdGiven(a.target)
  {
    Filter(votes, (a: Action) => IdGiven(a.target))
  }

  /** The test `voteCounts[playerId] === maxVotes && maxVotes > 0`. */
  function AtPositiveMax(counts: map<string, nat>, top: nat): string -> bool {
    (k: string) => k in counts && counts[k] == top && top > 0
  }

  /** The tallying pass: a running maximum, restarting the list on a new maximum and extending it on a tie. */
  method MaxVoteKeys(keys: seq<string>, voteCounts: map<string, nat>) returns (maxVotes: nat, eliminatedPlayers: seq<string>)
    requires forall k :: k in keys ==> k in voteCounts
    ensures maxVotes == VotingLogic.MaxCount(keys, voteCounts)
    ensures eliminatedPlayers == Filter(keys, AtPositiveMax(voteCounts, maxVotes))
  {
    maxVotes, eliminatedPlayers := 0, [];
    for j := 0 to |keys|
      invariant maxVotes == VotingLogic.MaxCount(keys[..j], voteCounts)
      invariant eliminatedPlayers == Filter(keys[..j], AtPositiveMax(voteCounts, maxVotes))
    {
      var playerId := keys[j];
      TallyStep(keys, j, voteCounts, maxVotes, eliminatedPlayers);
      if voteCounts[playerId] > maxVotes {
        maxVotes := voteCounts[playerId];
        eliminatedPlayers := [playerId];
      } else if voteCounts[playerId] == maxVotes && maxVotes > 0 {
        eliminatedPlayers := eliminatedPlayers + [playerId];
      }
    }
    assert keys[..|keys|] == keys;
  }

  /** One step of the tally loop keeps the running maximum and the list of keys at it. */
  lemma TallyStep(keys: seq<string>, j: int, counts: map<string, nat>, top: nat, eliminated: seq<string>)
    requires 0 <= j < |keys|
    requires forall x :: x in keys ==> x in counts
    requires top == VotingLogic.MaxCount(keys[..j], counts)
    requires eliminated == Filter(keys[..j], AtPositiveMax(counts, top))
    ensures var k := keys[j];
      var top' := if counts[k] > top then counts[k] else top;
      var eliminated' := if counts[k] > top then [k] else if counts[k] == top && top > 0 then eliminated + [k] else eliminated;
      top' == VotingLogic.MaxCount(keys[..j + 1], counts)
      && eliminated' == Filter(keys[..j + 1], AtPositiveMax(counts, top'))
  {
    var ks := keys[..j];
    var k := keys[j];
    assert keys[..j + 1] == ks + [k];
    assert forall x :: x in ks + [k] ==> x in keys;
    MaxCountSnoc(ks, k, counts);
    if counts[k] > top {
      RaiseStep(ks, k, counts, top);
    } else {
      KeepStep(ks, k, counts, top);
    }
  }

  /** A key above the running maximum restarts the list with itself. */
  lemma RaiseStep(ks: seq<string>, k: string, counts: map<string, nat>, top: nat)
    requires forall x :: x in ks + [k] ==> x in counts
    requires top == VotingLogic.MaxCount(ks, counts) && counts[k] > top
    ensures Filter(ks + [k], AtPositiveMax(counts, counts[k])) == [k]
  {
    FilterAppend(ks, [k], AtPositiveMax(counts, counts[k]));
    NoneAbove(ks, counts, counts[k]);
    assert [k][1..] == [];
  }

  /** A key at most the running maximum is appended exactly when it ties a positive maximum. */
  lemma KeepStep(ks: seq<string>, k: string, counts: map<string, nat>, top: nat)
    requires k in counts
    ensures Filter(ks + [k], AtPositiveMax(counts, top)) ==
      Filter(ks, AtPositiveMax(counts, top)) + (if counts[k] == top && top > 0 then [k] else [])
  {
    FilterAppend(ks, [k], AtPositiveMax(counts, top));
    assert [k][1..] == [];
  }

  /** No key reaches a count above the maximum. */
  lemma NoneAbove(ks: seq<string>, counts: map<string, nat>, c: nat)
    requires forall x :: x in ks ==> x in counts
    requires c > VotingLogic.MaxCount(ks, counts)
    ensures Filter(ks, AtPositiveMax(counts, c)) == []
  {
    assert forall i :: 0 <= i < |ks| ==> ks[i] in ks;
    FilterNone(ks, AtPositiveMax(counts, c));
  }

  /** The maximum over one more key. */
  lemma {:induction false} MaxCountSnoc(ks: seq<string>, k: string, counts: map<string, nat>)
    requires forall x :: x in ks + [k] ==> x in counts
    ensures VotingLogic.MaxCount(ks + [k], counts) ==
      if counts[k] > VotingLogic.MaxCount(ks, counts) then counts[k] else VotingLogic.MaxCount(ks, counts)
    decreases |ks|
  {
    if |ks| == 0 {
      assert (ks + [k])[1..] == [];
    } else {
      assert (ks + [k])[1..] == ks[1..] + [k];
      MaxCountSnoc(ks[1..], k, counts);
    }
  }

  /** The ids the vote eliminates: every named target with the highest count. */
  function VoteVictims(votes: seq<Action>): set<PlayerId> {
    var t := VotingLogic.TallySpec(GivenVotes(votes));
    set k | k in t.eliminated
  }

  /** The room after the round's confirmed votes are applied. */
  function VotingOutcome(s: Snapshot, round: int): Snapshot {
    s.(players := MarkDead(s.players, VoteVictims(ConfirmedOfRound(s.actions, Voting, round))))
  }

  /**
   * `processVoting`: count the confirmed votes of the round that name a
   * target, then mark every target with the highest count dead; no votes, no
   * change.
   */
  method ProcessVoting(s: Snapshot, round: int) returns (r: Snapshot)
    ensures r == VotingOutcome(s, round)
  {
    var votes := ConfirmedOfRound(s.actions, Voting, round);
    if |votes| == 0 {
      assert GivenVotes(votes) == [];
      assert MarkDead(s.players, {}) == s.players;
      return s;
    }
    var given := GivenVotes(votes);
    var voteCounts, keys := VotingLogic.CountVotes(given);
    var maxVotes, eliminatedPlayers := MaxVoteKeys(keys, voteCounts);
    if |given| == 0 {
      assert keys == [];
    } else {
      VotingLogic.EliminatedAreTheMaxima(given);
      PositiveMax(given);
      assert eliminatedPlayers == VotingLogic.TallySpec(given).eliminated;
    }
    var eliminated := set k | k in eliminatedPlayers;
    if |eliminatedPlayers| > 0 && maxVotes > 0 {
      return s.(players := MarkDead(s.players, eliminated));
    }
    assert eliminated == {};
    assert MarkDead(s.players, {}) == s.players;
    return s;
  }

  /** With votes, the highest count is positive, so the `maxVotes > 0` guard never drops a maximum. */
  lemma PositiveMax(votes: seq<Action>)
    requires |votes| > 0
    ensures var counts := VotingLogic.Counts(votes);
      var top := VotingLogic.MaxCount(VotingLogic.Keys(votes), counts);
      top > 0 && Filter(VotingLogic.Keys(votes), AtPositiveMax(counts, top)) == VotingLogic.TallySpec(votes).eliminated
  {
    var k := VotingLogic.VoteKey(votes[0].target);
    VotingLogic.CountKeyPositive(votes, k);
    var counts := VotingLogic.Counts(votes);
    var keys := VotingLogic.Keys(votes);
    var top := VotingLogic.MaxCount(keys, counts);
    assert k in keys;
    assert top > 0;
    FilterAgree(keys, AtPositiveMax(counts, top), VotingLogic.AtCount(counts, top));
  }

  /**
   * The vote eliminates exactly the named targets whose count of confirmed
   * votes is the highest, and nobody when no vote names a target.
   */
  lemma VoteVictimsAreTheMaxima(votes: seq<Action>, id: PlayerId)
    ensures var counts := VotingLogic.TallySpec(GivenVotes(votes)).voteCounts;
      id in VoteVictims(votes) <==> id in counts && forall k :: k in counts ==> counts[k] <= counts[id]
    ensures (forall a :: a in votes ==> !IdGiven(a.target)) ==> VoteVictims(votes) == {}
  {
    var given := GivenVotes(votes);
    VotingLogic.EliminatedAreTheMaxima(given);
    assert |given| > 0 ==> given[0] in given;
  }

  /** Applying the vote turns exactly the victims dead; every other field and player is left alone. */
  lemma VotingOnlyKillsVictims(s: Snapshot, round: int)
    ensures var r := VotingOutcome(s, round);
      var victims := VoteVictims(ConfirmedOfRound(s.actions, Voting, round));
      r.game == s.game && r.actions == s.actions && |r.players| == |s.players|
      && forall i :: 0 <= i < |s.players| ==>
        r.players[i].isAlive == (s.players[i].isAlive && s.players[i].id !in victims)
        && r.players[i] == s.players[i].(isAlive := r.players[i].isAlive)
  {
  }

  /** The dashboard's phase successor: night to day, day to voting, voting to night; any other phase stays. */
  function DashboardSuccessor(p: Phase): Phase {
    match p
    case Night => Day
    case Day => Voting
    case Voting => Night
    case _ => p
  }

  /** The two successor tables agree on night and day and differ on voting and lobby. */
  lemma SuccessorsDiverge()
    ensures DashboardSuccessor(Night) == GetNextPhase(Night) == Day
    ensures DashboardSuccessor(Day) == GetNextPhase(Day) == Voting
    ensures DashboardSuccessor(Voting) == Night && GetNextPhase(Voting) == Day
    ensures DashboardSuccessor(Lobby) == Lobby && GetNextPhase(Lobby) == Night
  {
    NextPhaseIsTable(Night);
    NextPhaseIsTable(Day);
    NextPhaseIsTable(Voting);
    NextPhaseIsTable(Lobby);
  }

  /** The room after `nextPhase`. */
  function NextPhaseSpec(s: Snapshot): Snapshot {
    var phase := s.game.phase;
    if !GodConfirmation.CanGodAdvancePhase(CurrentPhaseActions(s), phase) || phase !in {Night, Day, Voting} then s
    else
      var round := RoundOr1(s.game.currentRound);
      var game := if phase == Voting then s.game.(phase := Night, currentRound := Some(round + 1))
                  else s.game.(phase := DashboardSuccessor(phase));
      var moved := s.(game := game);
      if phase == Night then CheckAndUpdateWinCondition(NightOutcome(moved, round))
      else if phase == Voting then CheckAndUpdateWinCondition(VotingOutcome(moved, round))
      else moved
  }

  /**
   * `nextPhase`: refuse while an action of the current phase and round is
   * unconfirmed; otherwise write the next phase (and, after voting, the next
   * round), then resolve the night or the vote and check for a winner.
   */
  method NextPhase(s: Snapshot) returns (r: Snapshot)
    ensures r == NextPhaseSpec(s)
  {
    var currentPhaseActions := CurrentPhaseActions(s);
    if !GodConfirmation.CanGodAdvancePhase(currentPhaseActions, s.game.phase) {
      return s;
    }
    var nextPhase: Phase;
    var updateData := s.game;
    if s.game.phase == Night {
      nextPhase := Day;
    } else if s.game.phase == Day {
      nextPhase := Voting;
    } else if s.game.phase == Voting {
      nextPhase := Night;
      updateData := updateData.(currentRound := Some(RoundOr1(s.game.currentRound) + 1));
    } else {
      return s;
    }
    updateData := updateData.(phase := nextPhase);
    r := s.(game := updateData);
    var round := RoundOr1(s.game.currentRound);
    if s.game.phase == Night {
      r := ProcessNightActions(r, round);
      r := CheckAndUpdateWinCondition(r);
    }
    if s.game.phase == Voting {
      r := ProcessVoting(r, round);
      r := CheckAndUpdateWinCondition(r);
    }
  }

  /** While an action of the current phase and round is unconfirmed, advancing changes nothing; it never blocks in voting. */
  lemma BlockedAdvanceChangesNothing(s: Snapshot)
    ensures (exists a :: a in CurrentPhaseActions(s) && !a.confirmed) && s.game.phase != Voting ==> NextPhaseSpec(s) == s
    ensures s.game.phase !in {Night, Day, Voting} ==> NextPhaseSpec(s) == s
  {
    if exists a :: a in CurrentPhaseActions(s) && !a.confirmed {
      var a :| a in CurrentPhaseActions(s) && !a.confirmed;
      var k :| 0 <= k < |CurrentPhaseActions(s)| && CurrentPhaseActions(s)[k] == a;
    }
  }

  /**
   * An advance that goes ahead: the actions stay; the phase moves to the
   * dashboard successor, or to ended with the winner recorded when the night
   * or the vote leaves one; only voting moves the round on, from the round
   * read as 1 when missing; the day only changes the phase.
   */
  lemma AdvanceOutcome(s: Snapshot)
    requires GodConfirmation.CanGodAdvancePhase(CurrentPhaseActions(s), s.game.phase)
    requires s.game.phase in {Night, Day, Voting}
    ensures var r := NextPhaseSpec(s);
      r.actions == s.actions
      && r.game.currentRound == (if s.game.phase == Voting then Some(RoundOr1(s.game.currentRound) + 1) else s.game.currentRound)
      && (s.game.phase == Day ==> r == s.(game := s.game.(phase := Voting)))
      && (s.game.phase != Day ==>
            (DashboardWinner(r.players).Some? ==> r.game.phase == Ended && r.game.winnerTeam == DashboardWinner(r.players))
            && (DashboardWinner(r.players).None? ==>
                  r.game.phase == DashboardSuccessor(s.game.phase) && r.game.winnerTeam == s.game.winnerTeam))
  {
  }

  /** `resetGame`: no actions, every player alive with no role, and a fresh lobby in round 1 with no winner. */
  function ResetGame(s: Snapshot): (r: Snapshot)
    ensures r.actions == [] && r.game == Game(Lobby, Some(1), None)
    ensures Ids(r.players) == Ids(s.players)
    ensures forall i :: 0 <= i < |r.players| ==> r.players[i] == s.players[i].(isAlive := true, role := None)
  {
    var players := seq(|s.players|, i requires 0 <= i < |s.players| => s.players[i].(isAlive := true, role := None));
    Snapshot(Game(Lobby, Some(1), None), players, [])
  }

  /** `restartGame`: no actions, every player alive with their role kept, night of round 1; the recorded winner is not cleared. */
  function RestartGame(s: Snapshot): (r: Snapshot)
    ensures r.actions == [] && r.game == s.game.(phase := Night, currentRound := Some(1))
    ensures Ids(r.players) == Ids(s.players)
    ensures forall i :: 0 <= i < |r.players| ==> r.players[i] == s.players[i].(isAlive := true)
  {
    var players := seq(|s.players|, i requires 0 <= i < |s.players| => s.players[i].(isAlive := true));
    Snapshot(s.game.(phase := Night, currentRound := Some(1)), players, [])
  }

  /** Resetting and restarting are idempotent, after either nobody is dead, and a reset followed by a restart leaves no roles. */
  lemma ResetAndRestartSettle(s: Snapshot)
    ensures ResetGame(ResetGame(s)) == ResetGame(s)
    ensures RestartGame(RestartGame(s)) == RestartGame(s)
    ensures forall p :: p in ResetGame(s).players ==> p.isAlive && p.role.None?
    ensures forall p :: p in RestartGame(s).players ==> p.isAlive
    ensures forall i :: 0 <= i < |s.players| ==> RestartGame(ResetGame(s)).players[i].role.None?
  {
  }

  /** After a restart a recorded winner survives into the new night. */
  lemma RestartKeepsWinner(s: Snapshot)
    ensures RestartGame(s).game.winnerTeam == s.game.winnerTeam
    ensures RestartGame(s).game.phase == Night
  {
  }
}
