/** Whether the players have submitted what a phase needs (src/utils/phaseControl.js). */
module PhaseControl {
  import opened Wrappers
  import opened Seqs
  import opened Roles
  import opened Phases
  import opened Records
  import VotingLogic

  /** The roles that must act at night: mafia, doctor and police. */
  predicate IsRequiredNightRole(role: Option<Role>) {
    role in {Some(Mafia), Some(Doctor), Some(Police)}
  }

  /** The living players with a required night role, in order. */
  function AliveRequired(players: seq<Player>): (r: seq<Player>)
    ensures forall p :: p in r <==> p in players && p.isAlive && IsRequiredNightRole(p.role)
  {
    Filter(players, (p: Player) => p.isAlive && IsRequiredNightRole(p.role))
  }

  /** The living players other than God, in order. */
  function AliveVoters(players: seq<Player>): (r: seq<Player>)
    ensures forall p :: p in r <==> p in players && p.isAlive && p.role != Some(God)
  {
    Filter(players, (p: Player) => p.isAlive && p.role != Some(God))
  }

  /** The 'vote' actions, in order. */
  function Votes(actions: seq<Action>): (r: seq<Action>)
    ensures forall a :: a in r <==> a in actions && a.actionType == Vote
  {
    Filter(actions, (a: Action) => a.actionType == Vote)
  }

  /** Some action, of any type and confirmation, was submitted by the player. */
  predicate HasActed(actions: seq<Action>, id: PlayerId) {
    exists a :: a in actions && a.playerId == id
  }

  /** `canAdvanceFromNight`: every living mafia, doctor and police player has submitted some action. */
  function CanAdvanceFromNight(players: seq<Player>, actions: seq<Action>): (r: bool)
    ensures r <==> forall p :: p in players && p.isAlive && IsRequiredNightRole(p.role) ==> HasActed(actions, p.id)
  {
    var aliveRequiredPlayers := AliveRequired(players);
    var submittedPlayerIds := ActorIds(actions);
    assert forall id :: id in submittedPlayerIds <==> HasActed(actions, id) by {
      forall id | HasActed(actions, id)
        ensures id in submittedPlayerIds
      {
        var a :| a in actions && a.playerId == id;
        var k :| 0 <= k < |actions| && actions[k] == a;
        assert submittedPlayerIds[k] == id;
      }
    }
    forall i :: 0 <= i < |aliveRequiredPlayers| ==> aliveRequiredPlayers[i].id in submittedPlayerIds
  }

  /** `canAdvanceFromVoting`: as many 'vote' actions as living non-God players. */
  function CanAdvanceFromVoting(players: seq<Player>, actions: seq<Action>): bool {
    |AliveVoters(players)| == |Votes(actions)|
  }

  /** `canAdvancePhase`: the night and voting checks; any other phase may always advance. */
  function CanAdvancePhase(players: seq<Player>, actions: seq<Action>, currentPhase: Phase): (r: bool)
    ensures currentPhase == Night ==> r == CanAdvanceFromNight(players, actions)
    ensures currentPhase == Voting ==> r == CanAdvanceFromVoting(players, actions)
    ensures currentPhase !in {Night, Voting} ==> r
  {
    if currentPhase == Night then CanAdvanceFromNight(players, actions)
    else if currentPhase == Voting then CanAdvanceFromVoting(players, actions)
    else true
  }

  /** A player still owing a night action: alive, with a required night role, and without any action. */
  function MissingAtNight(actions: seq<Action>): Player -> bool {
    (p: Player) => p.isAlive && IsRequiredNightRole(p.role) && !HasActed(actions, p.id)
  }

  /** A player still owing a vote: alive, not God, and without a 'vote' action. */
  function MissingVote(actions: seq<Action>): Player -> bool {
    (p: Player) => p.isAlive && p.role != Some(God) && !HasActed(Votes(actions), p.id)
  }

  /**
   * `getMissingActions`: at night the living required players with no action;
   * in voting the living non-God players with no vote; otherwise nobody.
   */
  function GetMissingActions(players: seq<Player>, actions: seq<Action>, currentPhase: Phase): (r: seq<Player>)
    ensures currentPhase == Night ==> forall p :: p in r <==>
      p in players && p.isAlive && IsRequiredNightRole(p.role) && !HasActed(actions, p.id)
    ensures currentPhase == Voting ==> forall p :: p in r <==>
      p in players && p.isAlive && p.role != Some(God) && !HasActed(Votes(actions), p.id)
    ensures currentPhase == Night ==> r == Filter(players, MissingAtNight(actions))
    ensures currentPhase == Voting ==> r == Filter(players, MissingVote(actions))
    ensures currentPhase !in {Night, Voting} ==> r == []
  {
    if currentPhase == Night then
      var submitted := ActorIds(actions);
      assert forall id :: id in submitted <==> HasActed(actions, id) by {
        forall id | HasActed(actions, id)
          ensures id in submitted
        {
          var a :| a in actions && a.playerId == id;
          var k :| 0 <= k < |actions| && actions[k] == a;
          assert submitted[k] == id;
        }
      }
      var unsubmitted := (p: Player) => p.id !in submitted;
      FilterFilter(players, (p: Player) => p.isAlive && IsRequiredNightRole(p.role), unsubmitted, MissingAtNight(actions));
      Filter(AliveRequired(players), unsubmitted)
    else if currentPhase == Voting then
      var voted := ActorIds(Votes(actions));
      assert forall id :: id in voted <==> HasActed(Votes(actions), id) by {
        forall id | HasActed(Votes(actions), id)
          ensures id in voted
        {
          var a :| a in Votes(actions) && a.playerId == id;
          var k :| 0 <= k < |Votes(actions)| && Votes(actions)[k] == a;
          assert voted[k] == id;
        }
      }
      var unvoted := (p: Player) => p.id !in voted;
      FilterFilter(players, (p: Player) => p.isAlive && p.role != Some(God), unvoted, MissingVote(actions));
      Filter(AliveVoters(players), unvoted)
    else []
  }

  /** The night may be advanced exactly when nobody is missing. */
  lemma NightAdvanceIffNothingMissing(players: seq<Player>, actions: seq<Action>)
    ensures CanAdvancePhase(players, actions, Night) <==> GetMissingActions(players, actions, Night) == []
  {
    var missing := GetMissingActions(players, actions, Night);
    if |missing| > 0 {
      assert missing[0] in missing;
    }
  }

  /** The ids among the submitting ids are exactly the players with an action. */
  lemma ActorIdsAreActed(actions: seq<Action>)
    ensures forall id :: id in Elems(ActorIds(actions)) <==> HasActed(actions, id)
  {
    forall id | HasActed(actions, id)
      ensures id in Elems(ActorIds(actions))
    {
      var a :| a in actions && a.playerId == id;
      var k :| 0 <= k < |actions| && actions[k] == a;
      assert ActorIds(actions)[k] == id;
    }
  }

  /** Nobody misses a vote exactly when every living voter's id is among the voting ids. */
  lemma NoneMissingIffAllVoted(players: seq<Player>, actions: seq<Action>)
    ensures GetMissingActions(players, actions, Voting) == [] <==>
      Elems(Ids(AliveVoters(players))) <= Elems(ActorIds(Votes(actions)))
  {
    var voters, missing := AliveVoters(players), GetMissingActions(players, actions, Voting);
    ActorIdsAreActed(Votes(actions));
    if missing == [] {
      forall id | id in Elems(Ids(voters))
        ensures id in Elems(ActorIds(Votes(actions)))
      {
        var k :| 0 <= k < |voters| && Ids(voters)[k] == id;
        assert voters[k] in voters;
      }
    } else {
      assert missing[0] in missing;
      var k :| 0 <= k < |voters| && voters[k] == missing[0];
      assert Ids(voters)[k] in Elems(Ids(voters));
    }
  }

  /** A subset as large as its superset is the whole of it. */
  lemma SubsetCard<T>(a: set<T>, b: set<T>)
    requires a <= b
    ensures |a| == |b| <==> b <= a
  {
    if b <= a {
      assert a == b;
    } else {
      var x :| x in b && x !in a;
      var c := b - a;
      assert b == a + c && a * c == {};
      assert |c| > 0 by {
        assert x in c;
      }
    }
  }

  /**
   * When the living voters have distinct ids and every vote comes from a
   * different living voter, comparing counts is the same as finding nobody
   * missing.
   */
  lemma VotingAdvanceIffNothingMissing(players: seq<Player>, actions: seq<Action>)
    requires Distinct(Ids(AliveVoters(players)))
    requires Distinct(ActorIds(Votes(actions)))
    requires forall i :: 0 <= i < |Votes(actions)| ==> Votes(actions)[i].playerId in Ids(AliveVoters(players))
    ensures CanAdvanceFromVoting(players, actions) <==> GetMissingActions(players, actions, Voting) == []
  {
    var voterIds, voteIds := Ids(AliveVoters(players)), ActorIds(Votes(actions));
    DistinctElems(voterIds);
    DistinctElems(voteIds);
    assert Elems(voteIds) <= Elems(voterIds) by {
      forall id | id in Elems(voteIds)
        ensures id in Elems(voterIds)
      {
        var k :| 0 <= k < |voteIds| && voteIds[k] == id;
      }
    }
    SubsetCard(Elems(voteIds), Elems(voterIds));
    NoneMissingIffAllVoted(players, actions);
  }

  /**
   * The voting check compares counts, not voters: one living voter who has
   * not voted, and one vote by somebody else, is enough to advance.
   */
  lemma VotingComparesCountsOnly(voter: Player, stranger: Action)
    requires voter.isAlive && voter.role == Some(Citizen)
    requires stranger.actionType == Vote && stranger.playerId != voter.id
    ensures CanAdvancePhase([voter], [stranger], Voting)
    ensures GetMissingActions([voter], [stranger], Voting) == [voter]
  {
    assert [voter][1..] == [];
    assert [stranger][1..] == [];
    assert Votes([stranger]) == [stranger];
    assert AliveVoters([voter]) == [voter];
    assert !HasActed(Votes([stranger]), voter.id);
    var missing := GetMissingActions([voter], [stranger], Voting);
    assert voter in missing;
    assert |missing| <= 1;
  }

  /** The voters counted here are exactly the players `canVote` admits in the voting phase. */
  lemma AliveVotersAreThoseWhoCanVote(players: seq<Player>, p: Player)
    ensures p in AliveVoters(players) <==> p in players && VotingLogic.CanVote(p, Voting)
  {
  }
}
