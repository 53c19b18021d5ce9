/** The vote tally with tie elimination and the voting predicates (src/utils/votingLogic.js). */
module VotingLogic {
  import opened Wrappers
  import opened Seqs
  import opened Roles
  import opened Phases
  import opened Records
  import ActionValidation

  /** The object key a vote's target becomes: a missing target is coerced to the string "null". */
  function VoteKey(target: Option<PlayerId>): string {
    match target
    case None => "null"
    case Some(id) => id
  }

  /** `{eliminated, tie, voteCounts}`. */
  datatype Tally = Tally(eliminated: seq<string>, tie: bool, voteCounts: map<string, nat>)

  /** The number of votes whose key is `k`. */
  function CountKey(votes: seq<Action>, k: string): nat
    decreases |votes|
  {
    if |votes| == 0 then 0
    else CountKey(votes[..|votes| - 1], k) + (if VoteKey(votes[|votes| - 1].target) == k then 1 else 0)
  }

  /** The keys of the count object in insertion order: each key where it first appears. */
  function Keys(votes: seq<Action>): (r: seq<string>)
    ensures Distinct(r)
    ensures forall k :: k in r <==> CountKey(votes, k) > 0
    decreases |votes|
  {
    if |votes| == 0 then []
    else
      var before := Keys(votes[..|votes| - 1]);
      var k := VoteKey(votes[|votes| - 1].target);
      if k in before then before else before + [k]
  }

  /** A key is counted exactly when some vote carries it. */
  lemma {:induction false} CountKeyPositive(votes: seq<Action>, k: string)
    ensures CountKey(votes, k) > 0 <==> exists v :: v in votes && VoteKey(v.target) == k
    decreases |votes|
  {
    if |votes| > 0 {
      var n := |votes| - 1;
      CountKeyPositive(votes[..n], k);
      assert votes == votes[..n] + [votes[n]];
    }
  }

  /** The count object after all votes. */
  function Counts(votes: seq<Action>): map<string, nat> {
    map k | k in Keys(votes) :: CountKey(votes, k)
  }

  /** The largest count among `ks`, and 0 for no keys. */
  function MaxCount(ks: seq<string>, counts: map<string, nat>): (m: nat)
    requires forall k :: k in ks ==> k in counts
    ensures forall k :: k in ks ==> counts[k] <= m
    ensures |ks| > 0 ==> exists k :: k in ks && counts[k] == m
    decreases |ks|
  {
    if |ks| == 0 then 0
    else
      var rest := MaxCount(ks[1..], counts);
      assert forall k :: k in ks ==> k == ks[0] || k in ks[1..];
      if counts[ks[0]] >= rest then counts[ks[0]] else rest
  }

  /** The test `voteCounts[playerId] === maxVotes`. */
  function AtCount(counts: map<string, nat>, top: nat): string -> bool {
    (k: string) => k in counts && counts[k] == top
  }

  /** What `resolveVoting` returns. */
  function TallySpec(votes: seq<Action>): Tally {
    if |votes| == 0 then Tally([], false, map[])
    else
      var counts := Counts(votes);
      var top := MaxCount(Keys(votes), counts);
      var eliminated := Filter(Keys(votes), AtCount(counts, top));
      Tally(eliminated, |eliminated| > 1, counts)
  }

  /** One more vote adds one to its key's count and nothing else. */
  lemma CountsStep(votes: seq<Action>, v: Action)
    ensures var k := VoteKey(v.target);
      Counts(votes + [v]) == Counts(votes)[k := (if k in Counts(votes) then Counts(votes)[k] else 0) + 1]
  {
    var after := votes + [v];
    assert after[..|after| - 1] == votes;
  }

  /** The counting pass: `voteCounts[t] = (voteCounts[t] || 0) + 1`, keys kept in insertion order. */
  method CountVotes(votes: seq<Action>) returns (voteCounts: map<string, nat>, keys: seq<string>)
    ensures voteCounts == Counts(votes)
    ensures keys == Keys(votes)
  {
    voteCounts, keys := map[], [];
    for i := 0 to |votes|
      invariant voteCounts == Counts(votes[..i])
      invariant keys == Keys(votes[..i])
    {
      var targetId := VoteKey(votes[i].target);
      CountsStep(votes[..i], votes[i]);
      assert votes[..i + 1] == votes[..i] + [votes[i]];
      if targetId !in voteCounts {
        keys := keys + [targetId];
      }
      voteCounts := voteCounts[targetId := (if targetId in voteCounts then voteCounts[targetId] else 0) + 1];
    }
    assert votes[..|votes|] == votes;
  }

  /**
   * `resolveVoting`: counts the votes, then eliminates every key with the
   * highest count, in insertion order; a tie is more than one eliminated.
   */
  method ResolveVoting(votes: seq<Action>) returns (result: Tally)
    ensures result == TallySpec(votes)
  {
    if |votes| == 0 {
      return Tally([], false, map[]);
    }
    var voteCounts, keys := CountVotes(votes);
    var maxVotes := MaxCount(keys, voteCounts);
    var playersWithMaxVotes := Filter(keys, AtCount(voteCounts, maxVotes));
    return Tally(playersWithMaxVotes, |playersWithMaxVotes| > 1, voteCounts);
  }

  /** No votes: nobody eliminated, no tie, no counts. */
  lemma NoVotesNoElimination()
    ensures TallySpec([]) == Tally([], false, map[])
  {
  }

  /** Each count is the number of votes for that key, and the keys are exactly the voted-for keys. */
  lemma CountsAreVoteCounts(votes: seq<Action>, k: string)
    ensures k in TallySpec(votes).voteCounts <==> exists v :: v in votes && VoteKey(v.target) == k
    ensures k in TallySpec(votes).voteCounts ==> TallySpec(votes).voteCounts[k] == CountKey(votes, k)
  {
    CountKeyPositive(votes, k);
  }

  /**
   * The eliminated keys are exactly the voted-for keys with the highest count;
   * there is at least one when there are votes; tie means more than one.
   */
  lemma EliminatedAreTheMaxima(votes: seq<Action>)
    ensures var t := TallySpec(votes);
      forall k :: k in t.eliminated <==>
        k in t.voteCounts && forall k' :: k' in t.voteCounts ==> t.voteCounts[k'] <= t.voteCounts[k]
    ensures |votes| > 0 ==> |TallySpec(votes).eliminated| > 0
    ensures Distinct(TallySpec(votes).eliminated)
    ensures TallySpec(votes).tie <==> |TallySpec(votes).eliminated| > 1
  {
    if |votes| > 0 {
      var counts := Counts(votes);
      var keys := Keys(votes);
      var top := MaxCount(keys, counts);
      var e := Filter(keys, AtCount(counts, top));
      assert |keys| > 0 by {
        assert CountKey(votes, VoteKey(votes[0].target)) > 0 by {
          CountKeyPositive(votes, VoteKey(votes[0].target));
        }
      }
      var w :| w in keys && counts[w] == top;
      assert w in e;
      FilterDistinct(keys, AtCount(counts, top));
    }
  }

  /** Filtering keeps distinct elements distinct. */
  lemma {:induction false} FilterDistinct<T(!new)>(s: seq<T>, p: T -> bool)
    requires Distinct(s)
    ensures Distinct(Filter(s, p))
    decreases |s|
  {
    if |s| > 0 {
      FilterDistinct(s[1..], p);
    }
  }

  /** The total of the counts over all keys. */
  function SumCounts(ks: seq<string>, votes: seq<Action>): nat
    decreases |ks|
  {
    if |ks| == 0 then 0 else CountKey(votes, ks[0]) + SumCounts(ks[1..], votes)
  }

  /** Adding a vote raises the total over distinct keys by one exactly when its key is among them. */
  lemma {:induction false} SumCountsStep(ks: seq<string>, votes: seq<Action>, v: Action)
    requires Distinct(ks)
    ensures SumCounts(ks, votes + [v]) == SumCounts(ks, votes) + (if VoteKey(v.target) in ks then 1 else 0)
    decreases |ks|
  {
    var after := votes + [v];
    assert after[..|after| - 1] == votes;
    if |ks| > 0 {
      SumCountsStep(ks[1..], votes, v);
      assert VoteKey(v.target) in ks <==> VoteKey(v.target) == ks[0] || VoteKey(v.target) in ks[1..];
    }
  }

  /** The total over a list of keys followed by one more key. */
  lemma {:induction false} SumCountsAppend(ks: seq<string>, k: string, votes: seq<Action>)
    ensures SumCounts(ks + [k], votes) == SumCounts(ks, votes) + CountKey(votes, k)
    decreases |ks|
  {
    if |ks| == 0 {
      assert (ks + [k])[1..] == [];
    } else {
      assert (ks + [k])[1..] == ks[1..] + [k];
      SumCountsAppend(ks[1..], k, votes);
    }
  }

  /** The counts add up to the number of votes. */
  lemma {:induction false} CountsSumToVotes(votes: seq<Action>)
    ensures SumCounts(Keys(votes), votes) == |votes|
    decreases |votes|
  {
    if |votes| > 0 {
      var n := |votes| - 1;
      var before := votes[..n];
      var v := votes[n];
      assert votes == before + [v];
      CountsSumToVotes(before);
      SumCountsStep(Keys(before), before, v);
      var k := VoteKey(v.target);
      if k !in Keys(before) {
        SumCountsAppend(Keys(before), k, votes);
        assert CountKey(votes, k) == 1;
        assert SumCounts(Keys(before), votes) == SumCounts(Keys(before), before);
      }
    }
  }

  /** The keys and counts of two votes for each of two players. */
  lemma TwoWayCounts(a: Action, b: Action, c: Action, d: Action)
    requires a.target == Some("p1") && b.target == Some("p1") && c.target == Some("p2") && d.target == Some("p2")
    ensures Keys([a, b, c, d]) == ["p1", "p2"]
    ensures Counts([a, b, c, d]) == map["p1" := 2, "p2" := 2]
  {
    var votes := [a, b, c, d];
    assert votes[..3] == [a, b, c];
    assert votes[..3][..2] == [a, b];
    assert votes[..3][..2][..1] == [a];
    assert votes[..3][..2][..1][..0] == [];
    assert Keys([a]) == ["p1"];
    assert Keys([a, b]) == ["p1"];
    assert Keys([a, b, c]) == ["p1", "p2"];
    assert CountKey(votes, "p1") == 2 && CountKey(votes, "p2") == 2;
  }

  /** Two votes for each of two players: both are eliminated, with a tie. */
  lemma TwoWayTie(a: Action, b: Action, c: Action, d: Action)
    requires a.target == Some("p1") && b.target == Some("p1") && c.target == Some("p2") && d.target == Some("p2")
    ensures TallySpec([a, b, c, d]) == Tally(["p1", "p2"], true, map["p1" := 2, "p2" := 2])
  {
    TwoWayCounts(a, b, c, d);
    var counts := map["p1" := 2, "p2" := 2];
    assert ["p1", "p2"][1..] == ["p2"];
    assert MaxCount(["p1", "p2"], counts) == 2;
    assert Filter(["p1", "p2"], AtCount(counts, 2)) == ["p1", "p2"];
  }

  /** `canVote`: alive, not God, and the phase is voting. */
  function CanVote(player: Player, gamePhase: Phase): (r: bool)
    ensures r ==> CanRoleAct(player.role, gamePhase)
    ensures gamePhase != Voting ==> !r
    ensures r ==> player.isAlive && player.role != Some(God)
    ensures gamePhase == Voting && player.isAlive && player.role != Some(God) ==> r
  {
    player.isAlive && player.role != Some(God) && gamePhase == Voting
  }

  /** `isValidVoteTarget`: the first player with the id exists, is alive and is not God. */
  function IsValidVoteTarget(targetId: Option<PlayerId>, players: seq<Player>): (r: bool)
    ensures r ==> exists p :: p in players && Some(p.id) == targetId && p.isAlive && p.role != Some(God)
    ensures Distinct(Ids(players)) ==>
      (r <==> exists p :: p in players && Some(p.id) == targetId && p.isAlive && p.role != Some(God))
  {
    assert Distinct(Ids(players)) ==> forall i, k :: 0 <= i < |players| && 0 <= k < |players| && players[i].id == players[k].id ==> i == k by {
      if Distinct(Ids(players)) {
        forall i, k | 0 <= i < |players| && 0 <= k < |players| && players[i].id == players[k].id
          ensures i == k
        {
          assert Ids(players)[i] == Ids(players)[k];
        }
      }
    }
    match Find(players, targetId)
    case None => false
    case Some(target) => target.isAlive && target.role != Some(God)
  }

  /** The validator accepts a vote exactly when the player has no pending vote and the target is a valid vote target. */
  lemma ValidatorUsesValidVoteTarget(action: Action, player: Player, players: seq<Player>, existing: seq<Action>)
    ensures ActionValidation.ValidateVotingAction(action, player, players, existing) == Pass <==>
      ActionValidation.NoPending(existing, player.id, Voting) && IsValidVoteTarget(action.target, players)
  {
  }

  /** A player who may vote is accepted by the validator for any valid target while no vote of theirs is pending. */
  lemma CanVoteIsAccepted(action: Action, player: Player, game: Game, players: seq<Player>, existing: seq<Action>)
    requires CanVote(player, game.phase) && action.phase == game.phase
    requires ActionValidation.NoPending(existing, player.id, Voting) && IsValidVoteTarget(action.target, players)
    ensures ActionValidation.ValidateAction(action, player, game, players, existing) == Pass
  {
  }
}
