/**
 * The role catalogue, the role distribution for a player count and the
 * random assignment of roles to players (src/utils/roleAssignment.js).
 */
module Roles {
  import opened Wrappers
  import opened Seqs

  /** The six stored role strings 'mafia', 'doctor', 'police', 'citizen', 'terrorist', 'god'. */
  datatype Role = Mafia | Doctor | Police | Citizen | Terrorist | God

  /** The team strings returned by `getTeam`. */
  datatype Team = MafiaTeam | CitizenTeam | Neutral

  /** The string a role is stored as. */
  function RoleName(r: Role): string {
    match r
    case Mafia => "mafia"
    case Doctor => "doctor"
    case Police => "police"
    case Citizen => "citizen"
    case Terrorist => "terrorist"
    case God => "god"
  }

  /**
   * `getTeam`: mafia is the mafia team; citizen, doctor and police are the
   * citizen team; terrorist, god and an unset role are neutral.
   */
  function GetTeam(role: Option<Role>): (t: Team)
    ensures t == MafiaTeam <==> role == Some(Mafia)
    ensures t == CitizenTeam <==> role in {Some(Citizen), Some(Doctor), Some(Police)}
    ensures t == Neutral <==> role in {None, Some(Terrorist), Some(God)}
  {
    match role
    case Some(Mafia) => MafiaTeam
    case Some(Citizen) | Some(Doctor) | Some(Police) => CitizenTeam
    case Some(Terrorist) => Neutral
    case _ => Neutral
  }

  /**
   * `getRoleDisplayName`: the display name of a known role; any other input
   * (here only `null`) is returned unchanged.
   */
  function GetRoleDisplayName(role: Option<Role>): (name: Option<string>)
    ensures name.None? <==> role.None?
  {
    match role
    case None => None
    case Some(r) =>
      Some(match r
        case Mafia => "Mafia"
        case Doctor => "Doctor"
        case Police => "Police"
        case Citizen => "Citizen"
        case Terrorist => "Terrorist"
        case God => "God")
  }

  /** Different roles are displayed differently. */
  lemma DisplayNameInjective(r1: Role, r2: Role)
    requires r1 != r2
    ensures GetRoleDisplayName(Some(r1)) != GetRoleDisplayName(Some(r2))
  {
  }

  /** The record returned by `calculateRoleDistribution`. */
  datatype Distribution = Distribution(mafia: int, citizen: int, doctor: int, police: int, terrorist: int, god: int)

  function Total(d: Distribution): int {
    d.mafia + d.citizen + d.doctor + d.police + d.terrorist + d.god
  }

  /** `Math.max(1, Math.floor(p * 0.3))`, with the floating-point product read as the exact `3p/10`. */
  function MafiaShare(p: int): (m: int)
    ensures m >= 1
    ensures p >= 0 ==> 10 * m <= 3 * p || m == 1
    ensures p >= 0 ==> (m + 1) * 10 > 3 * p
  {
    if (3 * p) / 10 > 1 then (3 * p) / 10 else 1
  }

  /**
   * The distribution as a closed formula over the non-God count p = n - 1:
   * six players get one of each role; seven or more get MafiaShare(p) mafia,
   * one doctor, police, terrorist and God, and the rest plain citizens. Below
   * six the code's fall-back branch is kept as written (it yields -1 citizens
   * for n = 4 and 0 otherwise).
   */
  function ExpectedDistribution(n: int): Distribution {
    var p := n - 1;
    if p == 5 then Distribution(1, 1, 1, 1, 1, 1)
    else if p >= 6 then Distribution(MafiaShare(p), p - MafiaShare(p) - 3, 1, 1, 1, 1)
    else Distribution(1, if p == 3 then -1 else 0, 1, 1, 1, 1)
  }

  /**
   * `calculateRoleDistribution`, with its counters reassigned step by step as
   * the source does, including the `citizenCount < 2` clamp and the final
   * adjustment by the difference to the non-God count.
   */
  method CalculateRoleDistribution(totalPlayers: int) returns (d: Distribution)
    ensures d == ExpectedDistribution(totalPlayers)
  {
    var playersWithoutGod := totalPlayers - 1;
    var mafiaCount := 1;
    var citizenCount := 2;
    if playersWithoutGod == 5 {
      mafiaCount := 1;
      citizenCount := 1;
    } else if playersWithoutGod >= 6 {
      mafiaCount := MafiaShare(playersWithoutGod);
      citizenCount := playersWithoutGod - mafiaCount - 1;
      if citizenCount < 2 {
        citizenCount := 2;
      }
    } else {
      mafiaCount := 1;
      citizenCount := 1;
    }
    if playersWithoutGod == 5 {
      return Distribution(1, 1, 1, 1, 1, 1);
    }
    var total := mafiaCount + citizenCount + 1;
    if total != playersWithoutGod {
      var diff := playersWithoutGod - total;
      if diff > 0 {
        citizenCount := citizenCount + diff;
      } else {
        citizenCount := if 2 > citizenCount + diff then 2 else citizenCount + diff;
      }
    }
    d := Distribution(mafiaCount, citizenCount - 2, 1, 1, 1, 1);
  }

  /**
   * From six players on, the counts add up to the player count, there is at
   * least one mafia and one plain citizen, exactly one of each special role,
   * and the mafia count is max(1, floor(30% of the non-God players)).
   */
  lemma DistributionShape(n: int)
    requires n >= 6
    ensures var d := ExpectedDistribution(n);
      && Total(d) == n
      && d.mafia == MafiaShare(n - 1) && d.mafia >= 1
      && d.citizen == n - 4 - d.mafia && d.citizen >= 1
      && d.doctor == 1 && d.police == 1 && d.terrorist == 1 && d.god == 1
  {
  }

  /** With four players the fall-back branch yields a negative citizen count (unreachable from AssignRoles). */
  lemma DistributionOfFour()
    ensures ExpectedDistribution(4).citizen == -1
  {
  }

  /** `k` copies of `r` (the push loops of `assignRoles`). */
  function Repeat(r: Role, k: int): (s: seq<Role>)
    ensures |s| == if k <= 0 then 0 else k
    ensures forall x :: x in s ==> x == r
    decreases k
  {
    if k <= 0 then [] else Repeat(r, k - 1) + [r]
  }

  lemma {:induction false} RepeatCount(r: Role, k: int, x: Role)
    ensures multiset(Repeat(r, k))[x] == if x == r && k > 0 then k else 0
    decreases k
  {
    if k > 0 {
      var before := Repeat(r, k - 1);
      RepeatCount(r, k - 1, x);
      assert Repeat(r, k) == before + [r];
      assert multiset(Repeat(r, k)) == multiset(before) + multiset{r};
    }
  }

  /** The role list `assignRoles` builds from a distribution, before shuffling. */
  function RoleList(d: Distribution): seq<Role> {
    Repeat(Mafia, d.mafia) + Repeat(Citizen, d.citizen) + [Doctor, Police, Terrorist]
  }

  /** How often one role occurs in the role list. */
  lemma RoleListCount(d: Distribution, x: Role)
    ensures multiset(RoleList(d))[x] ==
      (if x == Mafia && d.mafia > 0 then d.mafia else 0) + (if x == Citizen && d.citizen > 0 then d.citizen else 0)
      + (if x in {Doctor, Police, Terrorist} then 1 else 0)
  {
    var mafia, citizens, tail := Repeat(Mafia, d.mafia), Repeat(Citizen, d.citizen), [Doctor, Police, Terrorist];
    assert RoleList(d) == mafia + citizens + tail;
    assert multiset(tail) == multiset{Doctor, Police, Terrorist};
    RepeatCount(Mafia, d.mafia, x);
    RepeatCount(Citizen, d.citizen, x);
  }

  /** The role list holds exactly the distribution's mafia, citizens and one doctor, police and terrorist, and no God. */
  lemma RoleListCounts(d: Distribution)
    requires d.mafia >= 0 && d.citizen >= 0
    ensures |RoleList(d)| == d.mafia + d.citizen + 3
    ensures multiset(RoleList(d))[Mafia] == d.mafia
    ensures multiset(RoleList(d))[Citizen] == d.citizen
    ensures multiset(RoleList(d))[Doctor] == 1
    ensures multiset(RoleList(d))[Police] == 1
    ensures multiset(RoleList(d))[Terrorist] == 1
    ensures multiset(RoleList(d))[God] == 0
  {
    RoleListCount(d, Mafia);
    RoleListCount(d, Citizen);
    RoleListCount(d, Doctor);
    RoleListCount(d, Police);
    RoleListCount(d, Terrorist);
    RoleListCount(d, God);
  }

  /**
   * The shuffle of `roles.sort(() => Math.random() - 0.5)`, driven by the
   * random draws `picks`: each step moves the element at the drawn position
   * of the remaining pool to the output (position 0 when the draw is missing
   * or out of range).
   */
  function Shuffle<T>(pool: seq<T>, picks: seq<nat>): (r: seq<T>)
    ensures |r| == |pool|
    ensures multiset(r) == multiset(pool)
    decreases |pool|
  {
    if |pool| == 0 then []
    else
      var j := if |picks| > 0 && picks[0] < |pool| then picks[0] else 0;
      [pool[j]] + Shuffle(RemoveAt(pool, j), if |picks| == 0 then [] else picks[1..])
  }

  /** The first element of a rearrangement occurs in the pool, and the rest is a rearrangement of what remains. */
  lemma MatchingPosition<T>(pool: seq<T>, target: seq<T>) returns (j: nat)
    requires |pool| > 0 && multiset(target) == multiset(pool)
    ensures j < |pool| && |target| > 0 && pool[j] == target[0]
    ensures multiset(target[1..]) == multiset(RemoveAt(pool, j))
  {
    assert |target| == |multiset(target)| == |pool|;
    assert target[0] in multiset(pool);
    var k :| 0 <= k < |pool| && pool[k] == target[0];
    j := k;
    var rest := RemoveAt(pool, j);
    assert target == [target[0]] + target[1..];
    forall x ensures multiset(target[1..])[x] == multiset(rest)[x] {
      assert multiset(target)[x] == multiset{target[0]}[x] + multiset(target[1..])[x];
      assert multiset(pool)[x] == multiset(rest)[x] + multiset{pool[j]}[x];
    }
    assert multiset(target[1..]) == multiset(rest);
  }

  /** Every ordering of the pool is produced by some sequence of random draws. */
  lemma {:induction false} ShuffleReachesEveryPermutation<T>(pool: seq<T>, target: seq<T>) returns (picks: seq<nat>)
    requires multiset(target) == multiset(pool)
    ensures Shuffle(pool, picks) == target
    decreases |pool|
  {
    if |pool| == 0 {
      picks := [];
      assert |target| == 0;
    } else {
      var j := MatchingPosition(pool, target);
      var rest := RemoveAt(pool, j);
      var tail := ShuffleReachesEveryPermutation(rest, target[1..]);
      picks := [j] + tail;
      assert picks[1..] == tail;
    }
  }

  /** The role given to the player at position `i` when `g` is the God position. */
  function SlotRole(i: nat, g: nat, shuffled: seq<Role>): Role
    requires i != g ==> (if i < g then i else i - 1) < |shuffled|
  {
    if i == g then God else shuffled[if i < g then i else i - 1]
  }

  datatype AssignError = NeedSixPlayers

  function AssignErrorMessage(e: AssignError): string {
    "Need at least 6 players to start"
  }

  /** Whether the slot roles of every position of an id list of this length exist. */
  predicate SlotsFit(count: nat, g: nat, shuffled: seq<Role>) {
    count <= |shuffled| + 1 && (count == |shuffled| + 1 ==> g < count)
  }

  /**
   * The object `assignRoles` fills in its `forEach`: position by position,
   * the id gets its slot role, overwriting an earlier equal id.
   */
  function AssignSpec(ids: seq<string>, g: nat, shuffled: seq<Role>): map<string, Role>
    requires SlotsFit(|ids|, g, shuffled)
    decreases |ids|
  {
    if |ids| == 0 then map[]
    else AssignSpec(ids[..|ids| - 1], g, shuffled)[ids[|ids| - 1] := SlotRole(|ids| - 1, g, shuffled)]
  }

  /** Every id of the list, and nothing else, receives a role. */
  lemma {:induction false} AssignSpecKeys(ids: seq<string>, g: nat, shuffled: seq<Role>)
    requires SlotsFit(|ids|, g, shuffled)
    ensures AssignSpec(ids, g, shuffled).Keys == set i | 0 <= i < |ids| :: ids[i]
    decreases |ids|
  {
    if |ids| > 0 {
      var k := |ids| - 1;
      AssignSpecKeys(ids[..k], g, shuffled);
      assert (set i | 0 <= i < |ids| :: ids[i]) == (set i | 0 <= i < k :: ids[..k][i]) + {ids[k]};
    }
  }

  /** The id at position `i` ends with the slot role of `i` when no later position repeats it. */
  lemma {:induction false} AssignSpecLastWins(ids: seq<string>, g: nat, shuffled: seq<Role>, i: nat)
    requires SlotsFit(|ids|, g, shuffled)
    requires i < |ids| && ids[i] !in ids[i + 1..]
    ensures ids[i] in AssignSpec(ids, g, shuffled)
    ensures AssignSpec(ids, g, shuffled)[ids[i]] == SlotRole(i, g, shuffled)
    decreases |ids|
  {
    var k := |ids| - 1;
    if i < k {
      assert ids[k] in ids[i + 1..];
      assert ids[..k][i + 1..] == ids[i + 1..k];
      AssignSpecLastWins(ids[..k], g, shuffled, i);
    }
  }

  /** The roles of `ids` in `m`, in order. */
  function RolesOf(m: map<string, Role>, ids: seq<string>): (r: seq<Role>)
    requires forall i :: 0 <= i < |ids| ==> ids[i] in m
    ensures |r| == |ids|
    ensures forall i :: 0 <= i < |ids| ==> r[i] == m[ids[i]]
  {
    seq(|ids|, i requires 0 <= i < |ids| => m[ids[i]])
  }

  /**
   * After the assignment loop, a distinct id list gives God to the chosen
   * position and the shuffled roles, in order, to everybody else.
   */
  lemma NonGodRolesAreShuffled(ids: seq<string>, g: nat, shuffled: seq<Role>, m: map<string, Role>)
    requires g < |ids| && |shuffled| == |ids| - 1 && Distinct(ids)
    requires forall i :: 0 <= i < |ids| ==> ids[i] in m && m[ids[i]] == SlotRole(i, g, shuffled)
    ensures RolesOf(m, RemoveAt(ids, g)) == shuffled
  {
  }

  /** With distinct ids every position ends with its slot role. */
  lemma AssignSpecSlots(ids: seq<string>, g: nat, shuffled: seq<Role>)
    requires SlotsFit(|ids|, g, shuffled) && Distinct(ids)
    ensures forall i :: 0 <= i < |ids| ==>
      ids[i] in AssignSpec(ids, g, shuffled) && AssignSpec(ids, g, shuffled)[ids[i]] == SlotRole(i, g, shuffled)
  {
    forall i | 0 <= i < |ids|
      ensures ids[i] in AssignSpec(ids, g, shuffled) && AssignSpec(ids, g, shuffled)[ids[i]] == SlotRole(i, g, shuffled)
    {
      assert ids[i] !in ids[i + 1..];
      AssignSpecLastWins(ids, g, shuffled, i);
    }
  }

  /** With distinct ids and no God among the shuffled roles, exactly the chosen id is God. */
  lemma AssignSpecOneGod(ids: seq<string>, g: nat, shuffled: seq<Role>)
    requires g < |ids| && |shuffled| == |ids| - 1 && God !in shuffled && Distinct(ids)
    ensures forall id :: id in AssignSpec(ids, g, shuffled) ==> (AssignSpec(ids, g, shuffled)[id] == God <==> id == ids[g])
  {
    var m := AssignSpec(ids, g, shuffled);
    AssignSpecKeys(ids, g, shuffled);
    AssignSpecSlots(ids, g, shuffled);
    forall id | id in m ensures m[id] == God <==> id == ids[g] {
      var i :| 0 <= i < |ids| && ids[i] == id;
      assert m[id] == SlotRole(i, g, shuffled);
    }
  }

  /** The push loops of `assignRoles` that build the unshuffled role list. */
  method BuildRoleList(distribution: Distribution) returns (roles: seq<Role>)
    requires distribution.mafia >= 0 && distribution.citizen >= 0
    ensures roles == RoleList(distribution)
  {
    roles := [];
    for i := 0 to distribution.mafia
      invariant roles == Repeat(Mafia, i)
    {
      roles := roles + [Mafia];
    }
    for i := 0 to distribution.citizen
      invariant roles == Repeat(Mafia, distribution.mafia) + Repeat(Citizen, i)
    {
      roles := roles + [Citizen];
    }
    roles := roles + [Doctor];
    roles := roles + [Police];
    roles := roles + [Terrorist];
  }

  /** The `forEach` of `assignRoles` that fills the assignment object with a running `roleIndex`. */
  method FillAssignments(playerIds: seq<string>, godIndex: nat, shuffledRoles: seq<Role>) returns (assignments: map<string, Role>)
    requires godIndex < |playerIds| && |shuffledRoles| == |playerIds| - 1
    ensures SlotsFit(|playerIds|, godIndex, shuffledRoles)
    ensures assignments == AssignSpec(playerIds, godIndex, shuffledRoles)
  {
    var n := |playerIds|;
    assignments := map[];
    var roleIndex := 0;
    for index := 0 to n
      invariant roleIndex == if index <= godIndex then index else index - 1
      invariant assignments == AssignSpec(playerIds[..index], godIndex, shuffledRoles)
    {
      assert playerIds[..index + 1][..index] == playerIds[..index];
      if index == godIndex {
        assignments := assignments[playerIds[index] := God];
      } else {
        assignments := assignments[playerIds[index] := shuffledRoles[roleIndex]];
        roleIndex := roleIndex + 1;
      }
    }
    assert playerIds[..n] == playerIds;
  }

  /** The role list of the distribution for `n` players, shuffled by `picks`. */
  function ShuffledRoles(n: int, picks: seq<nat>): seq<Role> {
    Shuffle(RoleList(ExpectedDistribution(n)), picks)
  }

  /** From six players on, the shuffled list has one role per non-God player, holds no God and rearranges the role list. */
  lemma ShuffledRolesShape(n: int, picks: seq<nat>)
    requires n >= 6
    ensures |ShuffledRoles(n, picks)| == n - 1
    ensures God !in ShuffledRoles(n, picks)
    ensures multiset(ShuffledRoles(n, picks)) == multiset(RoleList(ExpectedDistribution(n)))
  {
    var d := ExpectedDistribution(n);
    DistributionShape(n);
    RoleListCounts(d);
    assert multiset(ShuffledRoles(n, picks))[God] == 0;
  }

  /**
   * `assignRoles`: rejects fewer than six ids; otherwise builds the role list
   * of the distribution, makes the id at `godIndex` God and hands out the
   * shuffled list to the other ids in order, the later of two equal ids
   * winning (the source writes into an object).
   */
  method AssignRoles(playerIds: seq<string>, godIndex: nat, picks: seq<nat>) returns (r: Result<map<string, Role>, AssignError>)
    requires |playerIds| >= 6 ==> godIndex < |playerIds|
    ensures r.Err? <==> |playerIds| < 6
    ensures r.Err? ==> r.error == NeedSixPlayers
    ensures r.Ok? ==> SlotsFit(|playerIds|, godIndex, ShuffledRoles(|playerIds|, picks))
    ensures r.Ok? ==> r.value == AssignSpec(playerIds, godIndex, ShuffledRoles(|playerIds|, picks))
  {
    if |playerIds| < 6 {
      return Err(NeedSixPlayers);
    }
    var n := |playerIds|;
    var distribution := CalculateRoleDistribution(n);
    assert distribution.mafia >= 1 && distribution.citizen >= 1 by {
      DistributionShape(n);
    }
    var roles := BuildRoleList(distribution);
    ShuffledRolesShape(n, picks);
    var shuffledRoles := Shuffle(roles, picks);
    var assignments := FillAssignments(playerIds, godIndex, shuffledRoles);
    r := Ok(assignments);
  }

  /** Every id receives a role, and nothing else does. */
  lemma AssignedKeys(playerIds: seq<string>, godIndex: nat, picks: seq<nat>)
    requires |playerIds| >= 6 && godIndex < |playerIds|
    ensures SlotsFit(|playerIds|, godIndex, ShuffledRoles(|playerIds|, picks))
    ensures AssignSpec(playerIds, godIndex, ShuffledRoles(|playerIds|, picks)).Keys == set i | 0 <= i < |playerIds| :: playerIds[i]
  {
    ShuffledRolesShape(|playerIds|, picks);
    AssignSpecKeys(playerIds, godIndex, ShuffledRoles(|playerIds|, picks));
  }

  /** For distinct ids, exactly the id at the drawn God position is God. */
  lemma AssignedOneGod(playerIds: seq<string>, godIndex: nat, picks: seq<nat>)
    requires |playerIds| >= 6 && godIndex < |playerIds| && Distinct(playerIds)
    ensures SlotsFit(|playerIds|, godIndex, ShuffledRoles(|playerIds|, picks))
    ensures var m := AssignSpec(playerIds, godIndex, ShuffledRoles(|playerIds|, picks));
      forall id :: id in m ==> (m[id] == God <==> id == playerIds[godIndex])
  {
    ShuffledRolesShape(|playerIds|, picks);
    AssignSpecOneGod(playerIds, godIndex, ShuffledRoles(|playerIds|, picks));
  }

  /** For distinct ids, the roles of the non-God players rearrange the distribution's role list. */
  lemma AssignedRolesArePermutation(playerIds: seq<string>, godIndex: nat, picks: seq<nat>)
    requires |playerIds| >= 6 && godIndex < |playerIds| && Distinct(playerIds)
    ensures SlotsFit(|playerIds|, godIndex, ShuffledRoles(|playerIds|, picks))
    ensures var m := AssignSpec(playerIds, godIndex, ShuffledRoles(|playerIds|, picks));
      var others := RemoveAt(playerIds, godIndex);
      (forall i :: 0 <= i < |others| ==> others[i] in m) &&
      multiset(RolesOf(m, others)) == multiset(RoleList(ExpectedDistribution(|playerIds|)))
  {
    var shuffled := ShuffledRoles(|playerIds|, picks);
    ShuffledRolesShape(|playerIds|, picks);
    var m := AssignSpec(playerIds, godIndex, shuffled);
    AssignSpecSlots(playerIds, godIndex, shuffled);
    var others := RemoveAt(playerIds, godIndex);
    forall i | 0 <= i < |others| ensures others[i] in m {
      assert others[i] == playerIds[if i < godIndex then i else i + 1];
    }
    NonGodRolesAreShuffled(playerIds, godIndex, shuffled, m);
  }
}
