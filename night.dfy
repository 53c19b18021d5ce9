/**
 * Night resolution (`resolveNightActions`, src/utils/actionValidation.js):
 * bombs first, then protections, then kills, then investigations.
 */
module NightResolution {
  import opened Wrappers
  import opened Seqs
  import opened Roles
  import opened Phases
  import opened Records
  import opened PoliceInvestigation

  /** A bomb entry `{terrorist, target}`. */
  datatype Bomb = Bomb(terrorist: PlayerId, target: PlayerId)

  /** The `results` object: deaths may hold a missing id when a kill names none. */
  datatype NightResults = NightResults(
    deaths: seq<Option<PlayerId>>,
    protections: seq<Option<PlayerId>>,
    investigations: seq<Investigation>,
    bombs: seq<Bomb>)

  /** `actions.filter(a => a.action_type === t)`. */
  function OfType(actions: seq<Action>, t: ActionType): (r: seq<Action>)
    ensures forall a :: a in r <==> a in actions && a.actionType == t
  {
    Filter(actions, (a: Action) => a.actionType == t)
  }

  /** A bomb goes off when both its terrorist and its target are found among the players. */
  predicate BombFires(bomb: Action, players: seq<Player>) {
    Find(players, Some(bomb.playerId)).Some? && Find(players, bomb.target).Some?
  }

  /** The entry one bomb adds to the bomb list. */
  function BombEntry(bomb: Action, players: seq<Player>): seq<Bomb> {
    match (Find(players, Some(bomb.playerId)), Find(players, bomb.target))
    case (Some(terrorist), Some(target)) => [Bomb(terrorist.id, target.id)]
    case _ => []
  }

  /** The bomb list after processing `bombs` in order. */
  function BombLog(bombs: seq<Action>, players: seq<Player>): seq<Bomb>
    decreases |bombs|
  {
    if |bombs| == 0 then []
    else BombLog(bombs[..|bombs| - 1], players) + BombEntry(bombs[|bombs| - 1], players)
  }

  /** The deaths a bomb list causes: each bomb's terrorist, then its target. */
  function BombDeaths(log: seq<Bomb>): seq<Option<PlayerId>>
    decreases |log|
  {
    if |log| == 0 then []
    else BombDeaths(log[..|log| - 1]) + [Some(log[|log| - 1].terrorist), Some(log[|log| - 1].target)]
  }

  /** The target of each action, in order. */
  function Targets(actions: seq<Action>): (r: seq<Option<PlayerId>>)
    ensures |r| == |actions|
    ensures forall i :: 0 <= i < |actions| ==> r[i] == actions[i].target
  {
    seq(|actions|, i requires 0 <= i < |actions| => actions[i].target)
  }

  /** The deaths after processing `kills` in order from `deaths`: a kill adds its target unless it is protected or already dead. */
  function KillFold(kills: seq<Action>, protected: seq<Option<PlayerId>>, deaths: seq<Option<PlayerId>>): seq<Option<PlayerId>>
    decreases |kills|
  {
    if |kills| == 0 then deaths
    else
      var before := KillFold(kills[..|kills| - 1], protected, deaths);
      var t := kills[|kills| - 1].target;
      if t !in protected && t !in before then before + [t] else before
  }

  /** The entry one investigation adds: the verdict on a found target. */
  function InvestigationEntry(investigation: Action, players: seq<Player>): seq<Investigation> {
    match Find(players, investigation.target)
    case Some(target) =>
      [Investigation(investigation.playerId, target.id, if target.role == Some(Mafia) then IsMafia else NotMafia)]
    case None => []
  }

  /** The investigation list after processing `investigations` in order. */
  function InvestigationLog(investigations: seq<Action>, players: seq<Player>): seq<Investigation>
    decreases |investigations|
  {
    if |investigations| == 0 then []
    else
      var last := investigations[|investigations| - 1];
      InvestigationLog(investigations[..|investigations| - 1], players) + InvestigationEntry(last, players)
  }

  /** What the night resolution returns, phase by phase. */
  function NightSpec(actions: seq<Action>, players: seq<Player>): NightResults {
    var bombs := BombLog(OfType(actions, TerroristBomb), players);
    var protections := Targets(OfType(actions, DoctorProtect));
    NightResults(
      KillFold(OfType(actions, MafiaKill), protections, BombDeaths(bombs)),
      protections,
      InvestigationLog(OfType(actions, PoliceInvestigate), players),
      bombs)
  }

  /** The bomb pass: each bomb whose terrorist and target are found kills both. */
  method ProcessBombs(bombActions: seq<Action>, players: seq<Player>) returns (deaths: seq<Option<PlayerId>>, bombs: seq<Bomb>)
    ensures bombs == BombLog(bombActions, players)
    ensures deaths == BombDeaths(bombs)
  {
    deaths, bombs := [], [];
    var i := 0;
    while i < |bombActions|
      invariant 0 <= i <= |bombActions|
      invariant bombs == BombLog(bombActions[..i], players)
      invariant deaths == BombDeaths(bombs)
    {
      var bomb := bombActions[i];
      var terrorist := Find(players, Some(bomb.playerId));
      var target := Find(players, bomb.target);
      var before := bombs;
      if terrorist.Some? && target.Some? {
        deaths := deaths + [Some(terrorist.value.id)];
        deaths := deaths + [Some(target.value.id)];
        bombs := bombs + [Bomb(terrorist.value.id, target.value.id)];
        assert bombs[..|bombs| - 1] == before;
      }
      assert bombActions[..i + 1][..i] == bombActions[..i];
      i := i + 1;
    }
    assert bombActions[..i] == bombActions;
  }

  /** The protection pass: every protect target goes into the protected set and the protection list. */
  method ProcessProtections(protectionActions: seq<Action>)
    returns (protectedPlayers: set<Option<PlayerId>>, protections: seq<Option<PlayerId>>)
    ensures protections == Targets(protectionActions)
    ensures forall t :: t in protectedPlayers <==> t in protections
  {
    protectedPlayers, protections := {}, [];
    var i := 0;
    while i < |protectionActions|
      invariant 0 <= i <= |protectionActions|
      invariant protections == Targets(protectionActions[..i])
      invariant forall t :: t in protectedPlayers <==> t in protections
    {
      protectedPlayers := protectedPlayers + {protectionActions[i].target};
      protections := protections + [protectionActions[i].target];
      i := i + 1;
    }
    assert protectionActions[..i] == protectionActions;
  }

  /** The kill pass: a kill adds its target unless it is protected or already dead. */
  method ProcessKills(kills: seq<Action>, protectedPlayers: set<Option<PlayerId>>, ghost protections: seq<Option<PlayerId>>,
                      bombDeaths: seq<Option<PlayerId>>)
    returns (deaths: seq<Option<PlayerId>>)
    requires forall t :: t in protectedPlayers <==> t in protections
    ensures deaths == KillFold(kills, protections, bombDeaths)
  {
    deaths := bombDeaths;
    var i := 0;
    while i < |kills|
      invariant 0 <= i <= |kills|
      invariant deaths == KillFold(kills[..i], protections, bombDeaths)
    {
      var targetId := kills[i].target;
      assert kills[..i + 1][..i] == kills[..i];
      if targetId !in protectedPlayers && targetId !in deaths {
        deaths := deaths + [targetId];
      }
      i := i + 1;
    }
    assert kills[..i] == kills;
  }

  /** The investigation pass: each found target gets its verdict. */
  method ProcessInvestigations(investigationActions: seq<Action>, players: seq<Player>) returns (investigations: seq<Investigation>)
    ensures investigations == InvestigationLog(investigationActions, players)
  {
    investigations := [];
    var i := 0;
    while i < |investigationActions|
      invariant 0 <= i <= |investigationActions|
      invariant investigations == InvestigationLog(investigationActions[..i], players)
    {
      var investigation := investigationActions[i];
      var target := Find(players, investigation.target);
      if target.Some? {
        var result := if target.value.role == Some(Mafia) then IsMafia else NotMafia;
        investigations := investigations + [Investigation(investigation.playerId, target.value.id, result)];
      }
      assert investigationActions[..i + 1][..i] == investigationActions[..i];
      i := i + 1;
    }
    assert investigationActions[..i] == investigationActions;
  }

  /** `resolveNightActions`: the four passes in order. */
  method ResolveNightActions(actions: seq<Action>, players: seq<Player>) returns (results: NightResults)
    ensures results == NightSpec(actions, players)
  {
    var kills := OfType(actions, MafiaKill);
    var protectionActions := OfType(actions, DoctorProtect);
    var investigationActions := OfType(actions, PoliceInvestigate);
    var bombActions := OfType(actions, TerroristBomb);

    var bombDeaths, bombs := ProcessBombs(bombActions, players);
    var protectedPlayers, protections := ProcessProtections(protectionActions);
    var deaths := ProcessKills(kills, protectedPlayers, protections, bombDeaths);
    var investigations := ProcessInvestigations(investigationActions, players);
    results := NightResults(deaths, protections, investigations, bombs);
  }

  /** Every bomb that fires is in the bomb list, under its own terrorist and target ids. */
  lemma {:induction false} FiredBombsLogged(bombs: seq<Action>, players: seq<Player>, b: Action)
    requires b in bombs && BombFires(b, players)
    ensures Bomb(b.playerId, b.target.value) in BombLog(bombs, players)
    decreases |bombs|
  {
    var n := |bombs| - 1;
    if bombs[n] != b {
      assert b in bombs[..n] by {
        var k :| 0 <= k < |bombs| && bombs[k] == b;
        assert bombs[..n][k] == b;
      }
      FiredBombsLogged(bombs[..n], players, b);
    }
  }

  /** Every entry of the bomb list comes from a bomb that fired. */
  lemma {:induction false} LoggedBombsFired(bombs: seq<Action>, players: seq<Player>, e: Bomb)
    requires e in BombLog(bombs, players)
    ensures exists b :: b in bombs && BombFires(b, players) && e == Bomb(b.playerId, b.target.value)
    decreases |bombs|
  {
    var n := |bombs| - 1;
    if e in BombLog(bombs[..n], players) {
      LoggedBombsFired(bombs[..n], players, e);
      var b :| b in bombs[..n] && BombFires(b, players) && e == Bomb(b.playerId, b.target.value);
      assert b in bombs;
    } else {
      assert e in BombEntry(bombs[n], players);
    }
  }

  /** The bomb deaths are exactly the terrorists and targets of the bomb list. */
  lemma {:induction false} BombDeathsMembers(log: seq<Bomb>, x: Option<PlayerId>)
    ensures x in BombDeaths(log) <==> exists e :: e in log && (x == Some(e.terrorist) || x == Some(e.target))
    decreases |log|
  {
    if |log| > 0 {
      var n := |log| - 1;
      BombDeathsMembers(log[..n], x);
      assert log == log[..n] + [log[n]];
    }
  }

  /** A kill's target ends up dead exactly when it was dead already, or is unprotected. */
  lemma {:induction false} KillFoldMembers(kills: seq<Action>, protected: seq<Option<PlayerId>>, deaths: seq<Option<PlayerId>>, x: Option<PlayerId>)
    ensures x in KillFold(kills, protected, deaths) <==>
      x in deaths || (x !in protected && exists k :: k in kills && k.target == x)
    decreases |kills|
  {
    if |kills| > 0 {
      var n := |kills| - 1;
      KillFoldMembers(kills[..n], protected, deaths, x);
      assert kills == kills[..n] + [kills[n]];
    }
  }

  /** The kill pass only appends, and each target it appends is unprotected and not yet dead. */
  lemma {:induction false} KillFoldAppends(kills: seq<Action>, protected: seq<Option<PlayerId>>, deaths: seq<Option<PlayerId>>)
    ensures |deaths| <= |KillFold(kills, protected, deaths)|
    ensures KillFold(kills, protected, deaths)[..|deaths|] == deaths
    ensures forall i :: |deaths| <= i < |KillFold(kills, protected, deaths)| ==>
      KillFold(kills, protected, deaths)[i] !in protected
      && KillFold(kills, protected, deaths)[i] !in KillFold(kills, protected, deaths)[..i]
    decreases |kills|
  {
    if |kills| > 0 {
      var n := |kills| - 1;
      KillFoldAppends(kills[..n], protected, deaths);
      var before := KillFold(kills[..n], protected, deaths);
      var r := KillFold(kills, protected, deaths);
      if r != before {
        assert r == before + [kills[n].target];
        assert r[..|before|] == before;
        forall i | |deaths| <= i < |r|
          ensures r[i] !in protected && r[i] !in r[..i]
        {
          if i < |before| {
            assert r[..i] == before[..i];
          }
        }
        assert r[..|deaths|] == before[..|deaths|];
      }
    }
  }

  /**
   * Who dies at night: the terrorist and the target of every bomb that fires,
   * and the target of every kill that no doctor protects.
   */
  lemma NightDeaths(actions: seq<Action>, players: seq<Player>, x: Option<PlayerId>)
    ensures x in NightSpec(actions, players).deaths <==>
      (exists b :: b in actions && b.actionType == TerroristBomb && BombFires(b, players) && (x == Some(b.playerId) || x == b.target))
      || (x !in NightSpec(actions, players).protections && exists k :: k in actions && k.actionType == MafiaKill && k.target == x)
  {
    var bombActions := OfType(actions, TerroristBomb);
    var log := BombLog(bombActions, players);
    var r := NightSpec(actions, players);
    KillFoldMembers(OfType(actions, MafiaKill), r.protections, BombDeaths(log), x);
    BombDeathsMembers(log, x);
    if x in BombDeaths(log) {
      var e :| e in log && (x == Some(e.terrorist) || x == Some(e.target));
      LoggedBombsFired(bombActions, players, e);
    }
    if exists b :: b in actions && b.actionType == TerroristBomb && BombFires(b, players) && (x == Some(b.playerId) || x == b.target) {
      var b :| b in actions && b.actionType == TerroristBomb && BombFires(b, players) && (x == Some(b.playerId) || x == b.target);
      FiredBombsLogged(bombActions, players, b);
    }
    if exists k :: k in actions && k.actionType == MafiaKill && k.target == x {
      var k :| k in actions && k.actionType == MafiaKill && k.target == x;
      assert k in OfType(actions, MafiaKill);
    }
  }

  /** A bomb that fires kills its terrorist and its target whatever the protections. */
  lemma BombsAlwaysKill(actions: seq<Action>, players: seq<Player>, b: Action)
    requires b in actions && b.actionType == TerroristBomb && BombFires(b, players)
    ensures Some(b.playerId) in NightSpec(actions, players).deaths
    ensures b.target in NightSpec(actions, players).deaths
  {
    NightDeaths(actions, players, Some(b.playerId));
    NightDeaths(actions, players, b.target);
  }

  /** The protection list holds exactly the targets of the doctor's protect actions. */
  lemma NightProtections(actions: seq<Action>, players: seq<Player>, x: Option<PlayerId>)
    ensures x in NightSpec(actions, players).protections <==>
      exists p :: p in actions && p.actionType == DoctorProtect && p.target == x
  {
    var ps := OfType(actions, DoctorProtect);
    if exists p :: p in actions && p.actionType == DoctorProtect && p.target == x {
      var p :| p in actions && p.actionType == DoctorProtect && p.target == x;
      var k :| 0 <= k < |ps| && ps[k] == p;
      assert Targets(ps)[k] == x;
    }
  }

  /**
   * The deaths start with the bomb deaths; each later entry comes from a kill,
   * is unprotected, and was not yet among the deaths.
   */
  lemma KillsAfterBombs(actions: seq<Action>, players: seq<Player>)
    ensures var r := NightSpec(actions, players);
      var b := BombDeaths(r.bombs);
      |b| <= |r.deaths| && r.deaths[..|b|] == b
      && forall i :: |b| <= i < |r.deaths| ==> r.deaths[i] !in r.protections && r.deaths[i] !in r.deaths[..i]
  {
    var r := NightSpec(actions, players);
    KillFoldAppends(OfType(actions, MafiaKill), r.protections, BombDeaths(r.bombs));
  }

  /** The investigation list as the police module would build it, one `processPoliceInvestigation` per action. */
  function ProcessedInvestigations(investigations: seq<Action>, players: seq<Player>): seq<Investigation>
    decreases |investigations|
  {
    if |investigations| == 0 then []
    else
      var last := investigations[|investigations| - 1];
      var rest := ProcessedInvestigations(investigations[..|investigations| - 1], players);
      match ProcessPoliceInvestigation(last, players)
      case Some(entry) => rest + [entry]
      case None => rest
  }

  /** The night resolution's investigation verdicts agree, entry by entry, with the police module. */
  lemma {:induction false} InvestigationsAgreeWithPolice(investigations: seq<Action>, players: seq<Player>)
    ensures InvestigationLog(investigations, players) == ProcessedInvestigations(investigations, players)
    decreases |investigations|
  {
    if |investigations| > 0 {
      InvestigationsAgreeWithPolice(investigations[..|investigations| - 1], players);
    }
  }

  /** No actions, no results. */
  lemma NoActionsNoResults(players: seq<Player>)
    ensures NightSpec([], players) == NightResults([], [], [], [])
  {
  }
}
