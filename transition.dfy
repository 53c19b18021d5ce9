/** The night-to-day readiness check and the required night actions (src/utils/phaseTransition.js). */
module PhaseTransition {
  import opened Wrappers
  import opened Seqs
  import opened Roles
  import opened Phases
  import opened Records
  import PhaseControl
  import ActionValidation

  /** `canAdvanceToDay`: every id of a living mafia, doctor or police player is among the submitting ids. */
  function CanAdvanceToDay(players: seq<Player>, actions: seq<Action>): bool {
    var requiredPlayerIds := Ids(PhaseControl.AliveRequired(players));
    var submittedPlayerIds := ActorIds(actions);
    forall i :: 0 <= i < |requiredPlayerIds| ==> requiredPlayerIds[i] in submittedPlayerIds
  }

  /** The day check agrees with the night check of the phase control: dead players are ignored, terrorists are optional. */
  lemma AdvanceToDayIsNightCheck(players: seq<Player>, actions: seq<Action>)
    ensures CanAdvanceToDay(players, actions) == PhaseControl.CanAdvanceFromNight(players, actions)
  {
    var required := PhaseControl.AliveRequired(players);
    var submitted := ActorIds(actions);
    assert forall id :: id in submitted <==> PhaseControl.HasActed(actions, id) by {
      forall id | PhaseControl.HasActed(actions, id)
        ensures id in submitted
      {
        var a :| a in actions && a.playerId == id;
        var k :| 0 <= k < |actions| && actions[k] == a;
        assert submitted[k] == id;
      }
    }
    var ids := Ids(required);
    if CanAdvanceToDay(players, actions) {
      forall p | p in players && p.isAlive && PhaseControl.IsRequiredNightRole(p.role)
        ensures PhaseControl.HasActed(actions, p.id)
      {
        var i :| 0 <= i < |required| && required[i] == p;
        assert ids[i] in submitted;
      }
    }
    if PhaseControl.CanAdvanceFromNight(players, actions) {
      forall i | 0 <= i < |ids|
        ensures ids[i] in submitted
      {
        assert required[i] in required;
      }
    }
  }

  /** `canMafiaKillAgain`: no mafia_kill by that id among the actions, in any round. */
  function CanMafiaKillAgain(mafiaId: PlayerId, actions: seq<Action>): bool {
    !exists i :: 0 <= i < |actions| && actions[i].playerId == mafiaId && actions[i].actionType == MafiaKill
  }

  /** With no actions the permission holds; adding an action can only take it away, and only a kill by that mafia does. */
  lemma KillPermissionOnlyShrinks(mafiaId: PlayerId, actions: seq<Action>, a: Action)
    ensures CanMafiaKillAgain(mafiaId, [])
    ensures CanMafiaKillAgain(mafiaId, actions + [a]) ==
      (CanMafiaKillAgain(mafiaId, actions) && !(a.playerId == mafiaId && a.actionType == MafiaKill))
  {
    var after := actions + [a];
    assert after[|actions|] == a;
    if !CanMafiaKillAgain(mafiaId, actions) {
      var i :| 0 <= i < |actions| && actions[i].playerId == mafiaId && actions[i].actionType == MafiaKill;
      assert after[i] == actions[i];
    }
    if !CanMafiaKillAgain(mafiaId, after) {
      var i :| 0 <= i < |after| && after[i].playerId == mafiaId && after[i].actionType == MafiaKill;
      if i < |actions| {
        assert actions[i] == after[i];
      }
    }
  }

  /** `getRoleNightAction`: the action map has entries for mafia, doctor and police only. */
  function GetRoleNightAction(role: Option<Role>): (r: Option<ActionType>)
    ensures r.Some? <==> PhaseControl.IsRequiredNightRole(role)
  {
    match role
    case Some(Mafia) => Some(MafiaKill)
    case Some(Doctor) => Some(DoctorProtect)
    case Some(Police) => Some(PoliceInvestigate)
    case _ => None
  }

  /** Where the map has an entry it names the one action the validator lets that role submit; the terrorist has none. */
  lemma RoleNightActionAgreesWithValidator(role: Role)
    ensures GetRoleNightAction(Some(role)).Some? ==> GetRoleNightAction(Some(role)) == ActionValidation.NightActionFor(role)
    ensures GetRoleNightAction(Some(Terrorist)).None? && ActionValidation.NightActionFor(Terrorist) == Some(TerroristBomb)
  {
  }

  /** An entry `{player_id, role, required_action}`. */
  datatype RequiredAction = RequiredAction(playerId: PlayerId, role: Option<Role>, requiredAction: Option<ActionType>)

  /** `getRequiredNightActions`: one entry per living mafia, doctor or police player, in order. */
  function GetRequiredNightActions(players: seq<Player>): (r: seq<RequiredAction>)
    ensures var required := PhaseControl.AliveRequired(players);
      |r| == |required|
      && forall i :: 0 <= i < |r| ==> r[i].playerId == required[i].id && r[i].role == required[i].role
    ensures forall i :: 0 <= i < |r| ==> r[i].requiredAction.Some?
    ensures forall i :: 0 <= i < |r| ==> r[i].requiredAction == GetRoleNightAction(r[i].role)
    ensures forall i :: 0 <= i < |r| ==>
      (r[i].role == Some(Mafia) ==> r[i].requiredAction == Some(MafiaKill)) &&
      (r[i].role == Some(Doctor) ==> r[i].requiredAction == Some(DoctorProtect)) &&
      (r[i].role == Some(Police) ==> r[i].requiredAction == Some(PoliceInvestigate))
  {
    var required := Filter(players, (p: Player) => p.isAlive && PhaseControl.IsRequiredNightRole(p.role));
    assert forall i :: 0 <= i < |required| ==> required[i] in required;
    seq(|required|, i requires 0 <= i < |required| =>
      RequiredAction(required[i].id, required[i].role, GetRoleNightAction(required[i].role)))
  }

  /** The day check holds exactly when every required player id occurs among the actions. */
  lemma AdvanceToDayIffRequiredSubmitted(players: seq<Player>, actions: seq<Action>)
    ensures CanAdvanceToDay(players, actions) <==>
      forall e :: e in GetRequiredNightActions(players) ==> e.playerId in ActorIds(actions)
  {
    var r := GetRequiredNightActions(players);
    var ids := Ids(PhaseControl.AliveRequired(players));
    assert forall i :: 0 <= i < |r| ==> r[i].playerId == ids[i];
    assert forall e :: e in r <==> exists i :: 0 <= i < |r| && r[i] == e;
  }
}
