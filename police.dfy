/** The police investigation verdict and its notification (src/utils/policeInvestigation.js). */
module PoliceInvestigation {
  import opened Wrappers
  import opened Roles
  import opened Records

  /** The result strings 'mafia' and 'non-mafia'. */
  datatype Verdict = IsMafia | NotMafia

  function VerdictName(v: Verdict): string {
    match v
    case IsMafia => "mafia"
    case NotMafia => "non-mafia"
  }

  /** An investigation entry `{investigator, target, result}`. */
  datatype Investigation = Investigation(investigator: PlayerId, target: PlayerId, result: Verdict)

  /** `getInvestigationResult`: 'mafia' exactly when the target's role is mafia. */
  function GetInvestigationResult(targetPlayer: Player): (v: Verdict)
    ensures v == IsMafia <==> targetPlayer.role == Some(Mafia)
  {
    if targetPlayer.role == Some(Mafia) then IsMafia else NotMafia
  }

  /** The verdict says exactly whether the target is on the mafia team. */
  lemma VerdictMatchesTeam(targetPlayer: Player)
    ensures GetInvestigationResult(targetPlayer) == IsMafia <==> GetTeam(targetPlayer.role) == MafiaTeam
  {
  }

  /** The notification record sent to the investigating police player. */
  datatype Notification = Notification(recipient: PlayerId, message: string, kind: string, result: Verdict)

  /** `createPoliceNotification`. */
  function CreatePoliceNotification(investigatorId: PlayerId, targetPlayer: Player): (n: Notification)
    ensures n.recipient == investigatorId
    ensures n.kind == "investigation_result"
    ensures n.result == GetInvestigationResult(targetPlayer)
    ensures n.message == "Investigation result: The target is " + VerdictName(n.result)
  {
    var result := GetInvestigationResult(targetPlayer);
    Notification(investigatorId, "Investigation result: The target is " + VerdictName(result), "investigation_result", result)
  }

  /**
   * `processPoliceInvestigation`: nothing when the target id is not among the
   * players; otherwise the investigator, the found target and its verdict.
   */
  function ProcessPoliceInvestigation(action: Action, players: seq<Player>): (r: Option<Investigation>)
    ensures r.None? <==> Find(players, action.target).None?
    ensures r.Some? ==> r.value.investigator == action.playerId
    ensures r.Some? ==> action.target == Some(r.value.target)
    ensures r.Some? ==> r.value.result == GetInvestigationResult(Find(players, action.target).value)
  {
    match Find(players, action.target)
    case None => None
    case Some(target) => Some(Investigation(action.playerId, target.id, GetInvestigationResult(target)))
  }

  /** The notification for a processed investigation carries the same verdict to the same investigator. */
  lemma NotificationAgreesWithInvestigation(action: Action, players: seq<Player>)
    requires ProcessPoliceInvestigation(action, players).Some?
    ensures var inv := ProcessPoliceInvestigation(action, players).value;
      var n := CreatePoliceNotification(action.playerId, Find(players, action.target).value);
      n.recipient == inv.investigator && n.result == inv.result
  {
  }
}
