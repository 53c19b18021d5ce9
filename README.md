# Mafia game engine — a Dafny model

This project models the rules engine of a browser Mafia game. A room has
players with hidden roles: mafia, citizen, doctor, police, terrorist, and one
God who moderates. The game cycles through night, day and voting phases.
Players submit actions: kills, protections, investigations, bombs and votes.
God confirms them and advances the phase. The engine then works out who dies
and whether a team has won.

The model covers the rule code in `src/utils/` and the phase-advance logic
inside the moderator dashboard (`src/components/GodDashboard.jsx`). Each
source file is one Dafny module:

- `roles.dfy` (`Roles`) covers the role distribution and role assignment.
- `phases.dfy` (`Phases`) covers the phase successor and which roles may act.
- `validation.dfy` (`ActionValidation`) covers the action validator.
- `night.dfy` (`NightResolution`) covers the utilities' night resolution.
- `win.dfy` (`WinConditions`) covers the win evaluator.
- `voting.dfy` (`VotingLogic`) covers the vote tally.
- `confirmation.dfy` (`GodConfirmation`) covers the confirmation gate.
- `control.dfy` (`PhaseControl`) and `transition.dfy` (`PhaseTransition`) cover the producer gates.
- `buttons.dfy` (`ButtonState`) covers the button state.
- `police.dfy` (`PoliceInvestigation`) covers police results.
- `godcontrols.dfy` (`GodControls`) covers moderator permissions.
- `dashboard.dfy` (`GodDashboard`) covers the dashboard decisions.

Shared rows live in `records.dfy` (`Records`), the result wrappers in
`wrappers.dfy` and the list helpers in `seqs.dfy`.

The repository holds several copies of the same rule that do not agree. The
model keeps each one as written and proves where they differ:

- The win rule: `winConditions.js` does not count terrorists at all. The
  dashboard counts them on the citizen side.
- The phase successor: `gamePhases.js` sends voting to day. The dashboard
  sends voting to night and starts the next round.
- Night resolution: `actionValidation.js` handles every bomb and every kill.
  The dashboard uses only the first kill and the first bomb.

On terrorists the repository itself is split. The dashboard counts living
terrorists with the citizens (`src/components/GodDashboard.jsx` lines
300-304). `src/utils/winConditions.js` leaves them out of both counts, and its
test `src/test/winConditions.test.js` (lines 67-79) expects mafia to win
against one citizen and one terrorist. Each copy is modelled as written.

Conventions:

- The store writes of the dashboard become functions and methods that return
  a new (game, players, actions) snapshot.
- Throws become `Result` or `Outcome` values that carry the message.
- `Math.random` becomes parameters: the God index and the shuffle picks of
  `assignRoles`. In `reassignGod` it is a nondeterministic choice.
- JavaScript's `x || 1` on a round number is `Records.RoundOr1`. A missing
  round or round 0 reads as 1.
- A store filter `round_number = r` matches only a stored round equal to
  `r`.

## Model

| member | source | states |
|---|---|---|
| `Roles.GetTeam` | src/utils/roleAssignment.js:142-147 | mafia is the mafia team; citizen, doctor and police are the citizen team; terrorist, God and an unset role are neutral, each as an if-and-only-if |
| `Roles.GetRoleDisplayName` | src/utils/roleAssignment.js:154-164 | every role has a display name and an unset role has none |
| `Roles.DisplayNameInjective` | src/utils/roleAssignment.js:155-162 | different roles get different display names |
| `Roles.MafiaShare` | src/utils/roleAssignment.js:43 | the mafia count is at least 1 and is the floor of 30% of the non-God players when that floor is positive |
| `Roles.CalculateRoleDistribution` | src/utils/roleAssignment.js:21-88 | the counters, the clamp and the difference adjustment produce exactly the expected distribution for every player count |
| `Roles.DistributionShape` | src/utils/roleAssignment.js:56-87 | from six players on, the counts sum to the player count; there is one doctor, police, terrorist and God; mafia is max(1, floor(0.3·(n−1))) and at least one regular citizen remains |
| `Roles.DistributionOfFour` | src/utils/roleAssignment.js:49-53 | for four players the distribution has −1 citizens, because that input has no guard |
| `Roles.RoleListCount` | src/utils/roleAssignment.js:104-112 | each role occurs in the role list as often as the distribution says: mafia and citizens by their counts, doctor, police and terrorist once, God never |
| `Roles.RoleListCounts` | src/utils/roleAssignment.js:101-112 | the role list holds exactly the distribution's mafia and citizens, one doctor, one police, one terrorist and no God |
| `Roles.BuildRoleList` | src/utils/roleAssignment.js:101-112 | the push loops build exactly that role list |
| `Roles.Shuffle` | src/utils/roleAssignment.js:119 | the shuffle keeps the length and rearranges the same roles |
| `Roles.ShuffleReachesEveryPermutation` | src/utils/roleAssignment.js:119 | every rearrangement of the role list is produced by some choice of picks |
| `Roles.FillAssignments` | src/utils/roleAssignment.js:122-132 | the `forEach` gives the God index God and every other position the next shuffled role, in order |
| `Roles.AssignRoles` | src/utils/roleAssignment.js:95-135 | fewer than six ids fail with the "Need at least 6 players" error, and only then; otherwise the result is the position-by-position assignment |
| `Roles.AssignSpecKeys` | src/utils/roleAssignment.js:125-132 | every id gets a role and no other key appears |
| `Roles.AssignSpecLastWins` | src/utils/roleAssignment.js:125-132 | a repeated id keeps the role of its last position |
| `Roles.AssignSpecSlots` | src/utils/roleAssignment.js:125-132 | for distinct ids each id gets exactly its position's role |
| `Roles.AssignSpecOneGod` | src/utils/roleAssignment.js:114-132 | for distinct ids exactly the id at the God index is God |
| `Roles.NonGodRolesAreShuffled` | src/utils/roleAssignment.js:128-131 | the non-God ids, in order, receive the shuffled list itself |
| `Roles.ShuffledRolesShape` | src/utils/roleAssignment.js:100-119 | from six players on, the shuffled list has one role per non-God player and holds no God |
| `Roles.AssignedKeys` | src/utils/roleAssignment.js:95-135 | `assignRoles` gives every id a role |
| `Roles.AssignedOneGod` | src/utils/roleAssignment.js:114-132 | `assignRoles` on distinct ids makes exactly one id God |
| `Roles.AssignedRolesArePermutation` | src/utils/roleAssignment.js:100-132 | the roles of the non-God ids are a permutation of the distribution's role list |
| `Seqs.IndexOf` | src/utils/gamePhases.js:38 | `indexOf` is −1 exactly when the value is absent; otherwise it is the first position holding the value |
| `Phases.PhasePositions` | src/utils/gamePhases.js:29-38 | `indexOf` finds each phase at its first position; round start, round end and the second day at position 4 are never found |
| `Phases.NextPhaseIsTable` | src/utils/gamePhases.js:28-44 | lobby goes to night, night to day, day to voting, voting to day; ended, round start and round end stay the same |
| `Phases.GetNextPhase` | src/utils/gamePhases.js:28-44 | through `NextPhaseIsTable`: the `indexOf` lookup in the six-entry order gives lobby → night → day → voting → day, and ends with ended, round start and round end unchanged |
| `Phases.NothingAdvancesToEnded` | src/utils/gamePhases.js:29-44 | no phase other than ended has ended as its successor |
| `Phases.CanRoleAct` | src/utils/gamePhases.js:52-60 | at night exactly mafia, doctor, police and terrorist may act; in voting every role may; in any other phase no role may |
| `Records.RoundOr1` | src/utils/buttonState.js:8 | a missing round or round 0 reads as 1, and any other round reads as itself |
| `Records.Find` | src/utils/actionValidation.js:128 | `find` by id returns nothing exactly when no player has the id; otherwise it returns the first player with that id |
| `Records.FindFirst` | src/utils/actionValidation.js:109 | the result of `find` is the player at the first position with the id |
| `PoliceInvestigation.GetInvestigationResult` | src/utils/policeInvestigation.js:3-5 | the verdict is 'mafia' exactly when the target's role is mafia |
| `PoliceInvestigation.VerdictMatchesTeam` | src/utils/policeInvestigation.js:3-5 | the verdict is 'mafia' exactly when the target is on the mafia team |
| `PoliceInvestigation.CreatePoliceNotification` | src/utils/policeInvestigation.js:7-16 | the notification goes to the investigator, has type 'investigation_result', carries the verdict, and its message names the verdict |
| `PoliceInvestigation.ProcessPoliceInvestigation` | src/utils/policeInvestigation.js:18-27 | the result is null exactly when the target id is not found; otherwise it is the investigator, the found target and its verdict |
| `PoliceInvestigation.NotificationAgreesWithInvestigation` | src/utils/policeInvestigation.js:7-27 | the notification for a processed investigation has the same recipient and verdict as the investigation |
| `ActionValidation.PendingActions` | src/utils/actionValidation.js:39-47 | there is a pending action exactly when the player has an unconfirmed action in that phase |
| `ActionValidation.FindCases` | src/utils/actionValidation.js:128-135 | the lookup fails exactly for an unknown id; a found target is alive exactly when the first player with the id is alive |
| `ActionValidation.ValidateTarget` | src/utils/actionValidation.js:123-140 | the guards run in order: missing target, then unknown target, then dead target, then self-target (only when an id to exclude is given) |
| `ActionValidation.ValidateNightAction` | src/utils/actionValidation.js:35-92 | a pending unconfirmed night action rejects first; a role with no night action rejects with "Role cannot act at night"; a role using another role's action gets that role's own message |
| `ActionValidation.ValidateVotingAction` | src/utils/actionValidation.js:94-121 | in order: a pending unconfirmed vote, an unknown target, a dead target, then God as the target |
| `ActionValidation.NightAcceptsExactlyLegal` | src/utils/actionValidation.js:35-92 | a night action is accepted exactly when it meets the independent legality rule: no pending action, the role's own action, a living known target, no self-target except for the doctor, the self-protect limit, and the one-bomb limit |
| `ActionValidation.VotingAcceptsExactlyLegal` | src/utils/actionValidation.js:94-121 | a vote is accepted exactly when there is no pending vote and the first player with the target id is alive and not God |
| `ActionValidation.ValidateAction` | src/utils/actionValidation.js:11-33 | a dead actor rejects first, then a phase mismatch, then any phase other than night or voting; the action is accepted exactly when it is legal |
| `ActionValidation.PendingNightActionRejects` | src/utils/actionValidation.js:38-47 | any unconfirmed night action by the same player rejects with "Player already acted this round" |
| `ActionValidation.ConfirmedActionsDoNotBlock` | src/utils/actionValidation.js:39-43 | adding a confirmed action never changes the verdict |
| `ActionValidation.RoundIsNotConsulted` | src/utils/actionValidation.js:39-43 | changing an existing action's round never changes the verdict |
| `ActionValidation.SelfTargetRule` | src/utils/actionValidation.js:55-86 | a valid self-target is refused for mafia, police and terrorist; for the doctor it is refused only when self-protection is already used |
| `ActionValidation.SelfProtectCheckedAfterTarget` | src/utils/actionValidation.js:62-67 | the self-protect message appears exactly when the target checks pass first |
| `ActionValidation.UsedBombRejectedBeforeTarget` | src/utils/actionValidation.js:82-86 | a terrorist who has already bombed is rejected before any target check |
| `ActionValidation.NightTargetRequired` | src/utils/actionValidation.js:55-86 | every night role's action needs a target |
| `ActionValidation.AcceptedVoteTargetsLivingNonGod` | src/utils/actionValidation.js:108-120 | an accepted vote names a found, living, non-God player |
| `ActionValidation.VoteTypeIgnored` | src/utils/actionValidation.js:94-121 | the vote validator never looks at the action type |
| `NightResolution.OfType` | src/utils/actionValidation.js:143-146 | the actions of one type, and only those |
| `NightResolution.Targets` | src/utils/actionValidation.js:172-175 | the list of every protect target, in order |
| `NightResolution.ProcessBombs` | src/utils/actionValidation.js:156-168 | the bomb loop logs every bomb whose terrorist and target are found, and pushes both ids onto the deaths |
| `NightResolution.ProcessProtections` | src/utils/actionValidation.js:171-175 | the protected set holds exactly the listed protect targets |
| `NightResolution.ProcessKills` | src/utils/actionValidation.js:178-183 | each kill target is appended unless it is protected or already dead |
| `NightResolution.ProcessInvestigations` | src/utils/actionValidation.js:186-196 | each investigation of a found target is logged with its verdict |
| `NightResolution.ResolveNightActions` | src/utils/actionValidation.js:142-199 | the four passes, in the order bombs, protections, kills, investigations, produce the night specification; the inputs are values and are not changed |
| `NightResolution.FiredBombsLogged` | src/utils/actionValidation.js:156-167 | every bomb whose actors are found is logged |
| `NightResolution.LoggedBombsFired` | src/utils/actionValidation.js:156-167 | every logged bomb comes from a bomb whose actors are found |
| `NightResolution.BombDeathsMembers` | src/utils/actionValidation.js:161-162 | the bomb deaths are exactly the terrorists and targets of the logged bombs |
| `NightResolution.KillFoldMembers` | src/utils/actionValidation.js:178-183 | after the kills, a player is dead exactly when they were already dead, or when they are unprotected and the target of some kill |
| `NightResolution.KillFoldAppends` | src/utils/actionValidation.js:178-183 | the kills only append, and each appended target is unprotected and not already listed |
| `NightResolution.NightDeaths` | src/utils/actionValidation.js:155-183 | a player is in the deaths exactly when they are the terrorist or target of a fired bomb, or are unprotected and the target of a kill |
| `NightResolution.BombsAlwaysKill` | src/utils/actionValidation.js:156-168 | a fired bomb kills both terrorist and target, whatever protections exist |
| `NightResolution.NightProtections` | src/utils/actionValidation.js:171-175 | the protections are exactly the protect targets |
| `NightResolution.KillsAfterBombs` | src/utils/actionValidation.js:155-183 | the bomb deaths come first; after them come only unprotected targets, each listed once |
| `NightResolution.InvestigationsAgreeWithPolice` | src/utils/actionValidation.js:186-196 | the night's investigation log equals the police helper applied to every investigation, with the not-found ones dropped |
| `NightResolution.NoActionsNoResults` | src/utils/actionValidation.js:148-153 | no actions give four empty lists |
| `WinConditions.CheckWinCondition` | src/utils/winConditions.js:3-39 | the counting loop gives exactly the win outcome: nobody alive, then a mafia win, then a citizen win, else the game continues |
| `WinConditions.TeamsPartition` | src/utils/winConditions.js:16-19 | each counted player is counted on exactly one team |
| `WinConditions.CountTeamAppend` | src/utils/winConditions.js:16-19 | team counts add up over a split of the player list |
| `WinConditions.OutcomeMatchesReason` | src/utils/winConditions.js:6-38 | exactly one of the four outcomes occurs, each reason goes with its winner, and a neutral player never wins |
| `WinConditions.NoPlayersAliveExactly` | src/utils/winConditions.js:4-8 | "No players alive" occurs exactly when every player is dead or God |
| `WinConditions.DeadPlayersIrrelevant` | src/utils/winConditions.js:4 | an added dead player or God never changes the outcome |
| `WinConditions.OnlyLivingPlayersMatter` | src/utils/winConditions.js:4 | the outcome for the whole list equals the outcome for its living non-God players alone, so dead players and God never affect it wherever they stand |
| `WinConditions.TerroristsDoNotCount` | src/utils/winConditions.js:16-27 | once someone is alive, an added living terrorist never changes the outcome |
| `WinConditions.OnlyTerroristsLeftMeansCitizensWin` | src/utils/winConditions.js:30-35 | citizens win when the only living non-God players are terrorists |
| `WinConditions.NoMafiaCounted` | src/utils/winConditions.js:16-19 | terrorists add nothing to the mafia count |
| `WinConditions.GetWinningPlayers` | src/utils/winConditions.js:41-48 | no winner gives nobody; otherwise the result is the non-God players of the winning team, alive or dead |
| `WinConditions.WinnersInInputOrder` | src/utils/winConditions.js:44-47 | the winners keep the input order |
| `VotingLogic.Keys` | src/utils/votingLogic.js:8-16 | the count keys are distinct and are exactly the targets that received a vote |
| `VotingLogic.CountKeyPositive` | src/utils/votingLogic.js:8-12 | a target has a positive count exactly when some vote names it |
| `VotingLogic.MaxCount` | src/utils/votingLogic.js:14 | the maximum is at least every count and is attained by some key |
| `VotingLogic.CountsStep` | src/utils/votingLogic.js:10-11 | one more vote adds one to its target's count and changes no other count |
| `VotingLogic.CountVotes` | src/utils/votingLogic.js:8-12 | the counting loop fills the count object with the number of votes per target, with keys in first-vote order |
| `VotingLogic.ResolveVoting` | src/utils/votingLogic.js:3-24 | the tally equals the voting specification |
| `VotingLogic.NoVotesNoElimination` | src/utils/votingLogic.js:4-6 | no votes give no elimination, no tie and no counts |
| `VotingLogic.CountsAreVoteCounts` | src/utils/votingLogic.js:8-12 | each count is the number of votes for that target, and only voted targets have counts |
| `VotingLogic.EliminatedAreTheMaxima` | src/utils/votingLogic.js:14-23 | the eliminated are exactly the targets with the maximum count, listed once each; there is at least one whenever there are votes; tie holds exactly when more than one is eliminated |
| `VotingLogic.FilterDistinct` | src/utils/votingLogic.js:15-17 | filtering distinct keys keeps them distinct |
| `VotingLogic.SumCountsStep` | src/utils/votingLogic.js:10-11 | one vote adds one to the sum of the counts of its key |
| `VotingLogic.SumCountsAppend` | src/utils/votingLogic.js:8-12 | the sum of the counts grows by the count of each added key |
| `VotingLogic.CountsSumToVotes` | src/utils/votingLogic.js:8-12 | the counts sum to the number of votes |
| `VotingLogic.TwoWayTie` | src/utils/votingLogic.js:14-23 | two votes for p1 and two for p2 eliminate both, with a tie and both counts 2 |
| `VotingLogic.CanVote` | src/utils/votingLogic.js:26-28 | a player may vote exactly when alive, not God and in the voting phase; nobody votes outside it, and a permitted voter has a role that may act in that phase |
| `VotingLogic.IsValidVoteTarget` | src/utils/votingLogic.js:30-33 | true names a living, non-God player with the id; when player ids are distinct, true exactly when such a player exists |
| `VotingLogic.ValidatorUsesValidVoteTarget` | src/utils/votingLogic.js:30-33 | the vote validator accepts exactly when there is no pending vote and the target is valid |
| `VotingLogic.CanVoteIsAccepted` | src/utils/votingLogic.js:26-33 | a vote by a player who may vote, with no pending vote and naming a valid target, passes the full validator |
| `GodConfirmation.NatToString` | src/utils/godConfirmation.js:20 | the count prints as a non-empty run of decimal digits |
| `GodConfirmation.NatToStringValue` | src/utils/godConfirmation.js:20 | the printed digits, read as a decimal number, are the count itself |
| `GodConfirmation.ConfirmationMessageNamesCount` | src/utils/godConfirmation.js:17-21 | the error message is the fixed head and tail text around digits that spell the unconfirmed count |
| `GodConfirmation.GetPendingConfirmations` | src/utils/godConfirmation.js:27-29 | exactly the unconfirmed actions |
| `GodConfirmation.GetUnconfirmedActionCount` | src/utils/godConfirmation.js:23-25 | the count is the number of pending confirmations, and is 0 exactly when every action is confirmed |
| `GodConfirmation.CanGodAdvancePhase` | src/utils/godConfirmation.js:1-9 | voting always advances; any other phase advances exactly when every action is confirmed, which includes an empty list |
| `GodConfirmation.GetConfirmationErrorMessage` | src/utils/godConfirmation.js:11-21 | no message in voting or with nothing unconfirmed; otherwise the message carrying the unconfirmed count |
| `GodConfirmation.AdvanceIffNoMessage` | src/utils/godConfirmation.js:1-21 | outside voting, advancing is allowed exactly when there is no message |
| `GodConfirmation.ValidatePhaseAdvance` | src/utils/godConfirmation.js:31-39 | it fails, with the message carrying the count, exactly when some action is unconfirmed; otherwise it returns true |
| `GodConfirmation.VotingGateIgnoresValidator` | src/utils/godConfirmation.js:3-5 | in voting the gate passes while the validator still rejects an unconfirmed action |
| `PhaseControl.AliveRequired` | src/utils/phaseControl.js:14-17 | the living mafia, doctor and police players |
| `PhaseControl.AliveVoters` | src/utils/phaseControl.js:25 | the living non-God players |
| `PhaseControl.Votes` | src/utils/phaseControl.js:26 | the actions of type 'vote' |
| `PhaseControl.CanAdvanceFromNight` | src/utils/phaseControl.js:13-22 | night can advance exactly when every living mafia, doctor and police player has some action, of any type and any confirmation state |
| `PhaseControl.CanAdvancePhase` | src/utils/phaseControl.js:4-11 | night and voting use their own checks; every other phase can always advance |
| `PhaseControl.CanAdvanceFromVoting` | src/utils/phaseControl.js:24-29 | through `VotingAdvanceIffNothingMissing`: when living voters have distinct ids and each vote comes from a different living voter, the count check holds exactly when nobody is missing a vote; `VotingComparesCountsOnly` shows a stranger's vote breaking that |
| `PhaseControl.GetMissingActions` | src/utils/phaseControl.js:31-50 | at night, exactly the players, in input order and with repeats kept, who are alive, have a mafia, doctor or police role and have no action; in voting, likewise the living non-God players with no vote; in any other phase, nobody |
| `PhaseControl.NightAdvanceIffNothingMissing` | src/utils/phaseControl.js:13-40 | night can advance exactly when nobody is missing |
| `PhaseControl.VotingAdvanceIffNothingMissing` | src/utils/phaseControl.js:24-47 | when living voters have distinct ids and the votes come from distinct living voters, voting can advance exactly when nobody is missing a vote |
| `PhaseControl.VotingComparesCountsOnly` | src/utils/phaseControl.js:24-29 | a vote by a stranger lets voting advance even though the only voter is still missing |
| `PhaseControl.AliveVotersAreThoseWhoCanVote` | src/utils/phaseControl.js:25 | the alive voters are exactly the players who may vote in the voting phase |
| `PhaseTransition.AdvanceToDayIsNightCheck` | src/utils/phaseTransition.js:4-14 | `canAdvanceToDay` agrees with the night check of `phaseControl.js`: dead players are ignored and terrorists are optional |
| `PhaseTransition.CanAdvanceToDay` | src/utils/phaseTransition.js:4-14 | through `AdvanceToDayIsNightCheck`: true exactly when every living mafia, doctor and police player has submitted some action |
| `PhaseTransition.KillPermissionOnlyShrinks` | src/utils/phaseTransition.js:16-21 | with no actions a mafia player may kill; one more action takes the permission away exactly when it is a kill by that player, in any round |
| `PhaseTransition.CanMafiaKillAgain` | src/utils/phaseTransition.js:16-21 | through `KillPermissionOnlyShrinks`: starts true with no actions and is lost exactly by a kill of that mafia player, in any round |
| `PhaseTransition.GetRoleNightAction` | src/utils/phaseTransition.js:33-40 | an action is listed exactly for mafia, doctor and police |
| `PhaseTransition.RoleNightActionAgreesWithValidator` | src/utils/phaseTransition.js:34-38 | the listed actions match the validator's pairing, which also gives the terrorist the bomb |
| `PhaseTransition.GetRequiredNightActions` | src/utils/phaseTransition.js:23-40 | one entry per living mafia, doctor or police player, in order, each with that player's id and role and the action of the role's table: mafia_kill for mafia, doctor_protect for doctor, police_investigate for police |
| `PhaseTransition.AdvanceToDayIffRequiredSubmitted` | src/utils/phaseTransition.js:4-31 | advancing to day is allowed exactly when every required entry's player has an action |
| `ButtonState.CanPlayerAct` | src/utils/buttonState.js:3-12 | a player can act exactly when none of their unconfirmed actions of this phase has this round, with a missing round read as 1 |
| `ButtonState.NonBlockingActionsIgnored` | src/utils/buttonState.js:4-9 | confirmed actions and actions of other rounds never block |
| `ButtonState.MoreActionsOnlyDisable` | src/utils/buttonState.js:3-12 | if a player can act with more actions, they can act with fewer |
| `ButtonState.RoundZeroNeverBlocks` | src/utils/buttonState.js:8 | a current round of 0 never blocks, because a stored round reads as at least 1 |
| `ButtonState.GetPlayerActionStatus` | src/utils/buttonState.js:14-39 | `canAct` is whether the player can act; a blocked player gets the waiting message and "Submitted"; otherwise there is no message and the phase's default button text |
| `ButtonState.ShouldDisableAllButtons` | src/utils/buttonState.js:41-43 | the buttons are disabled exactly when the player cannot act |
| `GodControls.IsGod` | src/utils/godControls.js:4-6 | through `PermissionsFollowAssignment` and `NoPlayerNoPermission`: `isGod` holds, after role assignment on distinct ids, exactly for the player drawn as God, and never for a missing player |
| `GodControls.CanSeeAllRoles` | src/utils/godControls.js:8-10 | through `PermissionsFollowAssignment` and `NoPlayerNoPermission`: `canSeeAllRoles` holds, after role assignment on distinct ids, exactly for the player drawn as God, and never for a missing player; `PermissionsMatchValidator`: it agrees with the moderator action validator on every listed action |
| `GodControls.CanConfirmActions` | src/utils/godControls.js:12-14 | through `PermissionsFollowAssignment` and `NoPlayerNoPermission`: `canConfirmActions` holds, after role assignment on distinct ids, exactly for the player drawn as God, and never for a missing player; `PermissionsMatchValidator`: it agrees with the moderator action validator on every listed action |
| `GodControls.CanAdvancePhase` | src/utils/godControls.js:16-18 | through `PermissionsFollowAssignment` and `NoPlayerNoPermission`: `canAdvancePhase` holds, after role assignment on distinct ids, exactly for the player drawn as God, and never for a missing player; `PermissionsMatchValidator`: it agrees with the moderator action validator on every listed action |
| `GodControls.CanResetGame` | src/utils/godControls.js:20-22 | through `PermissionsFollowAssignment` and `NoPlayerNoPermission`: `canResetGame` holds, after role assignment on distinct ids, exactly for the player drawn as God, and never for a missing player; `PermissionsMatchValidator`: it agrees with the moderator action validator on every listed action |
| `GodControls.PermissionsFollowAssignment` | src/utils/godControls.js:4-22 | after role assignment on distinct ids, a player holding their assigned role passes `isGod`, each of the four permissions and the moderator action validator exactly when they are the player drawn as God |
| `GodControls.NoPlayerNoPermission` | src/utils/godControls.js:4-22 | a missing player has none of the permissions and is rejected with the moderator-only error |
| `GodControls.ReassignGod` | src/utils/godControls.js:24-31 | null exactly when no living non-God player exists; otherwise the id of some living non-God player |
| `GodControls.ValidateGodAction` | src/utils/godControls.js:33-44 | a non-God is rejected first; then an action outside the four valid ones is rejected; otherwise the result is true |
| `GodControls.PermissionsMatchValidator` | src/utils/godControls.js:8-44 | for a valid action, each permission holds exactly when the validator accepts |
| `GodDashboard.CurrentPhaseActions` | src/components/GodDashboard.jsx:130-133 | the actions of the current phase whose round matches the current round, both read with a missing round as 1 |
| `GodDashboard.ConfirmedOfRound` | src/components/GodDashboard.jsx:193-199 | the confirmed actions of the phase whose stored round equals the round |
| `GodDashboard.FirstOfType` | src/components/GodDashboard.jsx:209 | `find` by type: nothing exactly when no action has the type; otherwise the first one that does |
| `GodDashboard.FirstUnique` | src/components/GodDashboard.jsx:209 | the action found is the one at the first position of its type |
| `GodDashboard.MarkDead` | src/components/GodDashboard.jsx:225-229 | exactly the players whose id is listed become not alive; nothing else changes |
| `GodDashboard.ProcessNightActions` | src/components/GodDashboard.jsx:192-289 | the kill write, then the bomb write, leave the room as the night outcome describes |
| `GodDashboard.NightVictimsExactly` | src/components/GodDashboard.jsx:209-248 | a player dies exactly when they are the given target of the first confirmed kill and no confirmed protect names them, or the bomber or target of the first confirmed bomb, when that bomb has a target, protected or not |
| `GodDashboard.NightOnlyKillsVictims` | src/components/GodDashboard.jsx:225-248 | the night changes only the victims' alive flag, and no other field or player |
| `GodDashboard.CheckAndUpdateWinCondition` | src/components/GodDashboard.jsx:291-330 | a winner ends the game and records the winning team; with no winner nothing changes |
| `GodDashboard.WinCountsCompare` | src/components/GodDashboard.jsx:300-304 | the dashboard's mafia count equals the evaluator's, and its citizen side is at least the evaluator's citizen team |
| `GodDashboard.WinRulesRelate` | src/components/GodDashboard.jsx:306-311 | a dashboard mafia win is also an evaluator mafia win, and an evaluator citizen win is also a dashboard citizen win |
| `GodDashboard.WinRulesDiverge` | src/components/GodDashboard.jsx:300-311 | with a living mafia, terrorist and citizen the evaluator says mafia while the dashboard plays on, because the dashboard counts the terrorist on the citizen side |
| `GodDashboard.NobodyAliveDiverges` | src/components/GodDashboard.jsx:306-308 | with nobody alive the evaluator names no winner while the dashboard says citizens |
| `GodDashboard.TwoKillsDiverge` | src/components/GodDashboard.jsx:209-231 | of two unprotected kills the dashboard applies only the first, while the utilities' resolution kills both targets |
| `GodDashboard.GivenVotes` | src/components/GodDashboard.jsx:347-351 | votes without a target are skipped |
| `GodDashboard.MaxVoteKeys` | src/components/GodDashboard.jsx:361-371 | the running-maximum loop finds the largest count and the keys with that positive count, in key order |
| `GodDashboard.TallyStep` | src/components/GodDashboard.jsx:364-370 | one pass of the loop keeps the running maximum and its keys |
| `GodDashboard.NoneAbove` | src/components/GodDashboard.jsx:361-362 | for any list of keys, a value above their maximum count selects no key |
| `GodDashboard.MaxCountSnoc` | src/components/GodDashboard.jsx:364-367 | the maximum over one more key is the larger of the old maximum and that key's count |
| `GodDashboard.ProcessVoting` | src/components/GodDashboard.jsx:332-418 | the counting and the running-maximum loop leave the room as the voting outcome describes |
| `GodDashboard.PositiveMax` | src/components/GodDashboard.jsx:364-373 | the dashboard's running maximum picks the same keys as the utilities' tally of the given votes |
| `GodDashboard.VoteVictimsAreTheMaxima` | src/components/GodDashboard.jsx:341-391 | the vote kills exactly the targets with the highest count, and nobody when no vote names a target |
| `GodDashboard.VotingOnlyKillsVictims` | src/components/GodDashboard.jsx:386-391 | the vote changes only the victims' alive flag, and no other field or player |
| `GodDashboard.SuccessorsDiverge` | src/components/GodDashboard.jsx:146-155 | the dashboard and `getNextPhase` agree on night and day; the dashboard sends voting to night where `getNextPhase` gives day; the dashboard leaves lobby alone where `getNextPhase` gives night |
| `GodDashboard.NextPhase` | src/components/GodDashboard.jsx:128-190 | building the update step by step, then resolving and checking for a winner, gives the phase-advance specification |
| `GodDashboard.BlockedAdvanceChangesNothing` | src/components/GodDashboard.jsx:130-155 | an unconfirmed action of the current phase and round blocks every phase except voting and changes nothing; a phase other than night, day or voting changes nothing |
| `GodDashboard.AdvanceOutcome` | src/components/GodDashboard.jsx:142-189 | an advance keeps the actions; only voting moves the round on, from the round read as 1 when missing; day only moves to voting; after night or voting a winner ends the game and is recorded, otherwise the phase moves to its successor |
| `GodDashboard.ResetGame` | src/components/GodDashboard.jsx:420-470 | reset deletes every action, makes every player alive with no role, and sets lobby, round 1, no winner |
| `GodDashboard.RestartGame` | src/components/GodDashboard.jsx:472-520 | restart deletes every action, makes every player alive with the same role, and sets night and round 1 |
| `GodDashboard.ResetAndRestartSettle` | src/components/GodDashboard.jsx:420-520 | reset and restart are idempotent; nobody is dead after either; a restart after a reset leaves no roles |
| `GodDashboard.RestartKeepsWinner` | src/components/GodDashboard.jsx:496-504 | restart does not clear a recorded winner |

## Left out

- React rendering, hooks, timers, error banners and the narration text of the dashboard: they are user interface, not rules.
- Supabase reads, writes and realtime channels: each store read is a snapshot field, and each write is a new returned snapshot.
- The dashboard reads `gameState` from its props, while its store updates go to the database. The model assumes the props match the store when `nextPhase` starts. So the night and the vote resolve with the round from before the advance, as the code does.
- The database fallback writes that run when a column is missing (`GodDashboard.jsx` lines 166-172 and 322-328) are store errors and are not modelled.
- Store writes are assumed to succeed. In the source, `resetGame` and `restartGame` throw on a failed write (`GodDashboard.jsx` lines 431, 443, 456, 483, 494 and 506) and leave the earlier writes applied. `nextPhase` ignores errors from its kill and vote writes. The model never leaves a partially written room.
- A failed store read (`!confirmedActions`, `!votes`, `!updatedPlayers`) is not modelled; every read returns the snapshot's rows.
- `has_acted` and `started_at` are not modelled; nothing in the rules reads them.
- Unknown phase and role strings are not modelled: phases, roles and action types are closed datatypes, so values outside them cannot be written.
- `null` and `undefined` are not told apart. Both are `None`. An empty string id reads as missing wherever the source tests truthiness.
- A `null` vote list in `resolveVoting` is left out, because the datatype cannot express it. The empty list is modelled.
- `Object.keys` lists integer-like keys first, in numeric order. The model lists keys in the order of their first vote, so for such ids the order of `eliminated` can differ. The set of eliminated ids is the same.
- A vote with no target counts under the key "null" in `resolveVoting`, as JavaScript does when it turns the key into a string.
- `Roles.MafiaShare`: the floating-point product `p * 0.3` is modelled as the exact `(3 * p) / 10`. For the player counts the game allows, this assumes the double rounds the same way.
- `Roles.Shuffle`: the random comparator sort is modelled as picking any remaining role at each step. Every permutation is reachable, but nothing about the distribution is claimed.
- `GodControls.ReassignGod`: the random index is modelled as a nondeterministic choice. Only membership is proved.
- `Roles.AssignRoles`: the random God index is a parameter. It must be in range once the draw happens, as `Math.floor(Math.random() * n)` always is.
- Thrown `Error` and `ActionValidationError` values become results that carry the message, so no exception can escape.
- Concurrent clients submitting actions, and a double "advance", are outside this sequential model.
- The dashboard's police narration loop (`GodDashboard.jsx` lines 254-263) changes no state and is not modelled. The utilities' investigation log is.
