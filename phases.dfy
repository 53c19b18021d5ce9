/** The game phases, the phase order and which roles may act in a phase (src/utils/gamePhases.js). */
module Phases {
  import opened Wrappers
  import opened Seqs
  import opened Roles

  /** `GAME_PHASES`. */
  datatype Phase = Lobby | RoundStart | Night | Day | Voting | RoundEnd | Ended

  /** The four `NIGHT_ACTIONS` and the `'vote'` action type. */
  datatype ActionType = MafiaKill | DoctorProtect | PoliceInvestigate | TerroristBomb | Vote

  /** The phase order of `getNextPhase`, with its second `day` entry after voting. */
  const PhaseOrder: seq<Phase> := [Lobby, Night, Day, Voting, Day, Ended]

  /**
   * `getNextPhase`: the entry after the first occurrence of the phase in the
   * order; a phase that is absent, or the last entry, is returned unchanged.
   */
  function GetNextPhase(current: Phase): Phase {
    var currentIndex := IndexOf(PhaseOrder, current);
    if currentIndex == -1 || currentIndex == |PhaseOrder| - 1 then current
    else PhaseOrder[currentIndex + 1]
  }

  /** The successor table the phase order amounts to. */
  function SuccessorTable(p: Phase): Phase {
    match p
    case Lobby => Night
    case Night => Day
    case Day => Voting
    case Voting => Day
    case _ => p
  }

  /** The first position at which each phase occurs in the order; the second `day` (position 4) is never found. */
  lemma {:induction false} PhasePositions(p: Phase)
    ensures IndexOf(PhaseOrder, p) == match p
      case Lobby => 0
      case Night => 1
      case Day => 2
      case Voting => 3
      case Ended => 5
      case _ => -1
    ensures IndexOf(PhaseOrder, p) != 4
  {
    var o := PhaseOrder;
    assert o[1..] == [Night, Day, Voting, Day, Ended];
    assert o[1..][1..] == [Day, Voting, Day, Ended];
    assert o[1..][1..][1..] == [Voting, Day, Ended];
    assert o[1..][1..][1..][1..] == [Day, Ended];
    assert o[1..][1..][1..][1..][1..] == [Ended];
    assert o[1..][1..][1..][1..][1..][1..] == [];
  }

  /**
   * lobby -> night -> day -> voting -> day; round_start, round_end and ended
   * are fixed points.
   */
  lemma NextPhaseIsTable(p: Phase)
    ensures GetNextPhase(p) == SuccessorTable(p)
  {
    PhasePositions(p);
  }

  /** Only `ended` leads to `ended`: the order's last entry is never reached from another phase. */
  lemma NothingAdvancesToEnded(p: Phase)
    requires p != Ended
    ensures GetNextPhase(p) != Ended
  {
    NextPhaseIsTable(p);
  }

  /** The roles listed for the night: mafia, doctor, police and terrorist. */
  predicate IsNightRole(role: Option<Role>) {
    role in {Some(Mafia), Some(Doctor), Some(Police), Some(Terrorist)}
  }

  /**
   * `canRoleAct`: at night only mafia, doctor, police and terrorist; in
   * voting every role; in any other phase nobody.
   */
  function CanRoleAct(role: Option<Role>, phase: Phase): (r: bool)
    ensures phase == Night ==> (r <==> IsNightRole(role))
    ensures phase == Voting ==> r
    ensures phase !in {Night, Voting} ==> !r
  {
    if phase == Night then role in {Some(Mafia), Some(Doctor), Some(Police), Some(Terrorist)}
    else if phase == Voting then true
    else false
  }
}
