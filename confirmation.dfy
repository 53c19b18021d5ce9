/** The moderator's confirmation gate on advancing a phase (src/utils/godConfirmation.js). */
module GodConfirmation {
  import opened Wrappers
  import opened Seqs
  import opened Phases
  import opened Records

  /** The decimal digits of a count, as a template literal prints them. */
  function NatToString(n: nat): (s: string)
    ensures |s| > 0
    ensures forall i :: 0 <= i < |s| ==> '0' <= s[i] <= '9'
    decreases n
  {
    var digit := "0123456789"[n % 10];
    if n < 10 then [digit] else NatToString(n / 10) + [digit]
  }

  /** The number a string of decimal digits spells, read left to right. */
  function DigitsValue(s: string): int
    decreases |s|
  {
    if |s| == 0 then 0 else 10 * DigitsValue(s[..|s| - 1]) + (s[|s| - 1] as int - '0' as int)
  }

  /** The printed digits spell the count itself. */
  lemma {:induction false} NatToStringValue(n: nat)
    ensures DigitsValue(NatToString(n)) == n
    decreases n
  {
    var digit := "0123456789"[n % 10];
    assert digit as int - '0' as int == n % 10;
    if n >= 10 {
      NatToStringValue(n / 10);
      var s := NatToString(n / 10) + [digit];
      assert s[..|s| - 1] == NatToString(n / 10);
    }
  }

  const MessageHead := "Please confirm all actions before advancing phase. "
  const MessageTail := " unconfirmed action(s) remaining."

  /** The error text for `n` unconfirmed actions. */
  function ConfirmationMessage(n: nat): string {
    MessageHead + NatToString(n) + MessageTail
  }

  /** The message is the fixed head and tail around digits that spell the count. */
  lemma ConfirmationMessageNamesCount(n: nat)
    ensures var m := ConfirmationMessage(n);
      |m| > |MessageHead| + |MessageTail| &&
      m[..|MessageHead|] == MessageHead && m[|m| - |MessageTail|..] == MessageTail &&
      DigitsValue(m[|MessageHead|..|m| - |MessageTail|]) == n
  {
    var m := ConfirmationMessage(n);
    assert m[|MessageHead|..|m| - |MessageTail|] == NatToString(n);
    NatToStringValue(n);
  }

  /** `getPendingConfirmations`: the unconfirmed actions, in order. */
  function GetPendingConfirmations(actions: seq<Action>): (r: seq<Action>)
    ensures forall a :: a in r <==> a in actions && !a.confirmed
  {
    Filter(actions, (a: Action) => !a.confirmed)
  }

  /** `getUnconfirmedActionCount`: the length of the pending list; zero exactly when every action is confirmed. */
  function GetUnconfirmedActionCount(actions: seq<Action>): (n: nat)
    ensures n == |GetPendingConfirmations(actions)|
    ensures n == 0 <==> forall i :: 0 <= i < |actions| ==> actions[i].confirmed
  {
    var pending := Filter(actions, (a: Action) => !a.confirmed);
    assert |pending| > 0 ==> pending[0] in pending;
    assert forall i :: 0 <= i < |actions| && !actions[i].confirmed ==> actions[i] in pending;
    |pending|
  }

  /** `canGodAdvancePhase`: always in voting; otherwise only when no action is unconfirmed. */
  function CanGodAdvancePhase(actions: seq<Action>, currentPhase: Phase): (r: bool)
    ensures currentPhase == Voting ==> r
    ensures currentPhase != Voting ==> (r <==> forall i :: 0 <= i < |actions| ==> actions[i].confirmed)
  {
    if currentPhase == Voting then true
    else GetUnconfirmedActionCount(actions) == 0
  }

  /** `getConfirmationErrorMessage`: null in voting or with nothing unconfirmed; otherwise the message with the count. */
  function GetConfirmationErrorMessage(actions: seq<Action>, currentPhase: Phase): (m: Option<string>)
    ensures currentPhase == Voting ==> m.None?
    ensures currentPhase != Voting ==> (m.None? <==> GetUnconfirmedActionCount(actions) == 0)
    ensures m.Some? ==> m.value == ConfirmationMessage(GetUnconfirmedActionCount(actions))
  {
    if currentPhase == Voting then None
    else
      var unconfirmedCount := GetUnconfirmedActionCount(actions);
      if unconfirmedCount == 0 then None else Some(ConfirmationMessage(unconfirmedCount))
  }

  /** Outside voting, the moderator may advance exactly when there is no error message. */
  lemma AdvanceIffNoMessage(actions: seq<Action>, currentPhase: Phase)
    requires currentPhase != Voting
    ensures CanGodAdvancePhase(actions, currentPhase) <==> GetConfirmationErrorMessage(actions, currentPhase).None?
  {
  }

  /**
   * `validatePhaseAdvance`: fails exactly when some action is unconfirmed,
   * with the message for the unconfirmed count (the phase is not passed, so
   * the voting exemption never applies); returns true otherwise.
   */
  function ValidatePhaseAdvance(actions: seq<Action>): (r: Result<bool, string>)
    ensures r.Err? <==> exists i :: 0 <= i < |actions| && !actions[i].confirmed
    ensures r.Ok? ==> r.value
    ensures r.Err? ==> r.error == ConfirmationMessage(|GetPendingConfirmations(actions)|)
  {
    var unconfirmedActions := GetPendingConfirmations(actions);
    if |unconfirmedActions| > 0 then
      Err(GetConfirmationErrorMessage(actions, Lobby).value)
    else Ok(true)
  }

  /** In voting the gate and the validator disagree: the gate always opens, the validator still rejects unconfirmed actions. */
  lemma VotingGateIgnoresValidator(a: Action)
    requires !a.confirmed
    ensures CanGodAdvancePhase([a], Voting)
    ensures ValidatePhaseAdvance([a]).Err?
  {
    assert [a][0] == a;
  }
}
