/**
 * The parental PIN gate of the settings screen, as transitions on values.
 *
 * The gate has three screens: set-up (no PIN stored), unlock (PIN stored,
 * locked) and the settings panel (PIN stored, unlocked). The PIN is a plain
 * string kept in the browser's key-value store; checking it is string
 * equality. There is no attempt counter, no lockout and no auto-lock.
 */
module PinGate {
  import opened Wrappers
  import opened Text

  /** The key-value store entry that holds the PIN. */
  const PinStorageKey: string := "carbsmart_parental_pin"

  /** The component fields the handlers update. */
  datatype Gate = Gate(isUnlocked: bool, hasPin: bool, pin: string, confirmPin: string)

  /** Which of the three screens is rendered. */
  datatype Screen = SetupScreen | UnlockScreen | SettingsPanel

  /** The toast a handler raises. */
  datatype Notice = InvalidPin | PinMismatch | PinSuccess | AccessGranted | IncorrectPin

  /** What a handler leaves behind: the new fields, the stored PIN, the toast. */
  datatype Step = Step(gate: Gate, stored: Option<string>, notice: Notice)

  /** The set-PIN format check: exactly four ASCII digits. */
  predicate WellFormedPin(pin: string) {
    |pin| == 4 && AllDigits(pin)
  }

  /** What the two input fields can hold once the keystroke filter is in place. */
  predicate InputsWellFormed(g: Gate) {
    AllDigits(g.pin) && |g.pin| <= 4 && AllDigits(g.confirmPin) && |g.confirmPin| <= 4
  }

  /** A PIN counts as present when the store holds a non-empty string for it. */
  predicate PinPresent(stored: Option<string>) {
    stored.Some? && stored.value != ""
  }

  /** The fields right after mounting, once the effect has read the store. */
  function Mount(stored: Option<string>): (g: Gate)
    ensures !g.isUnlocked && g.pin == "" && g.confirmPin == ""
    ensures g.hasPin <==> PinPresent(stored)
    ensures InputsWellFormed(g)
  {
    Gate(false, PinPresent(stored), "", "")
  }

  /** The set-PIN handler: format check, then confirmation check, then store. */
  function SetPin(g: Gate, stored: Option<string>): (r: Step)
    ensures r.notice == InvalidPin <==> !WellFormedPin(g.pin)
    ensures r.notice == PinMismatch <==> WellFormedPin(g.pin) && g.pin != g.confirmPin
    ensures r.notice == PinSuccess <==> WellFormedPin(g.pin) && g.pin == g.confirmPin
    ensures r.notice != PinSuccess ==> r.gate == g && r.stored == stored
    ensures r.notice == PinSuccess ==> r.stored == Some(g.pin) && r.gate == Gate(true, true, "", "")
  {
    if |g.pin| != 4 || !AllDigits(g.pin) then Step(g, stored, InvalidPin)
    else if g.pin != g.confirmPin then Step(g, stored, PinMismatch)
    else Step(Gate(true, true, "", ""), Some(g.pin), PinSuccess)
  }

  /** The verify handler: string equality with whatever the store holds now. */
  function Verify(g: Gate, stored: Option<string>): (r: Step)
    ensures r.notice == AccessGranted <==> stored == Some(g.pin)
    ensures r.notice != AccessGranted ==> r.notice == IncorrectPin
    ensures r.gate.isUnlocked <==> g.isUnlocked || stored == Some(g.pin)
    ensures r.gate.pin == ""
    ensures r.gate.hasPin == g.hasPin && r.gate.confirmPin == g.confirmPin && r.stored == stored
  {
    if stored == Some(g.pin) then Step(g.(isUnlocked := true, pin := ""), stored, AccessGranted)
    else Step(g.(pin := ""), stored, IncorrectPin)
  }

  /** The keystroke filter shared by both input fields. */
  function Filter(current: string, value: string): (r: string)
    ensures AllDigits(value) && |value| <= 4 ==> r == value
    ensures !(AllDigits(value) && |value| <= 4) ==> r == current
  {
    if AllDigits(value) && |value| <= 4 then value else current
  }

  /** A keystroke in the PIN field: the field takes the value or keeps its own, and nothing else changes. */
  function PinInput(g: Gate, value: string): (r: Gate)
    ensures r.pin == value || r.pin == g.pin
    ensures AllDigits(g.pin) && |g.pin| <= 4 ==> AllDigits(r.pin) && |r.pin| <= 4
    ensures r.isUnlocked == g.isUnlocked && r.hasPin == g.hasPin && r.confirmPin == g.confirmPin
  {
    g.(pin := Filter(g.pin, value))
  }

  /** A keystroke in the confirmation field, filtered the same way. */
  function ConfirmPinInput(g: Gate, value: string): (r: Gate)
    ensures r.confirmPin == value || r.confirmPin == g.confirmPin
    ensures AllDigits(g.confirmPin) && |g.confirmPin| <= 4 ==> AllDigits(r.confirmPin) && |r.confirmPin| <= 4
    ensures r.isUnlocked == g.isUnlocked && r.hasPin == g.hasPin && r.pin == g.pin
  {
    g.(confirmPin := Filter(g.confirmPin, value))
  }

  /** The lock button. */
  function Lock(g: Gate): (r: Gate)
    ensures !r.isUnlocked
    ensures r.hasPin == g.hasPin && r.pin == g.pin && r.confirmPin == g.confirmPin
  {
    g.(isUnlocked := false)
  }

  /** The screen selection at the end of the component. */
  function ScreenOf(g: Gate): (s: Screen)
    ensures s == SetupScreen <==> !g.hasPin
    ensures s == UnlockScreen <==> g.hasPin && !g.isUnlocked
    ensures s == SettingsPanel <==> g.hasPin && g.isUnlocked
  {
    if !g.hasPin then SetupScreen
    else if !g.isUnlocked then UnlockScreen
    else SettingsPanel
  }

  /** Every handler keeps both input fields digit strings of length at most 4. */
  lemma InputsStayWellFormed(g: Gate, stored: Option<string>, value: string)
    requires InputsWellFormed(g)
    ensures InputsWellFormed(SetPin(g, stored).gate)
    ensures InputsWellFormed(Verify(g, stored).gate)
    ensures InputsWellFormed(PinInput(g, value))
    ensures InputsWellFormed(ConfirmPinInput(g, value))
    ensures InputsWellFormed(Lock(g))
  {
  }

  /**
   * With the filter in place, a four-character PIN is always four digits:
   * the format error is reached only through the Enter key, which bypasses
   * the disabled button.
   */
  lemma FilteredPinOfLengthFourIsWellFormed(g: Gate, stored: Option<string>)
    requires InputsWellFormed(g) && |g.pin| == 4
    ensures SetPin(g, stored).notice != InvalidPin
  {
  }

  /** A failed verification leaves the gate as it was, apart from the emptied entry. */
  lemma FailedVerifyChangesNothingElse(g: Gate, stored: Option<string>)
    requires stored != Some(g.pin)
    ensures Verify(g, stored) == Step(g.(pin := ""), stored, IncorrectPin)
  {
  }

  /** Verifies a series of typed entries one after another; the last step. */
  function VerifyAll(g: Gate, stored: Option<string>, entries: seq<string>): Gate
    decreases |entries|
  {
    if entries == [] then g
    else VerifyAll(Verify(PinInput(g, entries[0]), stored).gate, stored, entries[1..])
  }

  /**
   * No lockout: however many wrong entries came first, the gate is exactly
   * where it started (entry emptied), so the right PIN still unlocks it.
   */
  lemma {:induction false} NoLockoutAfterWrongEntries(g: Gate, stored: Option<string>, entries: seq<string>)
    requires g.pin == ""
    requires forall k :: 0 <= k < |entries| ==> stored != Some(PinInput(g, entries[k]).pin)
    ensures VerifyAll(g, stored, entries) == g
    decreases |entries|
  {
    if entries != [] {
      var g' := Verify(PinInput(g, entries[0]), stored).gate;
      assert g' == g;
      forall k | 0 <= k < |entries[1..]|
        ensures stored != Some(PinInput(g', entries[1..][k]).pin)
      {
        assert entries[1..][k] == entries[k + 1];
      }
      NoLockoutAfterWrongEntries(g', stored, entries[1..]);
    }
  }

  /** Round trip: a PIN that was set, then locked away, unlocks the panel again. */
  lemma SetLockVerifyRoundTrip(g: Gate, stored: Option<string>)
    requires WellFormedPin(g.pin) && g.pin == g.confirmPin
    ensures var afterSet := SetPin(g, stored);
            var locked := Lock(afterSet.gate);
            var typed := PinInput(locked, g.pin);
            var unlocked := Verify(typed, afterSet.stored);
            ScreenOf(locked) == UnlockScreen &&
            unlocked.notice == AccessGranted && ScreenOf(unlocked.gate) == SettingsPanel
  {
  }

  /** The settings panel is reached from the unlock screen only through the stored PIN. */
  lemma PanelOnlyThroughStoredPin(g: Gate, stored: Option<string>)
    requires ScreenOf(g) != SettingsPanel
    ensures ScreenOf(Verify(g, stored).gate) == SettingsPanel ==> g.hasPin && stored == Some(g.pin)
    ensures ScreenOf(SetPin(g, stored).gate) == SettingsPanel ==> SetPin(g, stored).stored == Some(g.pin)
  {
  }
}
