/**
 * The settings screen component with its parental PIN gate, as an object
 * whose handlers update its fields and write the PIN into the browser's
 * key-value store. Each handler is proved against the transition of the
 * same name in `PinGate`.
 */
module SettingsScreen {
  import opened Wrappers
  import opened Text
  import PinGate

  /** The browser's key-value store (`localStorage`), shared by every component. */
  class LocalStorage {
    var entries: map<string, string>

    constructor (initial: map<string, string>)
      ensures entries == initial
    {
      entries := initial;
    }

    /** `getItem`: the stored string, or `null` when the key is absent. */
    function GetItem(key: string): Option<string>
      reads this
    {
      if key in entries then Some(entries[key]) else None
    }

    /** `setItem` */
    method SetItem(key: string, value: string)
      modifies this
      ensures entries == old(entries)[key := value]
    {
      entries := entries[key := value];
    }
  }

  class SettingsView {
    var isUnlocked: bool
    var hasPin: bool
    var pin: string
    var confirmPin: string
    const storage: LocalStorage

    /** The fields as a `PinGate.Gate` value. */
    function Fields(): PinGate.Gate
      reads this
    {
      PinGate.Gate(isUnlocked, hasPin, pin, confirmPin)
    }

    /** The stored PIN, as the handlers read it. */
    function StoredPin(): Option<string>
      reads this, storage
    {
      storage.GetItem(PinGate.PinStorageKey)
    }

    /** Both input fields hold digit strings of length at most 4. */
    ghost predicate Valid()
      reads this
    {
      PinGate.InputsWellFormed(Fields())
    }

    /** Mounting: locked, empty inputs, and the effect that reads the store. */
    constructor (storage: LocalStorage)
      ensures this.storage == storage && Valid()
      ensures Fields() == PinGate.Mount(storage.GetItem(PinGate.PinStorageKey))
      ensures !isUnlocked && pin == "" && confirmPin == ""
      ensures hasPin <==> PinGate.PinStorageKey in storage.entries && storage.entries[PinGate.PinStorageKey] != ""
    {
      this.storage := storage;
      isUnlocked := false;
      hasPin := false;
      pin := "";
      confirmPin := "";
      new;
      var storedPin := storage.GetItem(PinGate.PinStorageKey);
      hasPin := storedPin.Some? && storedPin.value != "";
    }

    method HandleSetPin() returns (notice: PinGate.Notice)
      requires Valid()
      modifies this, storage
      ensures Valid()
      ensures var step := PinGate.SetPin(old(Fields()), old(StoredPin()));
              Fields() == step.gate && StoredPin() == step.stored && notice == step.notice
      ensures notice == PinGate.PinSuccess <==> PinGate.WellFormedPin(old(pin)) && old(pin) == old(confirmPin)
      ensures storage.entries == if notice == PinGate.PinSuccess
                                 then old(storage.entries)[PinGate.PinStorageKey := old(pin)]
                                 else old(storage.entries)
    {
      if |pin| != 4 || !AllDigits(pin) {
        notice := PinGate.InvalidPin;
        return;
      }
      if pin != confirmPin {
        notice := PinGate.PinMismatch;
        return;
      }
      storage.SetItem(PinGate.PinStorageKey, pin);
      hasPin := true;
      isUnlocked := true;
      pin := "";
      confirmPin := "";
      notice := PinGate.PinSuccess;
    }

    method HandleVerifyPin() returns (notice: PinGate.Notice)
      requires Valid()
      modifies this
      ensures Valid()
      ensures var step := PinGate.Verify(old(Fields()), old(StoredPin()));
              Fields() == step.gate && notice == step.notice
      ensures notice == PinGate.AccessGranted <==> old(StoredPin()) == Some(old(pin))
      ensures pin == "" && hasPin == old(hasPin) && confirmPin == old(confirmPin)
      ensures notice != PinGate.AccessGranted ==> isUnlocked == old(isUnlocked)
    {
      var storedPin := storage.GetItem(PinGate.PinStorageKey);
      if storedPin == Some(pin) {
        isUnlocked := true;
        pin := "";
        notice := PinGate.AccessGranted;
      } else {
        notice := PinGate.IncorrectPin;
        pin := "";
      }
    }

    method HandlePinInput(value: string)
      requires Valid()
      modifies this
      ensures Valid()
      ensures Fields() == PinGate.PinInput(old(Fields()), value)
      ensures pin == (if AllDigits(value) && |value| <= 4 then value else old(pin))
    {
      if AllDigits(value) && |value| <= 4 {
        pin := value;
      }
    }

    method HandleConfirmPinInput(value: string)
      requires Valid()
      modifies this
      ensures Valid()
      ensures Fields() == PinGate.ConfirmPinInput(old(Fields()), value)
      ensures confirmPin == (if AllDigits(value) && |value| <= 4 then value else old(confirmPin))
    {
      if AllDigits(value) && |value| <= 4 {
        confirmPin := value;
      }
    }

    /** The "Lock Settings" button. */
    method LockSettings()
      requires Valid()
      modifies this
      ensures Valid()
      ensures Fields() == PinGate.Lock(old(Fields()))
      ensures !isUnlocked && hasPin == old(hasPin) && pin == old(pin) && confirmPin == old(confirmPin)
    {
      isUnlocked := false;
    }

    /** The screen rendered for the current fields. */
    function CurrentScreen(): (s: PinGate.Screen)
      reads this
      ensures s == PinGate.SettingsPanel <==> hasPin && isUnlocked
      ensures s == PinGate.UnlockScreen <==> hasPin && !isUnlocked
      ensures s == PinGate.SetupScreen <==> !hasPin
    {
      PinGate.ScreenOf(Fields())
    }
  }
}
