/**
 * The session logic of the terminal interface, apart from drawing: the vault's directory
 * configuration, provisioning and unlocking with the master password, moving through the
 * input fields of each screen, the selection in the filtered list, and the bookkeeping of
 * the task that clears the clipboard after a copy.
 */
module Tui {
  import opened Prelude
  import opened Errors
  import Base64
  import Crypto
  import opened StorageOps
  import opened Storage
  import opened Localization

  // ---------------------------------------------------------------------------
  // The directory configuration
  // ---------------------------------------------------------------------------

  /** The per-directory configuration: the master password's PHC hash and the base64 key salt. */
  datatype DirectoryConfig = DirectoryConfig(masterPasswordHash: Option<string>, encryptionKeySalt: Option<string>)

  /** What a directory whose configuration cannot be loaded is treated as. */
  const EmptyDirectoryConfig := DirectoryConfig(None, None)

  predicate HasMasterPassword(c: DirectoryConfig)
  {
    c.masterPasswordHash.Some?
  }

  /** A salt of 32 random bytes, as drawn when a directory has none. */
  type KeySalt = b: Bytes | |b| == 32 witness seq(32, _ => 0)

  const InvalidSaltMessage: string := "Invalid salt"

  /**
   * Provisioning: the hash of the new master password always replaces the stored one; the
   * stored salt is kept, and only a directory without one gets the drawn salt, written
   * without padding.
   */
  function Provisioned(c: DirectoryConfig, hash: string, draw: KeySalt): (c': DirectoryConfig)
    ensures HasMasterPassword(c') && c'.masterPasswordHash == Some(hash)
    ensures c.encryptionKeySalt.Some? ==> c'.encryptionKeySalt == c.encryptionKeySalt
    ensures c.encryptionKeySalt.None? ==> c'.encryptionKeySalt == Some(Base64.EncodeNoPad(draw))
  {
    DirectoryConfig(Some(hash), if c.encryptionKeySalt.Some? then c.encryptionKeySalt else Some(Base64.EncodeNoPad(draw)))
  }

  /** The salt text decoded without padding (the current format), else with padding (the older one). */
  function DecodeSalt(s: string): (r: Result<Bytes>)
    ensures r.Ok? <==> Base64.DecodeNoPad(s).Some? || Base64.DecodePadded(s).Some?
    ensures Base64.DecodeNoPad(s).Some? ==> r == Ok(Base64.DecodeNoPad(s).value)
    ensures r.Err? ==> r.error == Crypto(InvalidSaltMessage)
  {
    match Base64.DecodeNoPad(s)
    case Some(b) => Ok(b)
    case None =>
      match Base64.DecodePadded(s)
      case Some(b) => Ok(b)
      case None => Err(Crypto(InvalidSaltMessage))
  }

  /** Salts in either format decode to the bytes they were written from. */
  lemma DecodeSaltOfEncoded(b: Bytes)
    ensures DecodeSalt(Base64.EncodeNoPad(b)) == Ok(b)
    ensures DecodeSalt(Base64.EncodePadded(b)) == Ok(b)
  {
    Base64.DecodeEncodeNoPad(b);
    Base64.DecodeEncodePadded(b);
    if |b| % 3 != 0 {
      Base64.NoPadRejectsPadding(b);
    } else {
      assert Base64.EncodePadded(b) == Base64.EncodeNoPad(b);
    }
  }

  /**
   * The salt the key is derived from, and the configuration afterwards: a stored salt is
   * decoded; with none, the drawn salt is used and stored without padding.
   */
  function SaltFor(c: DirectoryConfig, draw: KeySalt): (r: Result<(Bytes, DirectoryConfig)>)
    ensures r.Err? <==> c.encryptionKeySalt.Some? && DecodeSalt(c.encryptionKeySalt.value).Err?
    ensures r.Ok? ==> r.value.1.masterPasswordHash == c.masterPasswordHash
    ensures r.Ok? ==> r.value.1.encryptionKeySalt.Some?
  {
    match c.encryptionKeySalt
    case Some(s) =>
      var b :- DecodeSalt(s);
      Ok((b, c))
    case None => Ok((draw, c.(encryptionKeySalt := Some(Base64.EncodeNoPad(draw)))))
  }

  /**
   * Unlocking again uses the same salt: once a salt has been chosen for a directory, every
   * later unlock, whatever it draws, derives the key from the same bytes.
   */
  lemma SaltForStable(c: DirectoryConfig, draw: KeySalt, draw2: KeySalt)
    requires SaltFor(c, draw).Ok?
    ensures var (b, c') := SaltFor(c, draw).value; SaltFor(c', draw2) == Ok((b, c'))
  {
    if c.encryptionKeySalt.None? {
      DecodeSaltOfEncoded(draw);
    }
  }

  /**
   * After provisioning, the master password verifies against the stored hash, and the key
   * salt is the stored one or, for a new directory, the drawn one.
   */
  lemma ProvisionedUnlocks(c: DirectoryConfig, password: string, hashSalt: Crypto.HashSalt, draw: KeySalt)
    ensures var c' := Provisioned(c, Crypto.HashPassword(password, hashSalt).value, draw);
            && Crypto.VerifyPassword(password, c'.masterPasswordHash.value) == Ok(true)
            && (c.encryptionKeySalt.None? ==> SaltFor(c', draw) == Ok((draw, c')))
  {
    Crypto.VerifyHashedPassword(password, hashSalt);
    DecodeSaltOfEncoded(draw);
  }

  // ---------------------------------------------------------------------------
  // Enter on the master password screen
  // ---------------------------------------------------------------------------

  /** What pressing Enter on the master password screen sets off, in order. */
  datatype EnterStep = MoveToField(field: nat) | ResetConfirmation | StoreHash | VerifyHash | DeriveKey

  /**
   * Enter as written: on creation, the directory field moves to the password field and the
   * password field to the confirmation, but neither stops there; both go on to derive the
   * key from whatever has been typed.
   */
  function EnterStepsAsWritten(creating: bool, field: nat, inputsMatch: bool): (steps: seq<EnterStep>)
    ensures steps != [] && (steps[|steps| - 1] == DeriveKey || steps == [ResetConfirmation])
  {
    if !creating then [VerifyHash, DeriveKey]
    else if field == 0 then [MoveToField(1), DeriveKey]
    else if field == 1 then [MoveToField(2), DeriveKey]
    else if !inputsMatch then [ResetConfirmation]
    else [StoreHash, DeriveKey]
  }

  /** Enter on the directory field of a new vault opens it without confirmation and without storing a hash. */
  lemma EnterOnDirectoryFieldOpensVault(inputsMatch: bool)
    ensures DeriveKey in EnterStepsAsWritten(true, 0, inputsMatch)
    ensures StoreHash !in EnterStepsAsWritten(true, 0, inputsMatch)
    ensures DeriveKey in EnterStepsAsWritten(true, 1, false)
  {
    assert EnterStepsAsWritten(true, 0, inputsMatch)[1] == DeriveKey;
    assert EnterStepsAsWritten(true, 1, false)[1] == DeriveKey;
  }

  /** Enter as the field comments describe it: the first two fields only move on. */
  function EnterSteps(creating: bool, field: nat, inputsMatch: bool): (steps: seq<EnterStep>)
    ensures steps != []
  {
    if !creating then [VerifyHash, DeriveKey]
    else if field == 0 then [MoveToField(1)]
    else if field == 1 then [MoveToField(2)]
    else if !inputsMatch then [ResetConfirmation]
    else [StoreHash, DeriveKey]
  }

  /**
   * A new vault is opened only from the confirmation field, only when both entries match,
   * and only after the hash is stored; an existing one only after the password is checked.
   */
  lemma EnterOpensOnlyAfterCheck(creating: bool, field: nat, inputsMatch: bool)
    ensures DeriveKey in EnterSteps(creating, field, inputsMatch) ==>
              if creating then field >= 2 && inputsMatch && EnterSteps(creating, field, inputsMatch)[0] == StoreHash
              else EnterSteps(creating, field, inputsMatch)[0] == VerifyHash
    ensures creating && field < 2 ==> EnterSteps(creating, field, inputsMatch) == [MoveToField(field + 1)]
  {
  }

  // ---------------------------------------------------------------------------
  // Field cycling
  // ---------------------------------------------------------------------------

  const MasterPasswordFields: nat := 3
  const PasswordEntryFields: nat := 2
  const SettingsFields: nat := 4

  /** Down: the next field, wrapping from the last to the first. */
  function CycleDown(field: nat, count: nat): (f: nat)
    requires count > 0
    ensures f < count
  {
    (field + 1) % count
  }

  /** Up: the previous field, wrapping from the first to the last. */
  function CycleUp(field: nat, count: nat): (f: nat)
    requires count > 0
    ensures field < count ==> f < count
  {
    if field > 0 then field - 1 else count - 1
  }

  /** Down from a field goes to the one after it, and from the last field to the first. */
  lemma CycleDownStep(field: nat, count: nat)
    requires field < count
    ensures CycleDown(field, count) == if field + 1 < count then field + 1 else 0
  {
    if field + 1 < count {
      assert (field + 1) % count == field + 1;
    } else {
      assert field + 1 == count;
      assert count % count == 0;
    }
  }

  /** Up undoes Down and Down undoes Up. */
  lemma CycleInverse(field: nat, count: nat)
    requires field < count
    ensures CycleUp(CycleDown(field, count), count) == field
    ensures CycleDown(CycleUp(field, count), count) == field
  {
    CycleDownStep(field, count);
    CycleDownStep(CycleUp(field, count), count);
  }

  /** `k` presses of Down. */
  function CycleDownTimes(field: nat, count: nat, k: nat): (f: nat)
    requires count > 0
  {
    if k == 0 then field else CycleDown(CycleDownTimes(field, count, k - 1), count)
  }

  /** `k` presses of Down (at most one round) move `k` fields on, wrapping past the last. */
  lemma {:induction false} CycleDownTimesWraps(field: nat, count: nat, k: nat)
    requires field < count && k <= count
    ensures CycleDownTimes(field, count, k) == if field + k < count then field + k else field + k - count
  {
    if k > 0 {
      CycleDownTimesWraps(field, count, k - 1);
      CycleDownStep(CycleDownTimes(field, count, k - 1), count);
    }
  }

  /** As many presses of Down as there are fields come back to the starting field. */
  lemma FullCycle(field: nat, count: nat)
    requires field < count
    ensures CycleDownTimes(field, count, count) == field
  {
    CycleDownTimesWraps(field, count, count);
  }

  // ---------------------------------------------------------------------------
  // The selection in the filtered list
  // ---------------------------------------------------------------------------

  function SaturatingSub(a: nat, b: nat): nat
  {
    if a >= b then a - b else 0
  }

  /** The selection is on an item, or at 0 when the list is empty. */
  predicate InRange(selected: nat, len: nat)
  {
    selected < len || selected == 0
  }

  /** Up on the main screen: one item back, never below the first. */
  function StepUp(selected: nat, len: nat): (s: nat)
    ensures s <= selected
    ensures InRange(selected, len) ==> InRange(s, len)
  {
    if len > 0 && selected > 0 then selected - 1 else selected
  }

  /** Down on the main screen: one item on, never past the last. */
  function StepDown(selected: nat, len: nat): (s: nat)
    ensures selected <= s
    ensures selected < len ==> s < len
    ensures InRange(selected, len) ==> InRange(s, len)
  {
    if len > 0 && selected < SaturatingSub(len, 1) then selected + 1 else selected
  }

  /** Up and Down are inverse away from the ends of the list. */
  lemma StepInverse(selected: nat, len: nat)
    ensures 0 < selected < len ==> StepDown(StepUp(selected, len), len) == selected
    ensures selected + 1 < len ==> StepUp(StepDown(selected, len), len) == selected
  {
  }

  /** After a search edit: a selection past the end moves to the last item (or 0). */
  function Clamp(selected: nat, len: nat): (s: nat)
    ensures InRange(s, len)
    ensures selected < len ==> s == selected
  {
    if selected >= len then SaturatingSub(len, 1) else selected
  }

  /** The display names of a listing, in order. */
  function Names(pairs: seq<(string, string)>): (names: seq<string>)
    ensures |names| == |pairs|
    ensures forall i :: 0 <= i < |pairs| ==> names[i] == pairs[i].1
  {
    if pairs == [] then [] else [pairs[0].1] + Names(pairs[1..])
  }

  // ---------------------------------------------------------------------------
  // Clipboard cleanup tasks
  // ---------------------------------------------------------------------------

  type TaskId = nat

  /** `handle.take()` then `abort()`: the held task, if any, joins the aborted ones. */
  function Aborting(handle: Option<TaskId>, aborted: seq<TaskId>): (r: seq<TaskId>)
    ensures handle.Some? ==> r == aborted + [handle.value]
    ensures handle.None? ==> r == aborted
  {
    if handle.Some? then aborted + [handle.value] else aborted
  }

  /**
   * At most one cleanup task can still clear the clipboard: every task ever scheduled was
   * aborted, except the one whose handle is held.
   */
  predicate OneCleanupLive(handle: Option<TaskId>, aborted: seq<TaskId>, scheduled: seq<TaskId>)
  {
    && (forall t :: t in scheduled && handle != Some(t) ==> t in aborted)
    && (handle.Some? ==> handle.value in scheduled && handle.value !in aborted)
    && (forall t :: t in aborted ==> t in scheduled)
  }

  /** Aborting the held task, then scheduling a new one, keeps a single task live. */
  lemma AbortThenSchedule(handle: Option<TaskId>, aborted: seq<TaskId>, scheduled: seq<TaskId>, t: TaskId)
    requires OneCleanupLive(handle, aborted, scheduled) && t !in scheduled
    ensures OneCleanupLive(None, Aborting(handle, aborted), scheduled)
    ensures OneCleanupLive(Some(t), Aborting(handle, aborted), scheduled + [t])
  {
  }

  // ---------------------------------------------------------------------------
  // The session state
  // ---------------------------------------------------------------------------

  datatype Screen =
    | MasterPassword
    | Main
    | Settings
    | PasswordEntry(isEdit: bool, filename: Option<string>)
    | PasswordGenerator(returnToEdit: bool, returnFilename: Option<string>)
    | Help
    | ThemeSelection
    | LanguageSelection

  /** The part of `TuiState` the session logic reads and writes. */
  class TuiState {
    var selectedIndex: nat
    var currentScreen: Screen
    var searchQuery: string
    var allItems: seq<string>
    var filteredItems: seq<string>
    var masterPasswordInput: string
    var masterPasswordConfirm: string
    var masterPasswordField: nat
    var isCreatingMasterPassword: bool
    var encryptionKey: Option<Bytes>
    var passwordEntryField: nat
    var nameToFilename: seq<(string, string)>
    var clipboardCleanupHandle: Option<TaskId>
    var clipboardText: Option<string>
    var clipboardTimeoutSeconds: nat
    var settingsField: nat
    var languageSelectionIndex: nat
    /** The configuration file of the vault directory. */
    var directoryConfig: DirectoryConfig
    /** The identifier the next spawned task gets. */
    var nextTaskId: TaskId
    ghost var abortedTasks: seq<TaskId>
    ghost var scheduledTasks: seq<TaskId>
    const i18n: I18n

    ghost predicate Valid()
      reads this
    {
      && masterPasswordField < MasterPasswordFields
      && passwordEntryField < PasswordEntryFields
      && settingsField < SettingsFields
      && OneCleanupLive(clipboardCleanupHandle, abortedTasks, scheduledTasks)
      && (forall t :: t in scheduledTasks ==> t < nextTaskId)
    }

    /**
     * The state `run_tui` starts in: the master password screen, creating a master
     * password exactly when the directory has none, in the configured language.
     */
    constructor(directoryConfig: DirectoryConfig, languageCode: string, clipboardTimeoutSeconds: nat)
      ensures Valid()
      ensures isCreatingMasterPassword <==> !HasMasterPassword(directoryConfig)
      ensures currentScreen == MasterPassword && encryptionKey == None
      ensures selectedIndex == 0 && filteredItems == [] && clipboardCleanupHandle == None
      ensures this.directoryConfig == directoryConfig
      ensures i18n.language == FromCode(languageCode) && i18n.Valid()
      ensures languageSelectionIndex == SelectionIndexOf(languageCode)
    {
      selectedIndex := 0;
      currentScreen := MasterPassword;
      searchQuery := [];
      allItems := [];
      filteredItems := [];
      masterPasswordInput := [];
      masterPasswordConfirm := [];
      masterPasswordField := 0;
      isCreatingMasterPassword := !HasMasterPassword(directoryConfig);
      encryptionKey := None;
      passwordEntryField := 0;
      nameToFilename := [];
      clipboardCleanupHandle := None;
      clipboardText := None;
      this.clipboardTimeoutSeconds := clipboardTimeoutSeconds;
      settingsField := 0;
      languageSelectionIndex := SelectionIndexOf(languageCode);
      this.directoryConfig := directoryConfig;
      nextTaskId := 0;
      abortedTasks := [];
      scheduledTasks := [];
      i18n := new I18n(FromCode(languageCode));
    }

    // ---- field cycling ----

    /** Up on the master password screen: only while creating, where there are three fields. */
    method MasterPasswordUp()
      requires Valid()
      modifies this`masterPasswordField
      ensures Valid()
      ensures masterPasswordField ==
                if isCreatingMasterPassword then CycleUp(old(masterPasswordField), MasterPasswordFields)
                else old(masterPasswordField)
    {
      if isCreatingMasterPassword {
        if masterPasswordField > 0 {
          masterPasswordField := masterPasswordField - 1;
        } else {
          masterPasswordField := 2;
        }
      }
    }

    /** Down on the master password screen. */
    method MasterPasswordDown()
      requires Valid()
      modifies this`masterPasswordField
      ensures Valid()
      ensures masterPasswordField ==
                if isCreatingMasterPassword then CycleDown(old(masterPasswordField), MasterPasswordFields)
                else old(masterPasswordField)
    {
      if isCreatingMasterPassword {
        masterPasswordField := (masterPasswordField + 1) % 3;
      }
    }

    /** Up on the password entry screen: name and password. */
    method PasswordEntryUp()
      requires Valid()
      modifies this`passwordEntryField
      ensures Valid() && passwordEntryField == CycleUp(old(passwordEntryField), PasswordEntryFields)
    {
      if passwordEntryField > 0 {
        passwordEntryField := passwordEntryField - 1;
      } else {
        passwordEntryField := 1;
      }
    }

    /** Down on the password entry screen. */
    method PasswordEntryDown()
      requires Valid()
      modifies this`passwordEntryField
      ensures Valid() && passwordEntryField == CycleDown(old(passwordEntryField), PasswordEntryFields)
    {
      passwordEntryField := (passwordEntryField + 1) % 2;
    }

    /** Up on the settings screen: directory, clipboard timeout, theme, language. */
    method SettingsUp()
      requires Valid()
      modifies this`settingsField
      ensures Valid() && settingsField == CycleUp(old(settingsField), SettingsFields)
    {
      if settingsField > 0 {
        settingsField := settingsField - 1;
      } else {
        settingsField := 3;
      }
    }

    /** Down on the settings screen. */
    method SettingsDown()
      requires Valid()
      modifies this`settingsField
      ensures Valid() && settingsField == CycleDown(old(settingsField), SettingsFields)
    {
      settingsField := (settingsField + 1) % 4;
    }

    // ---- the main screen's list ----

    /** Up on the main screen. */
    method SelectUp()
      requires Valid()
      modifies this`selectedIndex
      ensures Valid()
      ensures selectedIndex == StepUp(old(selectedIndex), |filteredItems|)
    {
      if filteredItems != [] && selectedIndex > 0 {
        selectedIndex := selectedIndex - 1;
      }
    }

    /** Down on the main screen. */
    method SelectDown()
      requires Valid()
      modifies this`selectedIndex
      ensures Valid()
      ensures selectedIndex == StepDown(old(selectedIndex), |filteredItems|)
    {
      if filteredItems != [] && selectedIndex < SaturatingSub(|filteredItems|, 1) {
        selectedIndex := selectedIndex + 1;
      }
    }

    /**
     * `filter_items`: with an empty query the whole list, in order. `ranked` stands for the
     * fuzzy matcher's items for a non-empty query, best score first: some of the items,
     * each at most as often as it is listed.
     */
    method FilterItems(ranked: seq<string>)
      requires Valid() && multiset(ranked) <= multiset(allItems)
      modifies this`filteredItems
      ensures Valid()
      ensures searchQuery == [] ==> filteredItems == allItems
      ensures searchQuery != [] ==> filteredItems == ranked
      ensures multiset(filteredItems) <= multiset(allItems)
    {
      if searchQuery == [] {
        filteredItems := allItems;
      } else {
        filteredItems := ranked;
      }
    }

    /** A typed character extends the query; the list is filtered again and the selection clamped. */
    method SearchInput(c: char, ranked: seq<string>)
      requires Valid() && multiset(ranked) <= multiset(allItems)
      modifies this`searchQuery, this`filteredItems, this`selectedIndex
      ensures Valid()
      ensures searchQuery == old(searchQuery) + [c]
      ensures filteredItems == ranked
      ensures selectedIndex == Clamp(old(selectedIndex), |filteredItems|)
      ensures InRange(selectedIndex, |filteredItems|)
    {
      searchQuery := searchQuery + [c];
      FilterItems(ranked);
      if selectedIndex >= |filteredItems| {
        selectedIndex := SaturatingSub(|filteredItems|, 1);
      }
    }

    /**
     * Backspace removes the query's last character, if any; an emptied query lists every
     * item again. The selection is clamped.
     */
    method SearchBackspace(ranked: seq<string>)
      requires Valid() && multiset(ranked) <= multiset(allItems)
      modifies this`searchQuery, this`filteredItems, this`selectedIndex
      ensures Valid()
      ensures old(searchQuery) == [] ==> searchQuery == [] && filteredItems == old(filteredItems)
                                         && selectedIndex == old(selectedIndex)
      ensures old(searchQuery) != [] ==> searchQuery == old(searchQuery)[..|old(searchQuery)| - 1]
      ensures old(searchQuery) != [] && searchQuery == [] ==> filteredItems == allItems
      ensures old(searchQuery) != [] && searchQuery != [] ==> filteredItems == ranked
      ensures old(searchQuery) != [] ==> selectedIndex == Clamp(old(selectedIndex), |filteredItems|)
      ensures old(searchQuery) != [] ==> InRange(selectedIndex, |filteredItems|)
    {
      if searchQuery != [] {
        searchQuery := searchQuery[..|searchQuery| - 1];
        FilterItems(ranked);
        if selectedIndex >= |filteredItems| {
          selectedIndex := SaturatingSub(|filteredItems|, 1);
        }
      }
    }

    /** Esc with a query: the query is cleared, every item listed and the first one selected. */
    method ClearSearch()
      requires Valid()
      modifies this`searchQuery, this`filteredItems, this`selectedIndex
      ensures Valid()
      ensures old(searchQuery) != [] ==> searchQuery == [] && filteredItems == allItems && selectedIndex == 0
      ensures old(searchQuery) == [] ==> searchQuery == [] && filteredItems == old(filteredItems)
                                         && selectedIndex == old(selectedIndex)
    {
      if searchQuery != [] {
        searchQuery := [];
        FilterItems([]);
        selectedIndex := 0;
      }
    }

    // ---- copying a secret ----

    /** Whether Ctrl+C finds a selected item, its file and an unlocked key. */
    predicate CopyApplies()
      reads this
    {
      && filteredItems != [] && selectedIndex < |filteredItems|
      && FirstMatch(nameToFilename, filteredItems[selectedIndex]).Some?
      && encryptionKey.Some?
    }

    /** `take()` the held cleanup task, if any, and abort it. */
    method AbortCleanup()
      requires Valid()
      modifies this`clipboardCleanupHandle, this`abortedTasks
      ensures Valid()
      ensures clipboardCleanupHandle == None
      ensures abortedTasks == Aborting(old(clipboardCleanupHandle), old(abortedTasks))
    {
      AbortThenSchedule(clipboardCleanupHandle, abortedTasks, scheduledTasks, nextTaskId);
      if clipboardCleanupHandle.Some? {
        abortedTasks := abortedTasks + [clipboardCleanupHandle.value];
        clipboardCleanupHandle := None;
      }
    }

    /** Spawn a new cleanup task and hold its handle; none may be held already. */
    method ScheduleCleanup()
      requires Valid() && clipboardCleanupHandle == None
      modifies this`clipboardCleanupHandle, this`scheduledTasks, this`nextTaskId
      ensures Valid()
      ensures clipboardCleanupHandle == Some(old(nextTaskId)) && old(nextTaskId) !in old(scheduledTasks)
    {
      AbortThenSchedule(None, abortedTasks, scheduledTasks, nextTaskId);
      scheduledTasks := scheduledTasks + [nextTaskId];
      clipboardCleanupHandle := Some(nextTaskId);
      nextTaskId := nextTaskId + 1;
    }

    /**
     * Ctrl+C on the main screen. The held cleanup task is aborted before the secret is
     * loaded; a new one is scheduled only after a successful copy and only for a positive
     * timeout. `clipboardAccepts` stands for opening the clipboard and setting its text.
     */
    method CopySelected(storage: PasswordStorage, clipboardAccepts: bool)
      requires Valid()
      modifies this`clipboardCleanupHandle, this`abortedTasks, this`scheduledTasks, this`nextTaskId, this`clipboardText
      ensures Valid()
      ensures !old(CopyApplies()) ==> clipboardCleanupHandle == old(clipboardCleanupHandle)
                                      && abortedTasks == old(abortedTasks) && clipboardText == old(clipboardText)
      ensures old(CopyApplies()) ==> abortedTasks == Aborting(old(clipboardCleanupHandle), old(abortedTasks))
      ensures old(CopyApplies()) ==>
                var secret := LoadPasswordOp(storage.fs.files, storage.passwordsDir,
                                             FirstMatch(nameToFilename, filteredItems[selectedIndex]).value,
                                             encryptionKey.value);
                && (clipboardText == if secret.Ok? && clipboardAccepts then Some(secret.value) else old(clipboardText))
                && (clipboardCleanupHandle.Some? <==> secret.Ok? && clipboardAccepts && clipboardTimeoutSeconds > 0)
      ensures clipboardCleanupHandle.Some? && clipboardCleanupHandle != old(clipboardCleanupHandle) ==>
                clipboardCleanupHandle.value !in old(scheduledTasks)
    {
      if !CopyApplies() {
        return;
      }
      var filename := FirstMatch(nameToFilename, filteredItems[selectedIndex]).value;
      AbortCleanup();
      var secret := storage.LoadPasswordFile(filename, encryptionKey.value);
      PlaceSecret(secret, clipboardAccepts);
    }

    /**
     * The loaded secret goes on the clipboard when it loaded and the clipboard accepts it,
     * and only then, for a positive timeout, is a cleanup task scheduled.
     */
    method PlaceSecret(secret: Result<string>, clipboardAccepts: bool)
      requires Valid() && clipboardCleanupHandle == None
      modifies this`clipboardText, this`clipboardCleanupHandle, this`scheduledTasks, this`nextTaskId
      ensures Valid()
      ensures clipboardText == if secret.Ok? && clipboardAccepts then Some(secret.value) else old(clipboardText)
      ensures clipboardCleanupHandle.Some? <==> secret.Ok? && clipboardAccepts && clipboardTimeoutSeconds > 0
      ensures clipboardCleanupHandle.Some? ==> clipboardCleanupHandle.value !in old(scheduledTasks)
    {
      if secret.Ok? && clipboardAccepts {
        clipboardText := Some(secret.value);
        if clipboardTimeoutSeconds > 0 {
          ScheduleCleanup();
        }
      }
    }

    // ---- provisioning and unlocking ----

    /**
     * The salt of the key: the stored one decoded, or, with none stored, the drawn one,
     * which is then stored without padding.
     */
    method TakeSalt(draw: KeySalt) returns (r: Result<Bytes>)
      requires Valid()
      modifies this`directoryConfig
      ensures Valid()
      ensures var s := SaltFor(old(directoryConfig), draw);
              && (s.Err? ==> r == Err(s.error) && directoryConfig == old(directoryConfig))
              && (s.Ok? ==> r == Ok(s.value.0) && directoryConfig == s.value.1)
    {
      match directoryConfig.encryptionKeySalt {
        case Some(s) =>
          r := DecodeSalt(s);
        case None =>
          directoryConfig := directoryConfig.(encryptionKeySalt := Some(Base64.EncodeNoPad(draw)));
          r := Ok(draw);
      }
    }

    /**
     * The vault's names, once unlocked: the listing on success; on failure the lists are
     * emptied and the name map kept.
     */
    method LoadItems(storage: PasswordStorage, key: Bytes)
      requires Valid()
      modifies this`nameToFilename, this`allItems, this`filteredItems
      ensures Valid()
      ensures var listing := ListOp(storage.fs.files, storage.passwordsDir, key);
              && (listing.Ok? ==> nameToFilename == listing.value && allItems == Names(listing.value)
                                  && filteredItems == allItems)
              && (listing.Err? ==> allItems == [] && filteredItems == [] && nameToFilename == old(nameToFilename))
    {
      var names := storage.ListDecryptedNames(key);
      if names.Ok? {
        nameToFilename := names.value;
        allItems := Names(names.value);
        filteredItems := allItems;
      } else {
        allItems := [];
        filteredItems := [];
      }
    }

    /**
     * The end of Enter, run on `config` with the typed `password`: an undecodable salt or a
     * failed derivation is returned with the key, the screen, the inputs and the lists
     * untouched; otherwise the
     * derived key is held, both inputs are cleared, the vault is listed (its lists emptied
     * when listing fails) and the main screen is shown.
     */
    /** The vault's lists are those of the previous state. */
    twostate predicate ListsKept()
      reads this
    {
      allItems == old(allItems) && filteredItems == old(filteredItems) && nameToFilename == old(nameToFilename)
    }

    /** Neither typed password nor the active field has changed. */
    twostate predicate InputsKept()
      reads this
    {
      && masterPasswordInput == old(masterPasswordInput) && masterPasswordConfirm == old(masterPasswordConfirm)
      && masterPasswordField == old(masterPasswordField)
    }

    twostate predicate UnlockedFrom(config: DirectoryConfig, password: string, storage: PasswordStorage,
                                    draw: KeySalt, deriveKey: (string, Bytes) -> Result<Bytes>, new r: Result<()>)
      reads this, storage, storage.fs
    {
      var s := SaltFor(config, draw);
      && masterPasswordField == old(masterPasswordField)
      && if s.Err? then
        && r == Err(s.error) && directoryConfig == config
        && encryptionKey == old(encryptionKey) && currentScreen == old(currentScreen)
        && InputsKept() && ListsKept()
      else
        var key := deriveKey(password, s.value.0);
        && directoryConfig == s.value.1
        && (key.Err? ==> && r == Err(key.error) && encryptionKey == old(encryptionKey)
                         && currentScreen == old(currentScreen) && InputsKept() && ListsKept())
        && (key.Ok? ==>
              var listing := ListOp(storage.fs.files, storage.passwordsDir, key.value);
              && r == Ok(()) && encryptionKey == Some(key.value) && currentScreen == Main
              && masterPasswordInput == [] && masterPasswordConfirm == []
              && (listing.Ok? ==> nameToFilename == listing.value && allItems == Names(listing.value)
                                  && filteredItems == allItems)
              && (listing.Err? ==> allItems == [] && filteredItems == [] && nameToFilename == old(nameToFilename)))
    }

    /**
     * The common end of Enter on the master password screen: take the salt, derive the key,
     * clear the typed passwords, list the vault and show the main screen. An undecodable
     * salt or a failed derivation ends the session with that error. `deriveKey` stands for
     * the Argon2id key derivation.
     */
    method Unlock(storage: PasswordStorage, draw: KeySalt, deriveKey: (string, Bytes) -> Result<Bytes>)
      returns (r: Result<()>)
      requires Valid()
      modifies this`directoryConfig, this`encryptionKey, this`masterPasswordInput, this`masterPasswordConfirm,
               this`nameToFilename, this`allItems, this`filteredItems, this`currentScreen
      ensures Valid()
      ensures UnlockedFrom(old(directoryConfig), old(masterPasswordInput), storage, draw, deriveKey, r)
    {
      var salt := TakeSalt(draw);
      if salt.Err? {
        return Err(salt.error);
      }
      var key := deriveKey(masterPasswordInput, salt.value);
      if key.Err? {
        return Err(key.error);
      }
      StoreKey(key.value);
      LoadItems(storage, key.value);
      r := Ok(());
    }

    /**
     * The derived key is kept, both typed passwords are cleared and the main screen is
     * the current one (the source switches screens after listing the vault; listing does
     * not read the screen, so the order does not show).
     */
    method StoreKey(key: Bytes)
      requires Valid()
      modifies this`encryptionKey, this`masterPasswordInput, this`masterPasswordConfirm, this`currentScreen
      ensures Valid()
      ensures encryptionKey == Some(key) && masterPasswordInput == [] && masterPasswordConfirm == []
      ensures currentScreen == Main
    {
      encryptionKey := Some(key);
      masterPasswordInput := [];
      masterPasswordConfirm := [];
      currentScreen := Main;
    }

    /** A new vault's hash is stored in the configuration, next to a salt kept or drawn. */
    method Provision(hashSalt: Crypto.HashSalt, draw: KeySalt)
      requires Valid()
      modifies this`directoryConfig
      ensures Valid()
      ensures directoryConfig == Provisioned(old(directoryConfig), Crypto.HashPassword(masterPasswordInput, hashSalt).value, draw)
    {
      var hash := Crypto.HashPassword(masterPasswordInput, hashSalt);
      directoryConfig := directoryConfig.(masterPasswordHash := Some(hash.value));
      if directoryConfig.encryptionKeySalt.None? {
        directoryConfig := directoryConfig.(encryptionKeySalt := Some(Base64.EncodeNoPad(draw)));
      }
    }

    /**
     * Enter on the master password screen, with the first two fields of a new vault only
     * moving on (see `EnterSteps`). From the confirmation field, entries that differ are
     * both cleared and the password field is active again; matching entries store the new
     * hash (keeping a stored salt) and unlock. For an existing vault a wrong password, a
     * malformed hash or a missing one clears the entry; the right one unlocks.
     */
    method SubmitMasterPassword(storage: PasswordStorage, hashSalt: Crypto.HashSalt, draw: KeySalt,
                                deriveKey: (string, Bytes) -> Result<Bytes>) returns (r: Result<()>)
      requires Valid()
      modifies this`masterPasswordField, this`masterPasswordInput, this`masterPasswordConfirm,
               this`directoryConfig, this`encryptionKey, this`nameToFilename, this`allItems,
               this`filteredItems, this`currentScreen
      ensures Valid()
      ensures var steps := EnterSteps(old(isCreatingMasterPassword), old(masterPasswordField),
                                      old(masterPasswordInput) == old(masterPasswordConfirm));
              && (steps[0].MoveToField? ==> masterPasswordField == steps[0].field && r == Ok(())
                                            && masterPasswordInput == old(masterPasswordInput)
                                            && masterPasswordConfirm == old(masterPasswordConfirm)
                                            && directoryConfig == old(directoryConfig)
                                            && encryptionKey == old(encryptionKey)
                                            && currentScreen == old(currentScreen) && ListsKept())
              && (steps[0].ResetConfirmation? ==> masterPasswordInput == [] && masterPasswordConfirm == []
                                                  && masterPasswordField == 1 && r == Ok(())
                                                  && encryptionKey == old(encryptionKey)
                                                  && directoryConfig == old(directoryConfig)
                                                  && currentScreen == old(currentScreen) && ListsKept())
      ensures old(isCreatingMasterPassword) && old(masterPasswordField) >= 2
              && old(masterPasswordInput) == old(masterPasswordConfirm) ==>
                var hash := Crypto.HashPassword(old(masterPasswordInput), hashSalt).value;
                UnlockedFrom(Provisioned(old(directoryConfig), hash, draw), old(masterPasswordInput),
                             storage, draw, deriveKey, r)
      ensures !old(isCreatingMasterPassword) ==>
                var stored := old(directoryConfig).masterPasswordHash;
                if stored.None? || Crypto.VerifyPassword(old(masterPasswordInput), stored.value) != Ok(true) then
                  && masterPasswordInput == [] && r == Ok(()) && encryptionKey == old(encryptionKey)
                  && masterPasswordConfirm == old(masterPasswordConfirm)
                  && masterPasswordField == old(masterPasswordField)
                  && directoryConfig == old(directoryConfig) && currentScreen == old(currentScreen) && ListsKept()
                else
                  UnlockedFrom(old(directoryConfig), old(masterPasswordInput), storage, draw, deriveKey, r)
      ensures encryptionKey != old(encryptionKey) ==>
                DeriveKey in EnterSteps(old(isCreatingMasterPassword), old(masterPasswordField),
                                        old(masterPasswordInput) == old(masterPasswordConfirm))
    {
      if isCreatingMasterPassword {
        if masterPasswordField == 0 {
          masterPasswordField := 1;
          r := Ok(());
        } else if masterPasswordField == 1 {
          masterPasswordField := 2;
          r := Ok(());
        } else {
          r := ConfirmNewPassword(storage, hashSalt, draw, deriveKey);
        }
      } else {
        r := CheckPassword(storage, draw, deriveKey);
      }
    }

    /**
     * Enter on the confirmation field of a new vault: entries that differ are both cleared
     * and the password field is active again; matching ones store the hash and unlock.
     */
    method ConfirmNewPassword(storage: PasswordStorage, hashSalt: Crypto.HashSalt, draw: KeySalt,
                              deriveKey: (string, Bytes) -> Result<Bytes>) returns (r: Result<()>)
      requires Valid()
      modifies this`masterPasswordField, this`masterPasswordInput, this`masterPasswordConfirm,
               this`directoryConfig, this`encryptionKey, this`nameToFilename, this`allItems,
               this`filteredItems, this`currentScreen
      ensures Valid()
      ensures old(masterPasswordInput) != old(masterPasswordConfirm) ==>
                && masterPasswordInput == [] && masterPasswordConfirm == [] && masterPasswordField == 1
                && r == Ok(()) && encryptionKey == old(encryptionKey) && currentScreen == old(currentScreen)
                && directoryConfig == old(directoryConfig) && ListsKept()
      ensures old(masterPasswordInput) == old(masterPasswordConfirm) ==>
                var hash := Crypto.HashPassword(old(masterPasswordInput), hashSalt).value;
                && directoryConfig.masterPasswordHash == Some(hash)
                && UnlockedFrom(Provisioned(old(directoryConfig), hash, draw), old(masterPasswordInput),
                                storage, draw, deriveKey, r)
    {
      if masterPasswordInput != masterPasswordConfirm {
        masterPasswordInput := [];
        masterPasswordConfirm := [];
        masterPasswordField := 1;
        return Ok(());
      }
      r := ProvisionAndUnlock(storage, hashSalt, draw, deriveKey);
    }

    /** Matching entries of a new vault: the hash is stored, then the vault is unlocked. */
    method ProvisionAndUnlock(storage: PasswordStorage, hashSalt: Crypto.HashSalt, draw: KeySalt,
                              deriveKey: (string, Bytes) -> Result<Bytes>) returns (r: Result<()>)
      requires Valid()
      modifies this`masterPasswordInput, this`masterPasswordConfirm, this`directoryConfig, this`encryptionKey,
               this`nameToFilename, this`allItems, this`filteredItems, this`currentScreen
      ensures Valid()
      ensures var hash := Crypto.HashPassword(old(masterPasswordInput), hashSalt).value;
              && directoryConfig.masterPasswordHash == Some(hash)
              && UnlockedFrom(Provisioned(old(directoryConfig), hash, draw), old(masterPasswordInput),
                              storage, draw, deriveKey, r)
    {
      Provision(hashSalt, draw);
      r := Unlock(storage, draw, deriveKey);
    }

    /**
     * Enter for an existing vault: a missing or malformed stored hash, or a wrong password,
     * clears the entry; the right password unlocks.
     */
    method CheckPassword(storage: PasswordStorage, draw: KeySalt, deriveKey: (string, Bytes) -> Result<Bytes>)
      returns (r: Result<()>)
      requires Valid()
      modifies this`masterPasswordInput, this`masterPasswordConfirm, this`directoryConfig, this`encryptionKey,
               this`nameToFilename, this`allItems, this`filteredItems, this`currentScreen
      ensures Valid()
      ensures var stored := old(directoryConfig).masterPasswordHash;
              if stored.None? || Crypto.VerifyPassword(old(masterPasswordInput), stored.value) != Ok(true) then
                && masterPasswordInput == [] && r == Ok(()) && encryptionKey == old(encryptionKey)
                && masterPasswordConfirm == old(masterPasswordConfirm) && directoryConfig == old(directoryConfig)
                && currentScreen == old(currentScreen) && ListsKept()
              else
                UnlockedFrom(old(directoryConfig), old(masterPasswordInput), storage, draw, deriveKey, r)
    {
      match directoryConfig.masterPasswordHash {
        case None =>
          masterPasswordInput := [];
          return Ok(());
        case Some(stored) =>
          var verified := Crypto.VerifyPassword(masterPasswordInput, stored);
          if verified != Ok(true) {
            masterPasswordInput := [];
            return Ok(());
          }
      }
      r := Unlock(storage, draw, deriveKey);
    }
  }
}
