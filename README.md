# AutoTrash, modelled in Dafny

AutoTrash is a server plugin that deletes unwanted items from a player's
inventory. A player keeps named *profiles* (lists of exact item ids). A
configuration page edits them, and an inventory-change system empties every
slot whose new contents match a trash rule. It then counts the removed items
per id, for a notification.

This project models the plugin's core and proves what it promises:

- **ProfileRecord** (`profile_record.dfy`): the per-player profile store as
  values. It covers:
  - self-healing (`ensureProfiles`) and the schema migration from the legacy
    single list (`runMigrations`, `migrateV0ToV1`);
  - create / rename / delete / activate with their result codes;
  - editing the active profile's exact-item list.

  Lemmas show that every operation keeps the store healthy: unique names, at
  least one profile, an active name that exists, data version at least 1. Any
  sequence of operations on a migrated store with at most 50 profiles keeps
  between 1 and 50 profiles.
- **ProfileStore** (`profile_store.dfy`): the same store as the mutable
  `AutoTrashPlayerSettings` and `AutoTrashProfile` objects. Each method is
  proved to move the object exactly as the matching ProfileRecord function
  does.
- **TrashSystem** (`trash_system.dfy`): the transaction matcher. The
  transaction-tree walk (slot, item-stack slot, move and list transactions)
  collects trash slots, per-id totals and first samples. It is proved equal
  to a per-slot check applied in depth-first order. A slot is recorded exactly
  when the conditions of the shared slot check hold. The returned count is the
  sum of the totals, and slots are cleared only when that count is positive.
- **Inventory** (`inventory.dfy`): the item stacks, transactions and container
  clearing that the matcher and the page use.
- **FlatSettings** (`flat_settings.dfy`): the flat per-player settings that
  the matcher reads. Defensive array copies are expressed with `fresh`.
- **ConfigPage** (`config_page.dfy`): the page's data-event handler. It
  covers:
  - its guards and the dispatch on the action name;
  - the list helper `updateArray`, which returns the same array when nothing
    changes;
  - the mapping from profile result codes to "changed";
  - the inventory sweep that clears every slot a rule matches.
- **Plugin** (`plugin.dfy`): rule defaults and the in-place trimming of the
  configured rule lists.
- **JavaStrings**, **LinkedMaps**, **Wrappers**: Java's `isBlank` and `trim`,
  insertion-ordered maps (`LinkedHashMap` as a sequence of pairs), and
  `Option`.

A Java `null` string is modelled as `""`. Every null check in the source is
paired with `isBlank`, so the two behave alike. A nullable list or array is
an `Option` or an `array?`.

Some behaviours of the code a reader may not expect:

- `activateProfile` answers only a boolean (false for an unknown or blank
  name). Unlike the other profile operations it has no result code.
- `removeTrashItems` empties the recorded slots only when the summed count is
  positive. A slot whose item appeared where the before-stack was null is
  recorded but registers nothing, so on its own it is never cleared
  (`TrashSystem.RecordedWithoutBeforeIsNotCleared`).
- `runMigrations` moves any version below 1, including a negative one,
  straight to 1.
- The matcher reads the flat settings' exact list (`getExactItems` of the
  root-package `AutoTrashPlayerSettings`), not the active profile.
- Renaming a profile re-inserts it at the end of the insertion order.
- The version can go down: creating, renaming or deleting a profile stamps
  version 1 without comparing, so a record written by a newer version is
  stamped back to 1 (`ProfileRecord.CreateStampsVersionDown`).
- The 50-profile limit is checked only when a profile is created. The
  migration adds "Default" unchecked, so a version-0 record holding 50 other
  profiles ends up with 51 (`ProfileRecord.MigrationCanPassTheLimit`).

## Model

| member | source | states |
|---|---|---|
| ProfileRecord.WithActiveItems | src/main/java/me/clutchy/hytale/autotrash/settings/AutoTrashPlayerSettings.java:547-549 | Replacing the active profile's list keeps the record healthy. |
| ProfileRecord.WithActiveItemsEffect | src/main/java/me/clutchy/hytale/autotrash/settings/AutoTrashPlayerSettings.java:547-549 | Only the active profile's list changes; the names, their order and every other list stay. |
| ProfileRecord.MigrateV0ToV1 | src/main/java/me/clutchy/hytale/autotrash/settings/AutoTrashPlayerSettings.java:443-456 | The v0-to-v1 step keeps the profile names unique. |
| ProfileRecord.MigrationEffect | src/main/java/me/clutchy/hytale/autotrash/settings/AutoTrashPlayerSettings.java:443-456 | After the v0-to-v1 step, "Default" exists, appended only when missing. It holds the legacy list when that was non-empty, else its old list. Every other profile, the version and the flags are untouched. The legacy list is empty, and a blank active name becomes "Default". |
| ProfileRecord.MigrationPuts | src/main/java/me/clutchy/hytale/autotrash/settings/AutoTrashPlayerSettings.java:444-451 | The source's two puts (create "Default" empty, then overwrite it with a non-empty legacy list) equal the single put of the step. |
| ProfileRecord.RunMigrations | src/main/java/me/clutchy/hytale/autotrash/settings/AutoTrashPlayerSettings.java:423-437 | The version ends at 1 when it was below 1 and is kept otherwise; names stay unique. |
| ProfileRecord.MigrationsForwardOnly | src/main/java/me/clutchy/hytale/autotrash/settings/AutoTrashPlayerSettings.java:423-437 | Migration never lowers the version, always reaches at least 1, and a second run is a no-op. |
| ProfileRecord.EnsureProfiles | src/main/java/me/clutchy/hytale/autotrash/settings/AutoTrashPlayerSettings.java:407-418 | After self-healing the record is healthy: unique names, at least one profile, an active name that is a key, version at least 1. |
| ProfileRecord.EnsureProfilesEffect | src/main/java/me/clutchy/hytale/autotrash/settings/AutoTrashPlayerSettings.java:407-418 | An empty map gets one empty "Default". A non-blank active name that is a key is kept, any other becomes the first key in insertion order. Nothing else changes beyond the migration. |
| ProfileRecord.EnsureKeepsHealthy | src/main/java/me/clutchy/hytale/autotrash/settings/AutoTrashPlayerSettings.java:407-418 | A healthy record with a non-blank active name is left unchanged. |
| ProfileRecord.EnsureIdempotent | src/main/java/me/clutchy/hytale/autotrash/settings/AutoTrashPlayerSettings.java:407-418 | Self-healing twice equals self-healing once. |
| ProfileRecord.FreshGetsDefaultProfile | src/main/java/me/clutchy/hytale/autotrash/settings/AutoTrashPlayerSettings.java:53-58 | The first read of a fresh object yields one empty "Default" profile, active, at version 1, with both flags on. |
| ProfileRecord.LegacyListMigrates | src/main/java/me/clutchy/hytale/autotrash/settings/AutoTrashPlayerSettings.java:443-456 | A version-0 record with only a non-empty legacy list becomes a single active "Default" profile holding that list, at version 1. |
| ProfileRecord.MigrationCanPassTheLimit | src/main/java/me/clutchy/hytale/autotrash/settings/AutoTrashPlayerSettings.java:443-448 | The 50-profile cap is not applied by the migration: a version-0 record with 50 profiles and no "Default" heals to 51. |
| ProfileRecord.CreateStampsVersionDown | src/main/java/me/clutchy/hytale/autotrash/settings/AutoTrashPlayerSettings.java:162-166 | A successful create stamps version 1 without comparing: a record at version 2 comes back at version 1. |
| ProfileRecord.CreateProfile | src/main/java/me/clutchy/hytale/autotrash/settings/AutoTrashPlayerSettings.java:147-167 | Every outcome of createProfile leaves a healthy record. |
| ProfileRecord.WithNewProfile | src/main/java/me/clutchy/hytale/autotrash/settings/AutoTrashPlayerSettings.java:162-166 | Putting the new profile, making it active and stamping version 1 leaves a healthy record. |
| ProfileRecord.CreateOutcome | src/main/java/me/clutchy/hytale/autotrash/settings/AutoTrashPlayerSettings.java:147-167 | Each outcome holds exactly when its condition does, checked in order: NAME_EMPTY (blank or trim-empty), NAME_TAKEN, LIMIT_REACHED (50 or more). A failure leaves the store only self-healed. A success appends the trimmed name with an empty list, or the active list when duplicating, makes it active, sets version 1, and answers DUPLICATED or CREATED accordingly. |
| ProfileRecord.RenameProfile | src/main/java/me/clutchy/hytale/autotrash/settings/AutoTrashPlayerSettings.java:177-210 | Every outcome of renameProfile leaves a healthy record. |
| ProfileRecord.RenameOutcome | src/main/java/me/clutchy/hytale/autotrash/settings/AutoTrashPlayerSettings.java:177-210 | Each of NOT_FOUND, NAME_EMPTY and NAME_TAKEN holds exactly when its check fails, in source order, and leaves the store only self-healed. A rename to the same trimmed name is RENAMED without change. A real rename is the move below. |
| ProfileRecord.RenameChecksPassed | src/main/java/me/clutchy/hytale/autotrash/settings/AutoTrashPlayerSettings.java:197-209 | Once the name checks pass, the rename is NAME_TAKEN exactly for a different, existing new name; otherwise it is RENAMED. |
| ProfileRecord.MoveProfile | src/main/java/me/clutchy/hytale/autotrash/settings/AutoTrashPlayerSettings.java:203-209 | A real rename leaves a healthy record. |
| ProfileRecord.MoveProfileEffect | src/main/java/me/clutchy/hytale/autotrash/settings/AutoTrashPlayerSettings.java:203-209 | A real rename keeps the profile count. It puts the renamed entry, with its items, last, drops the old name and keeps every other profile with its items and in its insertion order. The active pointer follows only if it named the old profile; version is 1. |
| ProfileRecord.DeleteProfile | src/main/java/me/clutchy/hytale/autotrash/settings/AutoTrashPlayerSettings.java:219-237 | Every outcome of deleteProfile leaves a healthy record. |
| ProfileRecord.RemoveProfile | src/main/java/me/clutchy/hytale/autotrash/settings/AutoTrashPlayerSettings.java:231-236 | Removing a present profile while another remains leaves a healthy record. |
| ProfileRecord.DeleteOutcome | src/main/java/me/clutchy/hytale/autotrash/settings/AutoTrashPlayerSettings.java:219-237 | NOT_FOUND exactly for a blank or unknown (trimmed) name. LAST_PROFILE exactly for the sole profile. Both leave the store only self-healed. DELETED removes the entry (one fewer profile), and the active pointer becomes the first remaining name exactly when it named the deleted one. |
| ProfileRecord.DeleteSoleProfile | src/main/java/me/clutchy/hytale/autotrash/settings/AutoTrashPlayerSettings.java:228-230 | Deleting the only profile answers LAST_PROFILE and leaves the record unchanged. |
| ProfileRecord.DeleteRetargetsOnlyActive | src/main/java/me/clutchy/hytale/autotrash/settings/AutoTrashPlayerSettings.java:231-234 | A successful delete moves the active pointer exactly when it named the deleted profile. |
| ProfileRecord.ActivateProfile | src/main/java/me/clutchy/hytale/autotrash/settings/AutoTrashPlayerSettings.java:106-116 | Answers true exactly for a non-blank name that is a key (untrimmed) and then makes it active; otherwise the store is only self-healed. |
| ProfileRecord.Without | src/main/java/me/clutchy/hytale/autotrash/settings/AutoTrashPlayerSettings.java:378-393 | The list with every entry equal to the id dropped: the id is absent, every other entry is kept, and the length drops exactly when the id was present. |
| ProfileRecord.WithoutAppend | src/main/java/me/clutchy/hytale/autotrash/settings/AutoTrashPlayerSettings.java:382-388 | Dropping distributes over concatenation, so the kept entries stay in their order. |
| ProfileRecord.WithoutCounts | src/main/java/me/clutchy/hytale/autotrash/settings/AutoTrashPlayerSettings.java:378-393 | Every other entry keeps its number of occurrences. |
| ProfileRecord.AddExactItem | src/main/java/me/clutchy/hytale/autotrash/settings/AutoTrashPlayerSettings.java:358-370 | Answers false and changes nothing but self-healing when the id is in the active list. Otherwise the id is appended to the active list and the answer is true. The active name, the key order, every other profile, the version and the flags stay as self-healing left them. |
| ProfileRecord.RemoveExactItem | src/main/java/me/clutchy/hytale/autotrash/settings/AutoTrashPlayerSettings.java:378-393 | Answers whether the id was in the active list. The active list becomes the list without every copy of the id, and nothing changes when there was none. The active name, the key order, every other profile, the version and the flags stay as self-healing left them. |
| ProfileRecord.AddThenRemove | src/main/java/me/clutchy/hytale/autotrash/settings/AutoTrashPlayerSettings.java:358-393 | Adding an absent id and then removing it restores the record. |
| ProfileRecord.ApplyKeepsCount | src/main/java/me/clutchy/hytale/autotrash/settings/AutoTrashPlayerSettings.java:159-160 | Any one profile or item operation keeps a migrated store within 1 to 50 profiles. |
| ProfileRecord.CountAfterRename | src/main/java/me/clutchy/hytale/autotrash/settings/AutoTrashPlayerSettings.java:203-204 | A rename keeps a migrated store within 1 to 50 profiles. |
| ProfileRecord.CountAfterItemEdit | src/main/java/me/clutchy/hytale/autotrash/settings/AutoTrashPlayerSettings.java:358-393 | An item edit keeps a migrated store within 1 to 50 profiles. |
| ProfileRecord.CountStaysInRange | src/main/java/me/clutchy/hytale/autotrash/settings/AutoTrashPlayerSettings.java:159-160 | Any non-empty sequence of operations on a migrated store with at most 50 profiles keeps the count between 1 and 50. |
| ProfileStore.Profile.constructor | src/main/java/me/clutchy/hytale/autotrash/settings/AutoTrashPlayerSettings.java:521-522 | A new profile has no items. |
| ProfileStore.Profile.WithItems | src/main/java/me/clutchy/hytale/autotrash/settings/AutoTrashPlayerSettings.java:529-531 | The list constructor stores the given list, or an empty one for null. |
| ProfileStore.Profile.SetExactItems | src/main/java/me/clutchy/hytale/autotrash/settings/AutoTrashPlayerSettings.java:547-549 | Stores the given list, or an empty one for null. |
| ProfileStore.Profile.Copy | src/main/java/me/clutchy/hytale/autotrash/settings/AutoTrashPlayerSettings.java:557-561 | A fresh profile with the same items. |
| ProfileStore.CopiedProfiles | src/main/java/me/clutchy/hytale/autotrash/settings/AutoTrashPlayerSettings.java:269-273 | The copied map has the same names in the same order, each null profile replaced by an empty one. |
| ProfileStore.CopyEntries | src/main/java/me/clutchy/hytale/autotrash/settings/AutoTrashPlayerSettings.java:269-273 | The copy loop's puts build exactly the copied map. |
| ProfileStore.PlayerSettings.constructor | src/main/java/me/clutchy/hytale/autotrash/settings/AutoTrashPlayerSettings.java:53-58 | The field defaults: version 0, no profiles, active name "Default", both flags on, no legacy items. |
| ProfileStore.PlayerSettings.MigrateV0ToV1 | src/main/java/me/clutchy/hytale/autotrash/settings/AutoTrashPlayerSettings.java:443-456 | The object moves as ProfileRecord.MigrateV0ToV1 says. |
| ProfileStore.PlayerSettings.RunMigrations | src/main/java/me/clutchy/hytale/autotrash/settings/AutoTrashPlayerSettings.java:423-438 | The version-stepping loop moves the object as ProfileRecord.RunMigrations says. |
| ProfileStore.PlayerSettings.EnsureProfiles | src/main/java/me/clutchy/hytale/autotrash/settings/AutoTrashPlayerSettings.java:407-418 | The object moves as ProfileRecord.EnsureProfiles says and is healthy afterwards. |
| ProfileStore.PlayerSettings.GetActiveProfile | src/main/java/me/clutchy/hytale/autotrash/settings/AutoTrashPlayerSettings.java:84-87 | Self-heals, then returns the active profile's list. |
| ProfileStore.PlayerSettings.GetActiveProfileName | src/main/java/me/clutchy/hytale/autotrash/settings/AutoTrashPlayerSettings.java:95-98 | Self-heals, then returns a name that is a key. |
| ProfileStore.PlayerSettings.ActivateProfile | src/main/java/me/clutchy/hytale/autotrash/settings/AutoTrashPlayerSettings.java:106-116 | The object and the answer are those of ProfileRecord.ActivateProfile. |
| ProfileStore.PlayerSettings.GetProfileNames | src/main/java/me/clutchy/hytale/autotrash/settings/AutoTrashPlayerSettings.java:124-127 | Self-heals, then returns the names in insertion order; the list is non-empty and holds the active name. |
| ProfileStore.PlayerSettings.GetProfileCount | src/main/java/me/clutchy/hytale/autotrash/settings/AutoTrashPlayerSettings.java:244-247 | Self-heals, then returns the number of profiles, at least 1. |
| ProfileStore.PlayerSettings.IsProfileLimitReached | src/main/java/me/clutchy/hytale/autotrash/settings/AutoTrashPlayerSettings.java:254-257 | Self-heals, then answers whether there are 50 or more profiles. |
| ProfileStore.PlayerSettings.CreateProfile | src/main/java/me/clutchy/hytale/autotrash/settings/AutoTrashPlayerSettings.java:136-167 | The object and the outcome are those of ProfileRecord.CreateProfile. The one-argument overload is duplicate = false. |
| ProfileStore.PlayerSettings.AddProfile | src/main/java/me/clutchy/hytale/autotrash/settings/AutoTrashPlayerSettings.java:162-166 | The object moves as ProfileRecord.WithNewProfile says. |
| ProfileStore.PlayerSettings.RenameProfile | src/main/java/me/clutchy/hytale/autotrash/settings/AutoTrashPlayerSettings.java:177-210 | The object and the outcome are those of ProfileRecord.RenameProfile. |
| ProfileStore.PlayerSettings.MoveProfile | src/main/java/me/clutchy/hytale/autotrash/settings/AutoTrashPlayerSettings.java:203-209 | The remove-then-put moves the object as ProfileRecord.MoveProfile says. |
| ProfileStore.PlayerSettings.DeleteProfile | src/main/java/me/clutchy/hytale/autotrash/settings/AutoTrashPlayerSettings.java:219-237 | The object and the outcome are those of ProfileRecord.DeleteProfile. |
| ProfileStore.PlayerSettings.RemoveEntry | src/main/java/me/clutchy/hytale/autotrash/settings/AutoTrashPlayerSettings.java:231-236 | The object moves as ProfileRecord.RemoveProfile says. |
| ProfileStore.PlayerSettings.GetProfiles | src/main/java/me/clutchy/hytale/autotrash/settings/AutoTrashPlayerSettings.java:283-286 | Self-heals, then returns the map, which is non-empty and holds the active name. |
| ProfileStore.PlayerSettings.SetProfiles | src/main/java/me/clutchy/hytale/autotrash/settings/AutoTrashPlayerSettings.java:264-275 | A null map becomes empty; otherwise the stored map is ProfileStore.CopiedProfiles of the given one. Nothing else changes. |
| ProfileStore.PlayerSettings.SetDataVersion | src/main/java/me/clutchy/hytale/autotrash/settings/AutoTrashPlayerSettings.java:293-295 | Only the version changes. |
| ProfileStore.PlayerSettings.GetDataVersion | src/main/java/me/clutchy/hytale/autotrash/settings/AutoTrashPlayerSettings.java:302-305 | Migrates, then returns the version, at least 1. |
| ProfileStore.PlayerSettings.SetActiveProfileName | src/main/java/me/clutchy/hytale/autotrash/settings/AutoTrashPlayerSettings.java:312-314 | Only the active name changes, with no check. |
| ProfileStore.PlayerSettings.Copy | src/main/java/me/clutchy/hytale/autotrash/settings/AutoTrashPlayerSettings.java:464-472 | A fresh object with the same version, active name, flags and profiles, and no legacy items; nothing is self-healed. |
| ProfileStore.PlayerSettings.Clone | src/main/java/me/clutchy/hytale/autotrash/settings/AutoTrashPlayerSettings.java:477-479 | The same as Copy. |
| ProfileStore.PlayerSettings.SetEnabled | src/main/java/me/clutchy/hytale/autotrash/settings/AutoTrashPlayerSettings.java:330-332 | Only the enabled flag changes. |
| ProfileStore.PlayerSettings.SetNotify | src/main/java/me/clutchy/hytale/autotrash/settings/AutoTrashPlayerSettings.java:348-350 | Only the notify flag changes. |
| ProfileStore.PlayerSettings.SetLegacyExactItems | src/main/java/me/clutchy/hytale/autotrash/settings/AutoTrashPlayerSettings.java:400-402 | Only the legacy list changes, to the given list or an empty one for null. |
| ProfileStore.PlayerSettings.SetActiveExactItems | src/main/java/me/clutchy/hytale/autotrash/settings/AutoTrashPlayerSettings.java:547-549 | A write through the profile getActiveProfile returned replaces the active entry's list (ProfileRecord.WithActiveItems). |
| ProfileStore.PlayerSettings.AddExactItem | src/main/java/me/clutchy/hytale/autotrash/settings/AutoTrashPlayerSettings.java:358-370 | The scan-then-append loop gives the object and answer of ProfileRecord.AddExactItem. |
| ProfileStore.PlayerSettings.RemoveExactItem | src/main/java/me/clutchy/hytale/autotrash/settings/AutoTrashPlayerSettings.java:378-393 | The copy loop gives the object and answer of ProfileRecord.RemoveExactItem. |
| JavaStrings.IsWhitespace | src/main/java/me/clutchy/hytale/autotrash/settings/AutoTrashPlayerSettings.java:149 | Character.isWhitespace: the ASCII controls 9-13 and 28-31, the space, and the Unicode separators other than the non-breaking spaces. |
| JavaStrings.IsBlank | src/main/java/me/clutchy/hytale/autotrash/settings/AutoTrashPlayerSettings.java:149 | String.isBlank: every character is whitespace; BlankAndTrimDiffer shows it differs from trimming to empty. |
| JavaStrings.TrimStart | src/main/java/me/clutchy/hytale/autotrash/settings/AutoTrashPlayerSettings.java:152 | Drops exactly the leading characters at or below U+0020. |
| JavaStrings.TrimEnd | src/main/java/me/clutchy/hytale/autotrash/settings/AutoTrashPlayerSettings.java:152 | Drops exactly the trailing characters at or below U+0020. |
| JavaStrings.Trim | src/main/java/me/clutchy/hytale/autotrash/settings/AutoTrashPlayerSettings.java:152 | The result is a slice of the input with only trimmable characters outside it and none at either end. |
| JavaStrings.TrimEmptyIff | src/main/java/me/clutchy/hytale/autotrash/settings/AutoTrashPlayerSettings.java:152-155 | A name trims to empty exactly when every character is at or below U+0020. |
| JavaStrings.TrimIdempotent | src/main/java/me/clutchy/hytale/autotrash/settings/AutoTrashPlayerSettings.java:152 | Trimming a trimmed name changes nothing. |
| JavaStrings.BlankAndTrimDiffer | src/main/java/me/clutchy/hytale/autotrash/settings/AutoTrashPlayerSettings.java:149-155 | The blank test and the trim-empty test disagree both ways (NUL, em space), so createProfile needs both checks. |
| TrashSystem.VisitSlot | src/main/java/me/clutchy/hytale/autotrash/AutoTrashSystem.java:205-225 | A removal, an out-of-range slot or a non-matching after-stack contributes nothing. Otherwise the slot is recorded. A registration is made exactly when a before-stack is present and the delta is positive, and it carries the id, the delta and the after-stack. |
| TrashSystem.VisitLeaf | src/main/java/me/clutchy/hytale/autotrash/AutoTrashSystem.java:160-189 | One slot transaction records at most one slot, and registers only when it records. |
| TrashSystem.Walk | src/main/java/me/clutchy/hytale/autotrash/AutoTrashSystem.java:110-147 | The dispatch over transaction kinds. Its meaning is fixed by WalkIsPerLeaf, RecordedSlotIff and WalkRegistersOnlyRecorded. |
| TrashSystem.WalkList | src/main/java/me/clutchy/hytale/autotrash/AutoTrashSystem.java:239-247 | The walk of a list of transactions in list order, as WalkListIsPerLeaf states. |
| TrashSystem.WalkRegistersOnlyRecorded | src/main/java/me/clutchy/hytale/autotrash/AutoTrashSystem.java:205-225 | A walk records at most one slot per reached slot transaction, and registers no more removals than it records slots. |
| TrashSystem.Delta | src/main/java/me/clutchy/hytale/autotrash/AutoTrashSystem.java:283-284 | The delta never exceeds the after-quantity, and equals it exactly when the before-stack is empty. |
| TrashSystem.Matches | src/main/java/me/clutchy/hytale/autotrash/AutoTrashSystem.java:256-269 | The rule test; TrashSystem.MatchesRule's loop is proved to compute it. |
| TrashSystem.Increment | src/main/java/me/clutchy/hytale/autotrash/AutoTrashSystem.java:289 | The total update. IncrementIsPut proves it is put(id, getOrDefault(id, 0) + delta); IncrementGet and IncrementSum give its effect. |
| TrashSystem.AddSamples | src/main/java/me/clutchy/hytale/autotrash/AutoTrashSystem.java:290 | The samples after registering in order; SamplesFirstSeen proves each id keeps its first after-stack. |
| TrashSystem.TrashRemoved | src/main/java/me/clutchy/hytale/autotrash/AutoTrashSystem.java:82-97 | The state after removeTrashItems, tying the report and the container to the walk; TrashSystem.RemoveTrashItems ensures it. |
| TrashSystem.WalkIsPerLeaf | src/main/java/me/clutchy/hytale/autotrash/AutoTrashSystem.java:110-147 | The tree walk equals the slot check of each reached slot transaction in depth-first order: a move's removal before its addition, list children in order. |
| TrashSystem.WalkMoveIsPerLeaf | src/main/java/me/clutchy/hytale/autotrash/AutoTrashSystem.java:127-134 | For a move, the remove part goes through the slot path and then the optional add part through full dispatch. |
| TrashSystem.WalkListIsPerLeaf | src/main/java/me/clutchy/hytale/autotrash/AutoTrashSystem.java:239-247 | A list walk is the walks of its children in list order. |
| TrashSystem.RecordedSlotIff | src/main/java/me/clutchy/hytale/autotrash/AutoTrashSystem.java:208-220 | A slot is recorded exactly when some reached slot transaction succeeded, is not a removal, names it inside the capacity, and leaves a stack a rule matches. |
| TrashSystem.WalkSlotsInRange | src/main/java/me/clutchy/hytale/autotrash/AutoTrashSystem.java:212-214 | Every recorded slot lies in [0, capacity). |
| TrashSystem.NothingSucceededNothingCollected | src/main/java/me/clutchy/hytale/autotrash/AutoTrashSystem.java:112-114 | A tree in which no slot transaction succeeded yields no slots, totals or samples. |
| TrashSystem.NothingSucceededInList | src/main/java/me/clutchy/hytale/autotrash/AutoTrashSystem.java:135-141 | The same holds for a list of such trees. |
| TrashSystem.WalkRegistersPositiveDeltas | src/main/java/me/clutchy/hytale/autotrash/AutoTrashSystem.java:283-287 | Every registration has a positive delta for an id some rule names, with a sample of that id. |
| TrashSystem.SumPositiveIffRegistered | src/main/java/me/clutchy/hytale/autotrash/AutoTrashSystem.java:88-89 | The returned total is non-negative, and positive exactly when something was registered. |
| TrashSystem.IncrementIsPut | src/main/java/me/clutchy/hytale/autotrash/AutoTrashSystem.java:289 | The total update equals put(id, getOrDefault(id, 0) + delta). |
| TrashSystem.AddTotalsSingle | src/main/java/me/clutchy/hytale/autotrash/AutoTrashSystem.java:289 | Registering one removal is one total update. |
| TrashSystem.IncrementKeepsKeysUnique | src/main/java/me/clutchy/hytale/autotrash/AutoTrashSystem.java:289 | A total update keeps the ids unique. |
| TrashSystem.IncrementGet | src/main/java/me/clutchy/hytale/autotrash/AutoTrashSystem.java:289 | A total update raises the id's total by delta and leaves every other total. |
| TrashSystem.IncrementSum | src/main/java/me/clutchy/hytale/autotrash/AutoTrashSystem.java:289 | A total update raises the sum of all totals by delta. |
| TrashSystem.IncrementNeverShrinks | src/main/java/me/clutchy/hytale/autotrash/AutoTrashSystem.java:289 | A total update never drops an entry. |
| TrashSystem.TotalsKeepKeysUnique | src/main/java/me/clutchy/hytale/autotrash/AutoTrashSystem.java:289 | Registering in order keeps the ids unique. |
| TrashSystem.TotalsAccumulate | src/main/java/me/clutchy/hytale/autotrash/AutoTrashSystem.java:289 | Each id's total grows by exactly the sum of the deltas registered for it, across all children. |
| TrashSystem.TotalsSum | src/main/java/me/clutchy/hytale/autotrash/AutoTrashSystem.java:289-291 | The totals grow in sum by the sum of all deltas, which is what the walk returns. |
| TrashSystem.TotalsNeverShrink | src/main/java/me/clutchy/hytale/autotrash/AutoTrashSystem.java:289 | Registering never removes a stored total. |
| TrashSystem.RegisteredHasTotals | src/main/java/me/clutchy/hytale/autotrash/AutoTrashSystem.java:93-95 | Something registered means the totals are non-empty, so a positive count always comes with totals to notify about. |
| TrashSystem.SamplesFirstSeen | src/main/java/me/clutchy/hytale/autotrash/AutoTrashSystem.java:290 | The sample of each id is the stored one, or else the after-stack of its first registration; ids stay unique. |
| TrashSystem.MatchesRule | src/main/java/me/clutchy/hytale/autotrash/AutoTrashSystem.java:256-269 | True exactly when the stack is present, not empty, and its id equals some entry of the settings' exact list. |
| TrashSystem.TrashCollector.constructor | src/main/java/me/clutchy/hytale/autotrash/AutoTrashSystem.java:85-87 | The slot list and both maps start empty. |
| TrashSystem.TrashCollector.CollectModifiedTrashSlots | src/main/java/me/clutchy/hytale/autotrash/AutoTrashSystem.java:110-147 | Appends the walk's slots, registers its removals into totals and samples, and returns the sum of its deltas. |
| TrashSystem.TrashCollector.CollectFromSlotTransaction | src/main/java/me/clutchy/hytale/autotrash/AutoTrashSystem.java:160-189 | Both leaf overloads: nothing for a failed transaction, the shared slot check otherwise. |
| TrashSystem.TrashCollector.CollectFromSlot | src/main/java/me/clutchy/hytale/autotrash/AutoTrashSystem.java:205-225 | Applies TrashSystem.VisitSlot to the collected state. |
| TrashSystem.TrashCollector.CollectFromListTransaction | src/main/java/me/clutchy/hytale/autotrash/AutoTrashSystem.java:239-247 | The loop over children collects the list walk and returns its sum. |
| TrashSystem.TrashCollector.RegisterRemovedItem | src/main/java/me/clutchy/hytale/autotrash/AutoTrashSystem.java:280-292 | Returns the delta when positive, else 0. A positive delta is added to the id's total and the after-stack becomes its sample unless one exists; slots are untouched. |
| TrashSystem.RemoveTrashItems | src/main/java/me/clutchy/hytale/autotrash/AutoTrashSystem.java:82-97 | Collects over the unchanged container first. Only when the total is positive does it empty the recorded slots in order. Notification is attempted only when the total is positive, notify is on and totals are non-empty. |
| TrashSystem.HandleInventoryChange | src/main/java/me/clutchy/hytale/autotrash/AutoTrashSystem.java:48-72 | Nothing happens unless the entity is a player, the container and transaction are present, the container is the player's, and settings exist and are enabled; otherwise it acts as RemoveTrashItems. |
| TrashSystem.ScenarioRockGrows | src/main/java/me/clutchy/hytale/autotrash/AutoTrashSystem.java:205-225 | Rock growing from 1 to 5 in slot 3 of 10 gives slots [3], total Rock 4, sample the five-stack, and a return of 4. |
| TrashSystem.ScenarioOnlyRuledItemCounts | src/main/java/me/clutchy/hytale/autotrash/AutoTrashSystem.java:135-141 | A list adding Rock (delta 2) and Dirt (delta 3) with only Rock ruled records only Rock's slot and totals Rock 2. |
| TrashSystem.RecordedWithoutBeforeIsNotCleared | src/main/java/me/clutchy/hytale/autotrash/AutoTrashSystem.java:221-223 | A ruled item placed where the before-stack is null is recorded but registers nothing, so alone it is not cleared and no notification is attempted. |
| Inventory.IsEmpty | src/main/java/me/clutchy/hytale/autotrash/AutoTrashSystem.java:257 | ItemStack.isEmpty, taken as a quantity of at most 0. |
| Inventory.Cleared | src/main/java/me/clutchy/hytale/autotrash/AutoTrashSystem.java:90-92 | Clearing keeps the container's size. |
| Inventory.ClearedAt | src/main/java/me/clutchy/hytale/autotrash/AutoTrashSystem.java:90-92 | Clearing empties exactly the listed slots and leaves every other slot. |
| Inventory.ClearIdempotent | src/main/java/me/clutchy/hytale/autotrash/AutoTrashSystem.java:90-92 | Clearing twice, or listing a slot twice, changes nothing more. |
| Inventory.RemoveItemStackFromSlot | src/main/java/me/clutchy/hytale/autotrash/AutoTrashSystem.java:91 | The slot becomes empty and no other slot changes. |
| Inventory.ClearSlots | src/main/java/me/clutchy/hytale/autotrash/AutoTrashSystem.java:90-92 | The loop leaves the container as Inventory.Cleared of the recorded slots. |
| FlatSettings.PlayerSettings.constructor | src/main/java/me/clutchy/hytale/autotrash/AutoTrashPlayerSettings.java:35-41 | A fresh record is enabled and notifying, with a new empty list. |
| FlatSettings.PlayerSettings.SetEnabled | src/main/java/me/clutchy/hytale/autotrash/AutoTrashPlayerSettings.java:71-73 | Only the enabled flag changes. |
| FlatSettings.PlayerSettings.SetNotify | src/main/java/me/clutchy/hytale/autotrash/AutoTrashPlayerSettings.java:89-91 | Only the notify flag changes. |
| FlatSettings.PlayerSettings.GetExactItems | src/main/java/me/clutchy/hytale/autotrash/AutoTrashPlayerSettings.java:98-100 | Returns the stored array itself. |
| FlatSettings.PlayerSettings.SetExactItems | src/main/java/me/clutchy/hytale/autotrash/AutoTrashPlayerSettings.java:107-109 | Stores a fresh array with the given contents, empty for null, so the caller's array stays separate. The flags are unchanged. |
| FlatSettings.PlayerSettings.Copy | src/main/java/me/clutchy/hytale/autotrash/AutoTrashPlayerSettings.java:117-123 | A fresh record with equal flags and a fresh array of equal contents. |
| FlatSettings.PlayerSettings.Clone | src/main/java/me/clutchy/hytale/autotrash/AutoTrashPlayerSettings.java:128-136 | A fresh record with equal flags and its own fresh array of equal contents. |
| FlatSettings.CopyOf | src/main/java/me/clutchy/hytale/autotrash/AutoTrashPlayerSettings.java:121 | Arrays.copyOf: a fresh array with the same contents. |
| LinkedMaps.Get | src/main/java/me/clutchy/hytale/autotrash/settings/AutoTrashPlayerSettings.java:193 | Finds a value exactly for a present key, and the value found is stored under that key. |
| LinkedMaps.Put | src/main/java/me/clutchy/hytale/autotrash/settings/AutoTrashPlayerSettings.java:203-204 | Replaces in place for a present key and appends otherwise. PutKeys and PutKeepsKeysUnique prove the key order and the values; rename's remove-then-put therefore moves the entry to the end. |
| LinkedMaps.Remove | src/main/java/me/clutchy/hytale/autotrash/settings/AutoTrashPlayerSettings.java:231 | Takes exactly one entry out when the key is present, and the other keys keep their insertion order. In a map with unique keys the key is then absent, the keys stay unique, and every other key keeps its value. |
| LinkedMaps.PutIfAbsent | src/main/java/me/clutchy/hytale/autotrash/AutoTrashSystem.java:290 | A stored value is kept and an absent key gets the new value. Every other key keeps its value. Existing entries stay in place, with at most one appended, and unique keys stay unique. |
| ConfigPage.RemoveFirst | src/main/java/me/clutchy/hytale/autotrash/AutoTrashConfigPage.java:324 | List.remove drops one entry when the id is present and returns the list unchanged otherwise. |
| ConfigPage.RemoveFirstAt | src/main/java/me/clutchy/hytale/autotrash/AutoTrashConfigPage.java:324 | It cuts out exactly the entry at the first index holding the id. |
| ConfigPage.ItemsChange | src/main/java/me/clutchy/hytale/autotrash/AutoTrashConfigPage.java:318-325 | Whether updateArray changes anything: adding an absent id, or removing a present one; UpdateChangesLength ties it to the length. |
| ConfigPage.UpdateItems | src/main/java/me/clutchy/hytale/autotrash/AutoTrashConfigPage.java:315-330 | Adding leaves the id present and adds exactly one copy when it was absent. Removing takes exactly one copy of the id out of the multiset. |
| ConfigPage.UpdateChangesLength | src/main/java/me/clutchy/hytale/autotrash/AutoTrashConfigPage.java:315-330 | updateArray changes the contents exactly when its length changes, so its reference comparison equals a contents comparison. |
| ConfigPage.AddIdempotent | src/main/java/me/clutchy/hytale/autotrash/AutoTrashConfigPage.java:318-322 | After adding, the id is present, and adding it again changes nothing. |
| ConfigPage.AddThenRemoveFirst | src/main/java/me/clutchy/hytale/autotrash/AutoTrashConfigPage.java:315-330 | Adding an absent id and then removing it gives back the list. |
| ConfigPage.RemoveFirstMultiset | src/main/java/me/clutchy/hytale/autotrash/AutoTrashConfigPage.java:323-325 | Removing takes away exactly one copy of the id and keeps every other entry. |
| ConfigPage.RemoveFirstIsWithout | src/main/java/me/clutchy/hytale/autotrash/AutoTrashConfigPage.java:323-325 | On a list without repeats, the page's first-occurrence removal agrees with the store's remove-all. |
| ConfigPage.UpdateArray | src/main/java/me/clutchy/hytale/autotrash/AutoTrashConfigPage.java:315-330 | Returns the very same array when nothing changes: an id already present when adding, an absent id when removing. Otherwise it returns a fresh array with the id appended or its first occurrence removed. |
| ConfigPage.ProfileActionChanged | src/main/java/me/clutchy/hytale/autotrash/AutoTrashConfigPage.java:242-271 | True exactly for CREATED, DUPLICATED, RENAMED and DELETED. |
| ConfigPage.ChangedIsSuccess | src/main/java/me/clutchy/hytale/autotrash/AutoTrashConfigPage.java:242-271 | Changed exactly when the store reports success, and unchanged exactly for the five failure codes. |
| ConfigPage.ScanSlots | src/main/java/me/clutchy/hytale/autotrash/AutoTrashConfigPage.java:275-286 | Every recorded slot index lies inside the inventory. |
| ConfigPage.ScanSlotsExactly | src/main/java/me/clutchy/hytale/autotrash/AutoTrashConfigPage.java:275-286 | A slot is recorded exactly when it holds a non-empty stack whose id equals a rule, in increasing order, so never twice. |
| ConfigPage.ScanFindsNothing | src/main/java/me/clutchy/hytale/autotrash/AutoTrashConfigPage.java:287-290 | With no matching slot nothing is recorded. |
| ConfigPage.ScanThenClear | src/main/java/me/clutchy/hytale/autotrash/AutoTrashConfigPage.java:273-295 | After the sweep every matching slot is empty and every other slot is unchanged; a second sweep finds nothing. |
| ConfigPage.HandleInventoryScan | src/main/java/me/clutchy/hytale/autotrash/AutoTrashConfigPage.java:273-295 | One pass records the matching slots, then only when some matched are they emptied, in order. |
| ConfigPage.ActionNamed | src/main/java/me/clutchy/hytale/autotrash/AutoTrashConfigPage.java:119-201 | A name that is none of the ten constants takes the default branch with that name. |
| ConfigPage.NamedActionKeepsName | src/main/java/me/clutchy/hytale/autotrash/AutoTrashConfigPage.java:390-426 | Every action name selects the branch whose constant it is. |
| ConfigPage.ConstantNamesItsAction | src/main/java/me/clutchy/hytale/autotrash/AutoTrashConfigPage.java:390-426 | Each of the ten constants selects its own branch. |
| ConfigPage.DeleteTarget | src/main/java/me/clutchy/hytale/autotrash/AutoTrashConfigPage.java:140-142 | The supplied name when it is not blank, otherwise the active name. |
| ConfigPage.ItemEdit | src/main/java/me/clutchy/hytale/autotrash/AutoTrashConfigPage.java:164-198 | An item edit leaves the store healthy. |
| ConfigPage.ItemEditEffect | src/main/java/me/clutchy/hytale/autotrash/AutoTrashConfigPage.java:172-197 | The list is written back and the page marked changed exactly when updateArray changed it. Only the active list changes then, with a different length. |
| ConfigPage.EventEffect | src/main/java/me/clutchy/hytale/autotrash/AutoTrashConfigPage.java:102-206 | A null action changes nothing; any other event leaves the store healthy. |
| ConfigPage.ActionEffect | src/main/java/me/clutchy/hytale/autotrash/AutoTrashConfigPage.java:119-201 | Every branch of the action switch leaves the store healthy. |
| ConfigPage.TrashesHeldItem | src/main/java/me/clutchy/hytale/autotrash/AutoTrashConfigPage.java:164-183 | The hotbar slot is emptied exactly for an add-exact event with a non-empty held stack while auto-trash is enabled, whether or not the list changed. |
| ConfigPage.SwitchNeedsName | src/main/java/me/clutchy/hytale/autotrash/AutoTrashConfigPage.java:120-125 | A switch with a blank name changes nothing beyond self-healing; otherwise it is activateProfile. |
| ConfigPage.DeleteWithoutNameDeletesActive | src/main/java/me/clutchy/hytale/autotrash/AutoTrashConfigPage.java:139-145 | A delete without a name removes the active profile when another exists, and the active pointer moves to the first remaining profile. |
| ConfigPage.ProfileEventChangedIffSuccess | src/main/java/me/clutchy/hytale/autotrash/AutoTrashConfigPage.java:126-129 | An add-profile event marks the page changed exactly when createProfile reports success. |
| ConfigPage.HandleDataEvent | src/main/java/me/clutchy/hytale/autotrash/AutoTrashConfigPage.java:102-206 | Missing settings or a null action change nothing. Otherwise the store and changed flag are ConfigPage.EventEffect's. The hotbar slot is emptied only for an add-exact of a held stack while enabled, and the inventory only by a scan. |
| ConfigPage.HandleAction | src/main/java/me/clutchy/hytale/autotrash/AutoTrashConfigPage.java:118-201 | The switch on the self-healed store matches ConfigPage.ActionEffect, including the hotbar and inventory effects. |
| ConfigPage.HandleProfileEvent | src/main/java/me/clutchy/hytale/autotrash/AutoTrashConfigPage.java:120-145 | The profile branches match ConfigPage.ActionEffect. |
| ConfigPage.HandleCreate | src/main/java/me/clutchy/hytale/autotrash/AutoTrashConfigPage.java:126-133 | Create and duplicate match ConfigPage.ActionEffect. |
| ConfigPage.HandleRename | src/main/java/me/clutchy/hytale/autotrash/AutoTrashConfigPage.java:134-138 | Rename of the active profile to the typed name matches ConfigPage.ActionEffect. |
| ConfigPage.HandleDelete | src/main/java/me/clutchy/hytale/autotrash/AutoTrashConfigPage.java:139-145 | Delete of the fallback target matches ConfigPage.ActionEffect. |
| ConfigPage.AddHeldItem | src/main/java/me/clutchy/hytale/autotrash/AutoTrashConfigPage.java:164-184 | Adds the held id as ConfigPage.ItemEdit says. When enabled it empties the active hotbar slot, whether or not the list changed. |
| ConfigPage.EditActiveItems | src/main/java/me/clutchy/hytale/autotrash/AutoTrashConfigPage.java:172-197 | Writes back, and reports a change, only when updateArray returned a different array (ConfigPage.ItemEdit). |
| Plugin.NormalizedEntry | src/main/java/me/clutchy/hytale/autotrash/AutoTrashPlugin.java:88-91 | A null entry stays null and only it. A kept entry gets no longer, and becomes empty exactly when it held only trimmable characters. |
| Plugin.Normalized | src/main/java/me/clutchy/hytale/autotrash/AutoTrashPlugin.java:87-93 | Normalising keeps the length. |
| Plugin.NormalizeIdempotent | src/main/java/me/clutchy/hytale/autotrash/AutoTrashPlugin.java:83-94 | Normalising twice equals normalising once. |
| Plugin.NormalizedEntriesAreTrimmed | src/main/java/me/clutchy/hytale/autotrash/AutoTrashPlugin.java:88-91 | Null entries stay null and only they. No kept entry starts or ends with a trimmable character. An entry becomes empty exactly when it held only trimmable characters. |
| Plugin.NormalizeList | src/main/java/me/clutchy/hytale/autotrash/AutoTrashPlugin.java:83-94 | A null list gives a new empty array. Otherwise the same array comes back, same length, each entry replaced by its normalised form. |
| Plugin.AutoTrashRules.constructor | src/main/java/me/clutchy/hytale/autotrash/AutoTrashPlugin.java:100-101 | The defaults: exact rules ["Food_Wildmeat_Raw"], no substring rules. |
| Plugin.AutoTrashRules.SetExactItems | src/main/java/me/clutchy/hytale/autotrash/AutoTrashPlugin.java:107-109 | Stores the given reference; the other list is unchanged. |
| Plugin.AutoTrashRules.SetContainsItems | src/main/java/me/clutchy/hytale/autotrash/AutoTrashPlugin.java:115-117 | Stores the given reference; the other list is unchanged. |
| Plugin.NormalizeRules | src/main/java/me/clutchy/hytale/autotrash/AutoTrashPlugin.java:71-75 | Returns the same object with both lists non-null: a null list becomes a new empty array, and a present one keeps its array with every entry normalised, even when both fields share one array. |

## Left out

- Serialisation codecs and component registration: `CODEC` builders, the static component type and `ComponentType` lookups. These are framework code with no logic of the plugin's own.
- UI building and messages: the page's `build`, the event bindings, every `Message`/translation call and every `rebuild` call. `ConfigPage.HandleDataEvent` returns `changed`, the flag that decides the final rebuild. Two paths rebuild on their own and return with `changed` still false: add-exact with no held stack, and remove-exact with a blank id. The model reports both as unchanged and does not record that rebuild.
- ConfigPage.AddHeldItem: the notification the add-exact branch sends for the trashed held stack (`sendTrashNotification`, when notify is on) is not modelled.
- Notifications: `sendTrashNotifications`, `resolvePlayerRef`, the notification builder and its message formatting. The model returns only the condition under which a notification is attempted. `getSettings`'s component lookup becomes a nullable settings parameter.
- `updateRules` and the `containsItems` substring rules. The matcher shown compares exact ids only, and the substring list is only stored and trimmed here.
- Plugin setup, the commands that open the page, and event registration: wiring into the server.
- Inventory and item library types are reduced to what the core reads. An item stack is an id plus a quantity, and it is empty when the quantity is at most 0. The player's inventory identity, the held item, the hotbar and the active hotbar slot are parameters.
- ProfileStore.PlayerSettings.SetActiveExactItems: profiles are held by value, so writing through the profile object returned by `getActiveProfile` is modelled as replacing the active entry's list. Aliasing between that object and the map is not captured.
- ProfileStore.Profile.Copy: the copy is a separate object, and the store's own copy (`ProfileStore.PlayerSettings.Copy`) copies list values. Sharing of profile objects between stores is not modelled.
- TrashSystem.TrashCollector.RegisterRemovedItem: quantities, deltas and totals are unbounded integers. The 32-bit `int` arithmetic of `delta`, of `getOrDefault + delta` and of the summed `removed` is not modelled.
- TrashSystem.SumPositiveIffRegistered: the returned count is an unbounded sum. In the source, `removedCount` is a 32-bit `int`, and a wrap could flip the `removedCount > 0` gate that decides clearing.
- FlatSettings.PlayerSettings.SetExactItems: array elements are non-null strings. A null element inside the Java array is not modelled.
- Java nulls inside the profile map are modelled as empty lists (`setProfiles` replaces them). The dead `profile == null` re-check after `ensureProfiles` is therefore not modelled.
- ConfigPage.HandleDataEvent: a missing player component and missing settings take the same early return. The model has one nullable settings parameter for both.
- Thread safety: the source relies on the server's world thread. No concurrency is modelled.
