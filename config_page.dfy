/**
 * The logic of the settings page: the helper that adds an item id to or
 * removes it from a rule list, the mapping from a profile outcome code to
 * "the page changed", the event dispatcher with its guards, and the
 * inventory sweep that clears every slot matching the active profile.
 */
module ConfigPage {
  import opened Wrappers
  import opened LinkedMaps
  import opened JavaStrings
  import opened Inventory
  import TrashSystem
  import R = ProfileRecord
  import S = ProfileStore

  // ---------------------------------------------------------------------------
  // updateArray
  // ---------------------------------------------------------------------------

  /** `List.remove(Object)`: the list without its first entry equal to `id`. */
  function RemoveFirst(items: seq<string>, id: string): (r: seq<string>)
    ensures id !in items ==> r == items
    ensures id in items ==> |r| == |items| - 1
    decreases |items|
  {
    if items == [] then []
    else if items[0] == id then items[1..]
    else [items[0]] + RemoveFirst(items[1..], id)
  }

  /** Removing the first occurrence cuts out exactly the entry at the first
      index holding `id`. */
  lemma {:induction false} RemoveFirstAt(items: seq<string>, id: string, i: int)
    requires 0 <= i < |items| && items[i] == id && id !in items[..i]
    ensures RemoveFirst(items, id) == items[..i] + items[i + 1..]
    decreases i
  {
    if i > 0 {
      assert items[0] in items[..i];
      assert items[1..][..i - 1] == items[1..i];
      RemoveFirstAt(items[1..], id, i - 1);
      assert items[1..][i - 1 + 1..] == items[i + 1..];
      assert [items[0]] + items[1..i] == items[..i];
    }
  }

  /** The first index holding `id`. */
  lemma {:induction false} FirstIndex(items: seq<string>, id: string) returns (i: int)
    requires id in items
    ensures 0 <= i < |items| && items[i] == id && id !in items[..i]
    decreases |items|
  {
    if items[0] == id {
      i := 0;
    } else {
      var j := FirstIndex(items[1..], id);
      i := j + 1;
      assert items[..i] == [items[0]] + items[1..][..j];
    }
  }

  /** Whether `updateArray` changes anything: adding changes a list that
      lacks the id, removing one that holds it. */
  predicate ItemsChange(items: seq<string>, add: bool, id: string) {
    if add then id !in items else id in items
  }

  /** The contents `updateArray` returns: the id appended when adding and
      absent, or the first occurrence dropped when removing. */
  function UpdateItems(items: seq<string>, add: bool, id: string): (r: seq<string>)
    ensures add ==> id in r && multiset(r) == multiset(items) + (if id in items then multiset{} else multiset{id})
    ensures !add ==> multiset(r) == multiset(items) - multiset{id}
  {
    if add then (if id in items then items else items + [id])
    else if id in items then
      RemoveFirstMultiset(items, id);
      RemoveFirst(items, id)
    else items
  }

  /** A change always alters the length, so comparing the returned array with
      the old one by reference is the same as comparing contents. */
  lemma UpdateChangesLength(items: seq<string>, add: bool, id: string)
    ensures ItemsChange(items, add, id) <==> |UpdateItems(items, add, id)| != |items|
    ensures !ItemsChange(items, add, id) <==> UpdateItems(items, add, id) == items
  {
  }

  /** Adding stays idempotent: after adding, the id is present once more
      than before at most, and adding it again changes nothing. */
  lemma AddIdempotent(items: seq<string>, id: string)
    ensures id in UpdateItems(items, true, id)
    ensures UpdateItems(UpdateItems(items, true, id), true, id) == UpdateItems(items, true, id)
    ensures !ItemsChange(UpdateItems(items, true, id), true, id)
  {
    if id !in items {
      assert UpdateItems(items, true, id)[|items|] == id;
    }
  }

  /** Adding an absent id and then removing it gives back the list. */
  lemma AddThenRemoveFirst(items: seq<string>, id: string)
    requires id !in items
    ensures UpdateItems(UpdateItems(items, true, id), false, id) == items
  {
    var added := items + [id];
    assert added[..|items|] == items;
    RemoveFirstAt(added, id, |items|);
  }

  /** Removing the first occurrence takes away one copy of the id and keeps
      every other entry. */
  lemma RemoveFirstMultiset(items: seq<string>, id: string)
    requires id in items
    ensures multiset(RemoveFirst(items, id)) + multiset{id} == multiset(items)
  {
    var i := FirstIndex(items, id);
    RemoveFirstAt(items, id, i);
    var head, tail := items[..i], items[i + 1..];
    assert items == head + [id] + tail;
    MultisetAround(head, id, tail);
  }

  lemma MultisetAround(head: seq<string>, id: string, tail: seq<string>)
    ensures multiset(head + [id] + tail) == multiset(head + tail) + multiset{id}
  {
    assert multiset(head + [id] + tail) == multiset(head) + multiset([id]) + multiset(tail);
  }

  /** In a list without repeated entries, no entry comes back later. */
  lemma NotRepeatedLater(items: seq<string>, i: int)
    requires forall a, b :: 0 <= a < b < |items| ==> items[a] != items[b]
    requires 0 <= i < |items|
    ensures items[i] !in items[i + 1..]
  {
    var tail := items[i + 1..];
    forall k | 0 <= k < |tail|
      ensures tail[k] != items[i]
    {
      assert tail[k] == items[i + 1 + k];
    }
  }

  /** On a list without repeated entries, which is what the add path keeps,
      dropping the first occurrence (the page) and dropping every
      occurrence (`removeExactItem` of the store) agree. */
  lemma {:induction false} RemoveFirstIsWithout(items: seq<string>, id: string)
    requires forall a, b :: 0 <= a < b < |items| ==> items[a] != items[b]
    ensures RemoveFirst(items, id) == R.Without(items, id)
  {
    if id in items {
      var i := FirstIndex(items, id);
      var head, tail := items[..i], items[i + 1..];
      NotRepeatedLater(items, i);
      RemoveFirstAt(items, id, i);
      assert items == head + ([id] + tail);
      WithoutAround(head, id, tail);
    }
  }

  lemma WithoutAround(head: seq<string>, id: string, tail: seq<string>)
    requires id !in head && id !in tail
    ensures R.Without(head + ([id] + tail), id) == head + tail
  {
    R.WithoutAppend(head, [id] + tail, id);
    WithoutDropsFront(id, tail);
  }

  lemma WithoutDropsFront(id: string, tail: seq<string>)
    requires id !in tail
    ensures R.Without([id] + tail, id) == tail
  {
    R.WithoutAppend([id], tail, id);
    assert [id][..0] == [];
  }

  /** `updateArray`: work on a list copy; return the very same array when
      nothing changed, otherwise a new array of the updated contents. */
  method UpdateArray(values: array<string>, add: bool, itemId: string) returns (updated: array<string>)
    ensures !ItemsChange(values[..], add, itemId) ==> updated == values
    ensures ItemsChange(values[..], add, itemId) ==> fresh(updated) && updated[..] == UpdateItems(values[..], add, itemId)
  {
    var items := values[..];
    var changed := false;
    if add {
      if itemId !in items {
        items := items + [itemId];
        changed := true;
      }
    } else {
      var i := 0;
      while i < |items| && items[i] != itemId
        invariant 0 <= i <= |items| && itemId !in items[..i]
      {
        i := i + 1;
      }
      assert items[..i] == values[..][..i];
      if i < |items| {
        RemoveFirstAt(items, itemId, i);
        items := items[..i] + items[i + 1..];
        changed := true;
      } else {
        assert items[..i] == items;
      }
    }
    if !changed {
      return values;
    }
    updated := new string[|items|](j requires 0 <= j < |items| => items[j]);
  }

  // ---------------------------------------------------------------------------
  // handleProfileAction
  // ---------------------------------------------------------------------------

  /** The boolean `handleProfileAction` returns for an outcome code. */
  function ProfileActionChanged(result: R.ProfileActionResult): (changed: bool)
    ensures changed <==> result in {R.Created, R.Duplicated, R.Renamed, R.Deleted}
  {
    match result
    case Created => true
    case Duplicated => true
    case Renamed => true
    case Deleted => true
    case NameTaken => false
    case LimitReached => false
    case NameEmpty => false
    case NotFound => false
    case LastProfile => false
  }

  /** A profile action reports a change exactly when the store reports
      success. */
  lemma ChangedIsSuccess(result: R.ProfileActionResult)
    ensures ProfileActionChanged(result) <==> result.IsSuccess()
    ensures !ProfileActionChanged(result) <==>
            result in {R.NameEmpty, R.NameTaken, R.LimitReached, R.NotFound, R.LastProfile}
  {
  }

  // ---------------------------------------------------------------------------
  // handleInventoryScan
  // ---------------------------------------------------------------------------

  /** The slots the sweep records, in slot order: each present, non-empty
      stack whose id equals some rule. */
  function ScanSlots(slots: seq<Option<Stack>>, rules: seq<string>): (r: seq<int>)
    ensures InRange(r, |slots|)
    decreases |slots|
  {
    if slots == [] then []
    else
      var n := |slots| - 1;
      ScanSlots(slots[..n], rules) + (if TrashSystem.Matches(slots[n], rules) then [n] else [])
  }

  /** A slot is recorded exactly when its stack matches, and slots are
      recorded in increasing order, so none is recorded twice. */
  lemma {:induction false} ScanSlotsExactly(slots: seq<Option<Stack>>, rules: seq<string>)
    ensures forall i :: i in ScanSlots(slots, rules) <==> 0 <= i < |slots| && TrashSystem.Matches(slots[i], rules)
    ensures forall a, b :: 0 <= a < b < |ScanSlots(slots, rules)| ==>
              ScanSlots(slots, rules)[a] < ScanSlots(slots, rules)[b]
    decreases |slots|
  {
    if slots != [] {
      var n := |slots| - 1;
      var prefix := slots[..n];
      ScanSlotsExactly(prefix, rules);
      var head := ScanSlots(prefix, rules);
      assert InRange(head, n);
      assert forall a, b :: 0 <= a < b < |head| ==> head[a] < head[b];
      var r := ScanSlots(slots, rules);
      assert r == head + (if TrashSystem.Matches(slots[n], rules) then [n] else []);
      forall i
        ensures i in r <==> 0 <= i < |slots| && TrashSystem.Matches(slots[i], rules)
      {
        if 0 <= i < n {
          assert prefix[i] == slots[i];
        }
      }
      forall a, b | 0 <= a < b < |r|
        ensures r[a] < r[b]
      {
        if b >= |head| {
          assert r[a] == head[a] < n;
        } else {
          assert r[a] == head[a] && r[b] == head[b];
        }
      }
    }
  }

  /** A container without a matching slot yields no slots. */
  lemma {:induction false} ScanFindsNothing(slots: seq<Option<Stack>>, rules: seq<string>)
    requires forall i :: 0 <= i < |slots| ==> !TrashSystem.Matches(slots[i], rules)
    ensures ScanSlots(slots, rules) == []
    decreases |slots|
  {
    if slots != [] {
      var n := |slots| - 1;
      var prefix := slots[..n];
      assert forall i :: 0 <= i < n ==> prefix[i] == slots[i];
      ScanFindsNothing(prefix, rules);
    }
  }

  /** After the sweep every matching slot is empty and every other slot is as
      it was; a second sweep finds nothing. */
  lemma ScanThenClear(slots: seq<Option<Stack>>, rules: seq<string>)
    ensures var after := Cleared(slots, ScanSlots(slots, rules));
            && (forall i :: 0 <= i < |slots| ==>
                  after[i] == if TrashSystem.Matches(slots[i], rules) then None else slots[i])
            && ScanSlots(after, rules) == []
  {
    var targets := ScanSlots(slots, rules);
    var after := Cleared(slots, targets);
    ScanSlotsExactly(slots, rules);
    forall i | 0 <= i < |slots|
      ensures after[i] == if TrashSystem.Matches(slots[i], rules) then None else slots[i]
    {
      ClearedAt(slots, targets, i);
    }
    ScanFindsNothing(after, rules);
  }

  /** `handleInventoryScan`: one pass records every matching slot, then,
      only when something matched, the recorded slots are emptied in order. */
  method HandleInventoryScan(items: seq<string>, inventory: array<Option<Stack>>) returns (slotsToRemove: seq<int>)
    modifies inventory
    ensures slotsToRemove == ScanSlots(old(inventory[..]), items)
    ensures inventory[..] == Cleared(old(inventory[..]), slotsToRemove)
  {
    slotsToRemove := [];
    for slot := 0 to inventory.Length
      invariant slotsToRemove == ScanSlots(inventory[..slot], items)
    {
      assert inventory[..slot + 1][..slot] == inventory[..slot];
      var stack := inventory[slot];
      if stack.None? || IsEmpty(stack.value) {
        continue;
      }
      var itemId := stack.value.itemId;
      for j := 0 to |items|
        invariant itemId !in items[..j]
        invariant slotsToRemove == ScanSlots(inventory[..slot], items)
      {
        if itemId == items[j] {
          slotsToRemove := slotsToRemove + [slot];
          break;
        }
      }
      assert itemId in items ==> slotsToRemove == ScanSlots(inventory[..slot], items) + [slot] by {
        if slotsToRemove == ScanSlots(inventory[..slot], items) {
          assert items[..|items|] == items;
        }
      }
    }
    assert inventory[..inventory.Length] == inventory[..];
    if slotsToRemove == [] {
      return;
    }
    ClearSlots(inventory, slotsToRemove);
  }

  // ---------------------------------------------------------------------------
  // handleDataEvent
  // ---------------------------------------------------------------------------

  /** The actions the page's event bindings send, and any other name. */
  datatype Action =
    | ToggleEnabled | ToggleNotify | AddExact | RemoveExact
    | SwitchProfile | AddProfile | DuplicateProfile | RenameProfile | DeleteProfile
    | ScanInventory
    | Other(name: string)

  /** The `ACTION_*` constant of each action. */
  function ActionName(a: Action): string {
    match a
    case ToggleEnabled => "ToggleEnabled"
    case ToggleNotify => "ToggleNotify"
    case AddExact => "AddExact"
    case RemoveExact => "RemoveExact"
    case SwitchProfile => "SwitchProfile"
    case AddProfile => "AddProfile"
    case DuplicateProfile => "DuplicateProfile"
    case RenameProfile => "RenameProfile"
    case DeleteProfile => "DeleteProfile"
    case ScanInventory => "ScanInventory"
    case Other(name) => name
  }

  /** Which branch of the string `switch` an action name selects. */
  function ActionNamed(name: string): (a: Action)
    ensures a.Other? ==> a.name == name
  {
    if name == "ToggleEnabled" then ToggleEnabled
    else if name == "ToggleNotify" then ToggleNotify
    else if name == "AddExact" then AddExact
    else if name == "RemoveExact" then RemoveExact
    else if name == "SwitchProfile" then SwitchProfile
    else if name == "AddProfile" then AddProfile
    else if name == "DuplicateProfile" then DuplicateProfile
    else if name == "RenameProfile" then RenameProfile
    else if name == "DeleteProfile" then DeleteProfile
    else if name == "ScanInventory" then ScanInventory
    else Other(name)
  }

  /** Every name selects the branch whose constant it is, and only the ten
      constants select a named branch. */
  lemma {:induction false} NamedActionKeepsName(name: string)
    ensures ActionName(ActionNamed(name)) == name
  {
  }

  /** Each constant selects its own branch. */
  lemma {:induction false} ConstantNamesItsAction(a: Action)
    requires !a.Other?
    ensures ActionNamed(ActionName(a)) == a
  {
    match a {
      case ToggleEnabled =>
      case ToggleNotify =>
      case AddExact =>
      case RemoveExact =>
      case SwitchProfile =>
      case AddProfile =>
      case DuplicateProfile =>
      case RenameProfile =>
      case DeleteProfile =>
      case ScanInventory =>
    }
  }

  /** `PageEventData`: the action name, the profile name and item id fields
      (a null string reads as the empty string, since the page only tests
      them for null-or-blank) and the checkbox value (a `Boolean`, possibly
      null). */
  datatype PageEvent = PageEvent(action: Option<string>, profileName: string, value: Option<bool>, itemId: string)

  /** The profile a delete event names: the supplied name when it is not
      blank, otherwise the active profile. */
  function DeleteTarget(profileName: string, activeName: string): (target: string)
    ensures !IsBlank(profileName) ==> target == profileName
    ensures IsBlank(profileName) ==> target == activeName
  {
    if !IsBlank(profileName) then profileName else activeName
  }

  /** The add or remove of one exact item on the active profile: written
      back, and reported as a change, only when `updateArray` changed the
      list. */
  function ItemEdit(e: R.Record, add: bool, id: string): (out: (R.Record, bool))
    requires R.Healthy(e)
    ensures R.Healthy(out.0)
  {
    var items := R.ActiveItems(e);
    if ItemsChange(items, add, id) then (R.WithActiveItems(e, UpdateItems(items, add, id)), true)
    else (e, false)
  }

  /** An item edit either changes nothing and reports no change, or replaces
      the active list by the updated one, keeping every profile name and
      every other list, and reports a change. */
  lemma ItemEditEffect(e: R.Record, add: bool, id: string)
    requires R.Healthy(e)
    ensures var (n, changed) := ItemEdit(e, add, id);
            && (changed <==> ItemsChange(R.ActiveItems(e), add, id))
            && (!changed ==> n == e)
            && (changed ==>
                  && R.ActiveItems(n) == UpdateItems(R.ActiveItems(e), add, id)
                  && |R.ActiveItems(n)| != |R.ActiveItems(e)|
                  && Keys(n.profiles) == Keys(e.profiles)
                  && (forall k :: k != e.active ==> Get(n.profiles, k) == Get(e.profiles, k))
                  && n == e.(profiles := n.profiles))
  {
    var items := R.ActiveItems(e);
    UpdateChangesLength(items, add, id);
    if ItemsChange(items, add, id) {
      R.WithActiveItemsEffect(e, UpdateItems(items, add, id));
    }
  }

  /** What `handleDataEvent` does to the settings and whether it marks the
      page changed. A null action returns before anything is read; any other
      event first self-heals the store through `getActiveProfile`. */
  function EventEffect(r: R.Record, data: PageEvent, held: Option<Stack>): (out: (R.Record, bool))
    requires UniqueKeys(r.profiles)
    ensures UniqueKeys(out.0.profiles)
    ensures data.action.None? ==> out == (r, false)
    ensures data.action.Some? ==> R.Healthy(out.0)
  {
    if data.action.None? then (r, false)
    else ActionEffect(R.EnsureProfiles(r), ActionNamed(data.action.value), data, held)
  }

  /** One branch of the action `switch`, on the self-healed store. */
  function ActionEffect(e: R.Record, action: Action, data: PageEvent, held: Option<Stack>): (out: (R.Record, bool))
    requires R.Healthy(e)
    ensures R.Healthy(out.0)
  {
      match action
      case SwitchProfile =>
        if IsBlank(data.profileName) then (e, false) else R.ActivateProfile(e, data.profileName)
      case AddProfile =>
        var (n, result) := R.CreateProfile(e, data.profileName, false);
        (R.EnsureProfiles(n), ProfileActionChanged(result))
      case DuplicateProfile =>
        var (n, result) := R.CreateProfile(e, data.profileName, true);
        (R.EnsureProfiles(n), ProfileActionChanged(result))
      case RenameProfile =>
        var e1 := R.EnsureProfiles(e);
        var (n, result) := R.RenameProfile(e1, e1.active, data.profileName);
        (R.EnsureProfiles(n), ProfileActionChanged(result))
      case DeleteProfile =>
        var e1 := if !IsBlank(data.profileName) then e else R.EnsureProfiles(e);
        var (n, result) := R.DeleteProfile(e1, DeleteTarget(data.profileName, e1.active));
        (n, ProfileActionChanged(result))
      case ScanInventory => (e, true)
      case ToggleEnabled =>
        if data.value.None? then (e, false) else (e.(enabled := data.value.value), true)
      case ToggleNotify =>
        if data.value.None? then (e, false) else (e.(notify := data.value.value), true)
      case AddExact =>
        if held.None? || IsEmpty(held.value) then (e, false) else ItemEdit(e, true, held.value.itemId)
      case RemoveExact =>
        if IsBlank(data.itemId) then (e, false) else ItemEdit(e, false, data.itemId)
      case Other(_) => (e, false)
  }

  /** Whether an add-exact event also took the held stack out of the hand:
      a present, non-empty stack while auto-trash is enabled (the event does
      not touch the flag), whether or not the list changed. */
  predicate TrashesHeldItem(n: R.Record, data: PageEvent, held: Option<Stack>) {
    && data.action.Some? && ActionNamed(data.action.value) == AddExact
    && held.Some? && !IsEmpty(held.value) && n.enabled
  }

  /** A switch with a blank name returns without activating anything; the
      store is only self-healed. */
  lemma SwitchNeedsName(r: R.Record, name: string)
    requires UniqueKeys(r.profiles)
    ensures var out := EventEffect(r, PageEvent(Some("SwitchProfile"), name, None, ""), None);
            && (IsBlank(name) ==> out == (R.EnsureProfiles(r), false))
            && (!IsBlank(name) ==> out == R.ActivateProfile(R.EnsureProfiles(r), name))
  {
  }

  /** A delete event without a name deletes the active profile, provided
      there is another one and the active name is already trimmed and not
      blank; the
      active pointer then moves to the first remaining profile. */
  lemma DeleteWithoutNameDeletesActive(r: R.Record, blank: string)
    requires UniqueKeys(r.profiles) && IsBlank(blank)
    requires var e := R.EnsureProfiles(r); |e.profiles| >= 2 && Trim(e.active) == e.active && !IsBlank(e.active)
    ensures var e := R.EnsureProfiles(r);
            var (n, changed) := EventEffect(r, PageEvent(Some("DeleteProfile"), blank, None, ""), None);
            && changed
            && |n.profiles| == |e.profiles| - 1
            && !HasKey(n.profiles, e.active)
            && n.active == n.profiles[0].0
  {
    var e := R.EnsureProfiles(r);
    R.EnsureIdempotent(r);
    R.DeleteOutcome(e, e.active);
  }

  /** The outcome of a profile action event marks the page changed exactly
      when the store reports success. */
  lemma ProfileEventChangedIffSuccess(r: R.Record, data: PageEvent)
    requires UniqueKeys(r.profiles)
    requires data.action == Some("AddProfile")
    ensures EventEffect(r, data, None).1 <==> R.CreateProfile(R.EnsureProfiles(r), data.profileName, false).1.IsSuccess()
  {
  }

  /** `handleDataEvent`: the guards, then one action. The settings may be
      missing; the held stack, the hotbar with its active slot and the
      combined inventory are the player's. */
  method HandleDataEvent(settings: S.PlayerSettings?, data: PageEvent, held: Option<Stack>,
                         hotbar: array<Option<Stack>>, activeHotbarSlot: int,
                         inventory: array<Option<Stack>>) returns (changed: bool)
    requires settings != null ==> settings.Valid()
    requires 0 <= activeHotbarSlot < hotbar.Length && hotbar != inventory
    modifies settings, hotbar, inventory
    ensures settings == null ==> !changed
    ensures settings != null ==>
              settings.Valid() && (settings.Snapshot(), changed) == EventEffect(old(settings.Snapshot()), data, held)
    ensures hotbar[..] == if settings != null && TrashesHeldItem(settings.Snapshot(), data, held)
                          then old(hotbar[..])[activeHotbarSlot := None] else old(hotbar[..])
    ensures inventory[..] == if settings != null && data.action.Some? && ActionNamed(data.action.value) == ScanInventory
                             then Cleared(old(inventory[..]), ScanSlots(old(inventory[..]), R.ActiveItems(R.EnsureProfiles(old(settings.Snapshot())))))
                             else old(inventory[..])
  {
    if settings == null {
      return false;
    }
    if data.action.None? {
      return false;
    }
    var profile := settings.GetActiveProfile();
    changed := HandleAction(settings, profile, ActionNamed(data.action.value), data, held, hotbar, activeHotbarSlot, inventory);
  }

  /** The action `switch` of `handleDataEvent`, entered with the store
      self-healed and `profile` holding the active list. */
  method HandleAction(settings: S.PlayerSettings, profile: seq<string>, action: Action, data: PageEvent,
                      held: Option<Stack>, hotbar: array<Option<Stack>>, activeHotbarSlot: int,
                      inventory: array<Option<Stack>>) returns (changed: bool)
    requires R.Healthy(settings.Snapshot()) && profile == R.ActiveItems(settings.Snapshot())
    requires 0 <= activeHotbarSlot < hotbar.Length && hotbar != inventory
    modifies settings, hotbar, inventory
    ensures settings.Valid() && (settings.Snapshot(), changed) == ActionEffect(old(settings.Snapshot()), action, data, held)
    ensures hotbar[..] == if action == AddExact && held.Some? && !IsEmpty(held.value) && settings.enabled
                          then old(hotbar[..])[activeHotbarSlot := None] else old(hotbar[..])
    ensures inventory[..] == if action == ScanInventory then Cleared(old(inventory[..]), ScanSlots(old(inventory[..]), profile))
                             else old(inventory[..])
  {
    changed := false;
    match action {
      case SwitchProfile | AddProfile | DuplicateProfile | RenameProfile | DeleteProfile =>
        changed := HandleProfileEvent(settings, action, data.profileName);
      case ScanInventory =>
        var _ := HandleInventoryScan(profile, inventory);
        changed := true;
      case ToggleEnabled =>
        if data.value.None? {
          return false;
        }
        settings.SetEnabled(data.value.value);
        changed := true;
      case ToggleNotify =>
        if data.value.None? {
          return false;
        }
        settings.SetNotify(data.value.value);
        changed := true;
      case AddExact =>
        if held.None? || IsEmpty(held.value) {
          return false;
        }
        changed := AddHeldItem(settings, profile, held.value, hotbar, activeHotbarSlot);
      case RemoveExact =>
        if IsBlank(data.itemId) {
          return false;
        }
        changed := EditActiveItems(settings, profile, false, data.itemId);
      case Other(_) =>
    }
  }

  /** The profile branches of the action `switch`: a switch needs a name and
      activates it untrimmed; create, duplicate and rename report through
      `handleProfileAction` after reading the active name once more; a delete
      without a name targets the active profile. */
  method HandleProfileEvent(settings: S.PlayerSettings, action: Action, profileName: string) returns (changed: bool)
    requires R.Healthy(settings.Snapshot())
    requires action in {SwitchProfile, AddProfile, DuplicateProfile, RenameProfile, DeleteProfile}
    modifies settings
    ensures settings.Valid()
    ensures (settings.Snapshot(), changed) == ActionEffect(old(settings.Snapshot()), action, ProfileEvent(action, profileName), None)
  {
    match action {
      case SwitchProfile =>
        if IsBlank(profileName) {
          return false;
        }
        changed := settings.ActivateProfile(profileName);
      case AddProfile =>
        changed := HandleCreate(settings, profileName, false);
      case DuplicateProfile =>
        changed := HandleCreate(settings, profileName, true);
      case RenameProfile =>
        changed := HandleRename(settings, profileName);
      case DeleteProfile =>
        changed := HandleDelete(settings, profileName);
    }
  }

  /** The event a profile action sends: its name and the typed profile name. */
  function ProfileEvent(action: Action, profileName: string): PageEvent {
    PageEvent(Some(ActionName(action)), profileName, None, "")
  }

  /** The create and duplicate branches. */
  method HandleCreate(settings: S.PlayerSettings, profileName: string, duplicate: bool) returns (changed: bool)
    requires R.Healthy(settings.Snapshot())
    modifies settings
    ensures settings.Valid()
    ensures var action := if duplicate then DuplicateProfile else AddProfile;
            (settings.Snapshot(), changed) == ActionEffect(old(settings.Snapshot()), action, ProfileEvent(action, profileName), None)
  {
    var result := settings.CreateProfile(profileName, duplicate);
    var _ := settings.GetActiveProfileName();
    changed := ProfileActionChanged(result);
  }

  /** The rename branch: the active profile takes the typed name. */
  method HandleRename(settings: S.PlayerSettings, profileName: string) returns (changed: bool)
    requires R.Healthy(settings.Snapshot())
    modifies settings
    ensures settings.Valid()
    ensures (settings.Snapshot(), changed)
            == ActionEffect(old(settings.Snapshot()), RenameProfile, ProfileEvent(RenameProfile, profileName), None)
  {
    var currentName := settings.GetActiveProfileName();
    var result := settings.RenameProfile(currentName, profileName);
    var _ := settings.GetActiveProfileName();
    changed := ProfileActionChanged(result);
  }

  /** The delete branch: a blank name targets the active profile. */
  method HandleDelete(settings: S.PlayerSettings, profileName: string) returns (changed: bool)
    requires R.Healthy(settings.Snapshot())
    modifies settings
    ensures settings.Valid()
    ensures (settings.Snapshot(), changed)
            == ActionEffect(old(settings.Snapshot()), DeleteProfile, ProfileEvent(DeleteProfile, profileName), None)
  {
    var target := profileName;
    if IsBlank(profileName) {
      target := settings.GetActiveProfileName();
    }
    var result := settings.DeleteProfile(target);
    changed := ProfileActionChanged(result);
  }

  /** The add-exact branch for a held, non-empty stack: add its id to the
      active list, then, when auto-trash is enabled, empty the active hotbar
      slot whether or not the list changed. */
  method AddHeldItem(settings: S.PlayerSettings, profile: seq<string>, held: Stack,
                     hotbar: array<Option<Stack>>, activeHotbarSlot: int) returns (changed: bool)
    requires R.Healthy(settings.Snapshot()) && profile == R.ActiveItems(settings.Snapshot())
    requires 0 <= activeHotbarSlot < hotbar.Length
    modifies settings, hotbar
    ensures settings.Valid() && (settings.Snapshot(), changed) == ItemEdit(old(settings.Snapshot()), true, held.itemId)
    ensures hotbar[..] == if settings.enabled then old(hotbar[..])[activeHotbarSlot := None] else old(hotbar[..])
  {
    changed := EditActiveItems(settings, profile, true, held.itemId);
    if settings.enabled {
      RemoveItemStackFromSlot(hotbar, activeHotbarSlot);
    }
  }

  /** The shared body of the add-exact and remove-exact events: hand the
      active list to `updateArray` and write the result back through the
      active profile only when a different array came back. */
  method EditActiveItems(settings: S.PlayerSettings, profile: seq<string>, add: bool, itemId: string) returns (changed: bool)
    requires R.Healthy(settings.Snapshot()) && profile == R.ActiveItems(settings.Snapshot())
    modifies settings
    ensures settings.Valid() && (settings.Snapshot(), changed) == ItemEdit(old(settings.Snapshot()), add, itemId)
  {
    var current := new string[|profile|](j requires 0 <= j < |profile| => profile[j]);
    assert current[..] == profile;
    var updated := UpdateArray(current, add, itemId);
    changed := false;
    if updated != current {
      settings.SetActiveExactItems(updated[..]);
      changed := true;
    }
  }
}
