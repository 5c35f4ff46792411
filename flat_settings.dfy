/**
 * The single-list per-player settings record of the root package: two flags
 * and one array of exact item ids. This is the record the inventory matcher
 * reads its rules from.
 */
module FlatSettings {

  class PlayerSettings {
    var enabled: bool
    var notify: bool
    var exactItems: array<string>

    /** A fresh record: enabled, notifying, no rules. */
    constructor ()
      ensures enabled && notify
      ensures fresh(exactItems) && exactItems.Length == 0
    {
      enabled := true;
      notify := true;
      exactItems := new string[0];
    }

    method SetEnabled(enabled: bool)
      modifies this
      ensures this.enabled == enabled
      ensures notify == old(notify) && exactItems == old(exactItems)
    {
      this.enabled := enabled;
    }

    method SetNotify(notify: bool)
      modifies this
      ensures this.notify == notify
      ensures enabled == old(enabled) && exactItems == old(exactItems)
    {
      this.notify := notify;
    }

    /** `getExactItems` hands out the stored array itself, not a copy. */
    method GetExactItems() returns (items: array<string>)
      ensures items == exactItems
    {
      items := exactItems;
    }

    /** Stores a copy of `items` (none for null): the caller keeps its own array,
        and later writes to it do not reach the settings. */
    method SetExactItems(items: array?<string>)
      modifies this
      ensures fresh(exactItems)
      ensures exactItems[..] == if items == null then [] else items[..]
      ensures enabled == old(enabled) && notify == old(notify)
    {
      if items == null {
        exactItems := new string[0];
      } else {
        exactItems := CopyOf(items);
      }
    }

    /** A new record with the same flags and its own array of the same ids. */
    method Copy() returns (settings: PlayerSettings)
      ensures fresh(settings) && fresh(settings.exactItems)
      ensures settings.enabled == enabled && settings.notify == notify
      ensures settings.exactItems[..] == exactItems[..]
    {
      settings := new PlayerSettings();
      settings.enabled := enabled;
      settings.notify := notify;
      settings.exactItems := CopyOf(exactItems);
    }

    /** `clone`: a field-by-field copy whose array is then replaced by a copy,
        so it shares nothing mutable with this record. Should the library's
        clone be refused, the source falls back to `Copy`, which yields an
        equal record, so both paths end in the same state. */
    method Clone() returns (settings: PlayerSettings)
      ensures fresh(settings) && fresh(settings.exactItems)
      ensures settings.enabled == enabled && settings.notify == notify
      ensures settings.exactItems[..] == exactItems[..]
    {
      settings := new PlayerSettings();
      settings.enabled, settings.notify, settings.exactItems := enabled, notify, exactItems;
      settings.exactItems := CopyOf(exactItems);
    }
  }

  /** `Arrays.copyOf(a, a.length)`. */
  method CopyOf(a: array<string>) returns (b: array<string>)
    ensures fresh(b) && b[..] == a[..]
  {
    b := new string[a.Length];
    for i := 0 to a.Length
      invariant b[..i] == a[..i]
    {
      b[i] := a[i];
    }
  }
}
