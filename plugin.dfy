/**
 * The plugin's rule configuration: the default rules and the normalisation
 * that trims every configured entry in place before the rules are handed to
 * the matcher.
 */
module Plugin {
  import opened Wrappers
  import opened JavaStrings

  /** A configured entry after normalisation: a null entry stays null, any
      other is trimmed. */
  function NormalizedEntry(value: Option<string>): (r: Option<string>)
    ensures r.Some? <==> value.Some?
    ensures r.Some? ==> |r.value| <= |value.value| && (r.value == [] <==> forall k :: 0 <= k < |value.value| ==> IsTrimmable(value.value[k]))
  {
    match value
    case None => None
    case Some(s) => Some(Trim(s))
  }

  /** A whole rule list after normalisation, entry by entry. */
  function Normalized(values: seq<Option<string>>): (r: seq<Option<string>>)
    ensures |r| == |values|
  {
    seq(|values|, i requires 0 <= i < |values| => NormalizedEntry(values[i]))
  }

  /** Normalising twice is normalising once. */
  lemma NormalizeIdempotent(values: seq<Option<string>>)
    ensures Normalized(Normalized(values)) == Normalized(values)
  {
    forall i | 0 <= i < |values|
      ensures Normalized(Normalized(values))[i] == Normalized(values)[i]
    {
      if values[i].Some? {
        TrimIdempotent(values[i].value);
      }
    }
  }

  /** After normalisation no entry starts or ends with a character `trim`
      strips, null entries are exactly where they were, and an entry is empty
      exactly when the original held only such characters. */
  lemma NormalizedEntriesAreTrimmed(values: seq<Option<string>>)
    ensures forall i :: 0 <= i < |values| ==> (Normalized(values)[i].None? <==> values[i].None?)
    ensures forall i :: 0 <= i < |values| && Normalized(values)[i].Some? && Normalized(values)[i].value != [] ==>
              var s := Normalized(values)[i].value;
              !IsTrimmable(s[0]) && !IsTrimmable(s[|s| - 1])
    ensures forall i :: 0 <= i < |values| && values[i].Some? ==>
              (Normalized(values)[i] == Some([]) <==> forall k :: 0 <= k < |values[i].value| ==> IsTrimmable(values[i].value[k]))
  {
    forall i | 0 <= i < |values| && values[i].Some?
      ensures Normalized(values)[i] == Some([]) <==> forall k :: 0 <= k < |values[i].value| ==> IsTrimmable(values[i].value[k])
    {
      TrimEmptyIff(values[i].value);
    }
  }

  /** `normalizeList`: a null list becomes a new empty array; otherwise each
      non-null entry is replaced by its trimmed form in place and the same
      array is returned. */
  method NormalizeList(values: array?<Option<string>>) returns (r: array<Option<string>>)
    modifies values
    ensures values == null ==> fresh(r) && r.Length == 0
    ensures values != null ==> r == values && r[..] == Normalized(old(values[..]))
  {
    if values == null {
      return new Option<string>[0];
    }
    for i := 0 to values.Length
      invariant forall k :: 0 <= k < i ==> values[k] == NormalizedEntry(old(values[k]))
      invariant forall k :: i <= k < values.Length ==> values[k] == old(values[k])
    {
      var value := values[i];
      if value.Some? {
        values[i] := Some(Trim(value.value));
      }
    }
    return values;
  }

  /** `AutoTrashRules`: the exact-id and substring rule lists as the
      configuration loads them; either may be null. */
  class AutoTrashRules {
    var exactItems: array?<Option<string>>
    var containsItems: array?<Option<string>>

    /** The defaults: one exact rule, raw wild meat, and no substring rules. */
    constructor ()
      ensures exactItems != null && containsItems != null && exactItems != containsItems
      ensures exactItems[..] == [Some("Food_Wildmeat_Raw")] && containsItems[..] == []
      ensures fresh(exactItems) && fresh(containsItems)
    {
      exactItems := new Option<string>[1](_ => Some("Food_Wildmeat_Raw"));
      containsItems := new Option<string>[0];
    }

    /** `setExactItems`: stores the reference it is given. */
    method SetExactItems(items: array?<Option<string>>)
      modifies this
      ensures exactItems == items && containsItems == old(containsItems)
    {
      exactItems := items;
    }

    /** `setContainsItems`: stores the reference it is given. */
    method SetContainsItems(items: array?<Option<string>>)
      modifies this
      ensures containsItems == items && exactItems == old(exactItems)
    {
      containsItems := items;
    }
  }

  /** `normalizeRules`: normalise both lists and return the same rules
      object. Both lists end up non-null; a list that was present keeps its
      array, with every entry trimmed, even when the two fields share one
      array. */
  method NormalizeRules(rules: AutoTrashRules) returns (r: AutoTrashRules)
    modifies rules, rules.exactItems, rules.containsItems
    ensures r == rules && rules.exactItems != null && rules.containsItems != null
    ensures old(rules.exactItems) == null ==> fresh(rules.exactItems) && rules.exactItems[..] == []
    ensures old(rules.exactItems) != null ==>
              rules.exactItems == old(rules.exactItems) && rules.exactItems[..] == Normalized(old(rules.exactItems[..]))
    ensures old(rules.containsItems) == null ==> fresh(rules.containsItems) && rules.containsItems[..] == []
    ensures old(rules.containsItems) != null ==>
              rules.containsItems == old(rules.containsItems) && rules.containsItems[..] == Normalized(old(rules.containsItems[..]))
  {
    var exact := NormalizeList(rules.exactItems);
    rules.SetExactItems(exact);
    var contains := NormalizeList(rules.containsItems);
    rules.SetContainsItems(contains);
    if old(rules.exactItems) != null && old(rules.exactItems) == old(rules.containsItems) {
      // One array behind both fields is normalised twice.
      NormalizeIdempotent(old(rules.exactItems[..]));
    }
    return rules;
  }
}
