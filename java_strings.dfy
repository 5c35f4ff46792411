/**
 * The two string tests the plugin uses on profile names: `String.isBlank`
 * (every character is Java whitespace) and `String.trim` (drop leading and
 * trailing characters whose code is at most U+0020). They disagree on some
 * inputs, which is why the profile store applies both.
 */
module JavaStrings {

  /** `Character.isWhitespace`: the ASCII controls 9-13 and 28-31, the space,
      and the Unicode space, line and paragraph separators other than the
      three non-breaking spaces. */
  predicate IsWhitespace(c: char) {
    var n := c as int;
    (9 <= n <= 13) || (28 <= n <= 32) || n == 0x1680 ||
    (0x2000 <= n <= 0x2006) || (0x2008 <= n <= 0x200A) ||
    n == 0x2028 || n == 0x2029 || n == 0x205F || n == 0x3000
  }

  /** `String.isBlank`: empty, or whitespace only. */
  predicate IsBlank(s: string) {
    forall i :: 0 <= i < |s| ==> IsWhitespace(s[i])
  }

  /** The characters `String.trim` strips: every code up to and including the space. */
  predicate IsTrimmable(c: char) {
    c <= ' '
  }

  /** Drops trimmable characters from the front. */
  function TrimStart(s: string): (r: string)
    ensures |r| <= |s| && r == s[|s| - |r|..]
    ensures forall i :: 0 <= i < |s| - |r| ==> IsTrimmable(s[i])
    ensures r == [] || !IsTrimmable(r[0])
  {
    if s != [] && IsTrimmable(s[0]) then TrimStart(s[1..]) else s
  }

  /** Drops trimmable characters from the back. */
  function TrimEnd(s: string): (r: string)
    ensures |r| <= |s| && r == s[..|r|]
    ensures forall i :: |r| <= i < |s| ==> IsTrimmable(s[i])
    ensures r == [] || !IsTrimmable(r[|r| - 1])
  {
    if s != [] && IsTrimmable(s[|s| - 1]) then TrimEnd(s[..|s| - 1]) else s
  }

  /** How many characters `String.trim` drops from the front of `s`. */
  function TrimOffset(s: string): (n: nat)
    ensures n <= |s|
  {
    |s| - |TrimStart(s)|
  }

  /** `String.trim`: the slice of `s` that starts at `TrimOffset(s)`, with
      only trimmable characters outside it and none at either of its ends. */
  function Trim(s: string): (r: string)
    ensures TrimOffset(s) + |r| <= |s| && r == s[TrimOffset(s)..TrimOffset(s) + |r|]
    ensures forall i :: 0 <= i < TrimOffset(s) ==> IsTrimmable(s[i])
    ensures forall i :: TrimOffset(s) + |r| <= i < |s| ==> IsTrimmable(s[i])
    ensures r == [] || (!IsTrimmable(r[0]) && !IsTrimmable(r[|r| - 1]))
  {
    var front := TrimStart(s);
    var r := TrimEnd(front);
    forall i | TrimOffset(s) + |r| <= i < |s| ensures IsTrimmable(s[i]) {
      assert s[i] == front[i - TrimOffset(s)];
    }
    r
  }

  /** A string trims to nothing exactly when every character is trimmable. */
  lemma {:induction false} TrimEmptyIff(s: string)
    ensures Trim(s) == [] <==> forall i :: 0 <= i < |s| ==> IsTrimmable(s[i])
  {
    var r := Trim(s);
    var lo := TrimOffset(s);
    if r == [] {
      forall i | 0 <= i < |s| ensures IsTrimmable(s[i]) {
        if i >= lo { assert lo + |r| <= i; }
      }
    } else {
      assert s[lo] == r[0];
    }
  }

  /** Trimming is idempotent: a name stored trimmed compares equal to its own trim. */
  lemma TrimIdempotent(s: string)
    ensures Trim(Trim(s)) == Trim(s)
  {
    var r := Trim(s);
    if r != [] {
      assert TrimStart(r) == r;
      assert TrimEnd(r) == r;
    }
  }

  /** The two tests differ in both directions: a NUL character is not blank
      yet trims to nothing, and an em space is blank yet survives `trim`. */
  lemma BlankAndTrimDiffer()
    ensures !IsBlank("\0") && Trim("\0") == []
    ensures IsBlank("\U{2003}") && Trim("\U{2003}") == "\U{2003}"
  {
    var nul, em := "\0", "\U{2003}";
    assert !IsWhitespace(nul[0]);
    assert TrimStart(nul[1..]) == [];
    assert TrimStart(nul) == [];
    assert IsWhitespace(em[0]) && !IsTrimmable(em[0]);
    assert TrimStart(em) == em;
    assert TrimEnd(em) == em;
  }
}
