/**
 * The two string operations the store relies on:
 * `trimmingCharacters(in: .whitespacesAndNewlines)` and `lowercased()`.
 */
module Text {

  /** Membership in the Unicode White_Space property, the character set that
      `.whitespacesAndNewlines` denotes. */
  predicate IsWhitespace(c: char) {
    var n := c as int;
    || (0x09 <= n <= 0x0D)
    || n == 0x20
    || n == 0x85
    || n == 0xA0
    || n == 0x1680
    || (0x2000 <= n <= 0x200A)
    || n == 0x2028
    || n == 0x2029
    || n == 0x202F
    || n == 0x205F
    || n == 0x3000
  }

  /** True iff `s` is empty or made only of whitespace, i.e. trims to "". */
  predicate AllWhitespace(s: string) {
    forall i :: 0 <= i < |s| ==> IsWhitespace(s[i])
  }

  /** True iff `s` neither starts nor ends with whitespace. */
  predicate IsTrimmed(s: string) {
    s == [] || (!IsWhitespace(s[0]) && !IsWhitespace(s[|s| - 1]))
  }

  /** Drops the leading whitespace run: the result is the suffix of `s`
      that starts at its first non-whitespace character. */
  function TrimLeading(s: string): (r: string)
    ensures |r| <= |s| && r == s[|s| - |r|..]
    ensures AllWhitespace(s[..|s| - |r|])
    ensures r == [] || !IsWhitespace(r[0])
  {
    if |s| > 0 && IsWhitespace(s[0]) then
      var r := TrimLeading(s[1..]);
      assert s[..|s| - |r|] == [s[0]] + s[1..][..|s| - 1 - |r|];
      r
    else
      s
  }

  /** Drops the trailing whitespace run: the result is the prefix of `s`
      that ends at its last non-whitespace character. */
  function TrimTrailing(s: string): (r: string)
    ensures |r| <= |s| && r == s[..|r|]
    ensures AllWhitespace(s[|r|..])
    ensures r == [] || !IsWhitespace(r[|r| - 1])
  {
    if |s| > 0 && IsWhitespace(s[|s| - 1]) then
      var r := TrimTrailing(s[..|s| - 1]);
      assert s[|r|..] == s[..|s| - 1][|r|..] + [s[|s| - 1]];
      r
    else
      s
  }

  /** `s.trimmingCharacters(in: .whitespacesAndNewlines)`: what is left of `s`
      once a whitespace run at its start and one at its end are cut off; no
      whitespace at either end, empty exactly when `s` is blank. */
  function Trim(s: string): (r: string)
    ensures |r| <= |s|
    ensures exists a, b :: 0 <= a <= b <= |s| && r == s[a..b] && AllWhitespace(s[..a]) && AllWhitespace(s[b..])
    ensures r == [] <==> AllWhitespace(s)
    ensures IsTrimmed(r)
    ensures IsTrimmed(s) ==> r == s
  {
    TrimIsMiddleSlice(s);
    TrimKeepsTrimmed(s);
    TrimTrailing(TrimLeading(s))
  }

  /** The two cuts keep the slice of `s` between a whitespace run at its start
      and one at its end; nothing is left exactly when `s` is blank, and the
      slice neither starts nor ends with whitespace. */
  lemma TrimIsMiddleSlice(s: string)
    ensures exists a, b :: 0 <= a <= b <= |s| && TrimTrailing(TrimLeading(s)) == s[a..b] && AllWhitespace(s[..a]) && AllWhitespace(s[b..])
    ensures TrimTrailing(TrimLeading(s)) == [] <==> AllWhitespace(s)
    ensures IsTrimmed(TrimTrailing(TrimLeading(s)))
  {
    var left := TrimLeading(s);
    CutsCompose(s, |s| - |left|, left, TrimTrailing(left));
  }

  /** Neither cut touches a string that is already trimmed. */
  lemma TrimKeepsTrimmed(s: string)
    ensures IsTrimmed(s) ==> TrimTrailing(TrimLeading(s)) == s
  {
  }

  /** Cutting a whitespace run off the front of `s` (leaving `left`, from
      position `a` on) and then one off the back of `left` (leaving `r`) keeps
      the slice `s[a..a + |r|]`; `r` is empty exactly when `s` is blank, and
      has whitespace at neither end. */
  lemma CutsCompose(s: string, a: nat, left: string, r: string)
    requires a <= |s| && left == s[a..] && AllWhitespace(s[..a])
    requires left == [] || !IsWhitespace(left[0])
    requires |r| <= |left| && r == left[..|r|] && AllWhitespace(left[|r|..])
    requires r == [] || !IsWhitespace(r[|r| - 1])
    ensures exists i, j :: 0 <= i <= j <= |s| && r == s[i..j] && AllWhitespace(s[..i]) && AllWhitespace(s[j..])
    ensures r == [] <==> AllWhitespace(s)
    ensures IsTrimmed(r)
  {
    var b := a + |r|;
    assert r == s[a..b];
    assert s[b..] == left[|r|..];
    BlankSplit(s, a);
    if r != [] {
      assert r[0] == left[0];
    }
  }

  /** A string is blank exactly when both halves of any split of it are. */
  lemma BlankSplit(s: string, k: nat)
    requires k <= |s|
    ensures AllWhitespace(s) <==> AllWhitespace(s[..k]) && AllWhitespace(s[k..])
  {
  }

  /** The character mapping of `lowercased()` on the ASCII range; every other
      character is left as it is. */
  function LowerChar(c: char): char {
    if 'A' <= c <= 'Z' then (c as int + 32) as char else c
  }

  /** `s.lowercased()`, character by character. */
  function Lower(s: string): (r: string)
    ensures |r| == |s|
    ensures forall i :: 0 <= i < |s| ==> r[i] == LowerChar(s[i])
  {
    if s == [] then [] else [LowerChar(s[0])] + Lower(s[1..])
  }

  /** Trimming an already trimmed title changes nothing. */
  lemma TrimIdempotent(s: string)
    ensures Trim(Trim(s)) == Trim(s)
  {
  }

  /** Leading whitespace does not survive trimming. */
  lemma TrimSkipsLeadingWhitespace(c: char, s: string)
    requires IsWhitespace(c)
    ensures Trim([c] + s) == Trim(s)
  {
    assert ([c] + s)[1..] == s;
  }

  /** A trimmed, non-blank title is never blank again: what `add` stores passes
      `add`'s own emptiness guard. */
  lemma TrimmedNonEmptyIsNotBlank(s: string)
    requires Trim(s) != []
    ensures !AllWhitespace(Trim(s))
  {
  }

  /** Lower-casing is idempotent. */
  lemma LowerIdempotent(s: string)
    ensures Lower(Lower(s)) == Lower(s)
  {
  }
}
