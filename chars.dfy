/** Character classes and the `str.strip` of the tabs, restricted to ASCII.

    Python's `\s`, `str.strip()` and `str.split()` treat a character as
    whitespace when `str.isspace()` holds; its ASCII members are listed in
    `IsSpace`. `\d`, `\w` and `[A-Za-z]` are taken on ASCII only, which is
    exact for the receipt parser (its input is made ASCII first). */
module Chars {

  predicate IsSpace(c: char) {
    c == ' ' || c == '\t' || c == '\n' || c == '\r' || c == '\U{B}' || c == '\U{C}'
    || ('\U{1C}' <= c <= '\U{1F}')
  }

  predicate IsDigit(c: char) { '0' <= c <= '9' }

  predicate IsLetter(c: char) { ('a' <= c <= 'z') || ('A' <= c <= 'Z') }

  /** The regex word class `\w` on ASCII: letters, digits and underscore. */
  predicate IsWord(c: char) { IsLetter(c) || IsDigit(c) || c == '_' }

  predicate IsAscii(c: char) { c as int < 128 }

  /** ASCII case folding, as `(?i)` does on ASCII text. */
  function Lower(c: char): (d: char)
    ensures IsAscii(c) ==> IsAscii(d)
    ensures ('A' <= c <= 'Z') ==> d as int == c as int + 32
    ensures !('A' <= c <= 'Z') ==> d == c
  {
    if 'A' <= c <= 'Z' then (c as int + 32) as char else c
  }

  predicate AllDigits(s: string) { forall k :: 0 <= k < |s| ==> IsDigit(s[k]) }

  predicate AllAscii(s: string) { forall k :: 0 <= k < |s| ==> IsAscii(s[k]) }

  predicate AllSpace(s: string) { forall k :: 0 <= k < |s| ==> IsSpace(s[k]) }

  predicate NoSpace(s: string) { forall k :: 0 <= k < |s| ==> !IsSpace(s[k]) }

  /** The index of the first non-whitespace character at or after `i`, or `|s|`. */
  function SkipSpace(s: string, i: nat): (j: nat)
    requires i <= |s|
    ensures i <= j <= |s|
    ensures forall k :: i <= k < j ==> IsSpace(s[k])
    ensures j == |s| || !IsSpace(s[j])
    decreases |s| - i
  {
    if i < |s| && IsSpace(s[i]) then SkipSpace(s, i + 1) else i
  }

  /** The index just after the last non-whitespace character before `j`, or 0. */
  function SkipSpaceBack(s: string, j: nat): (i: nat)
    requires j <= |s|
    ensures i <= j
    ensures forall k :: i <= k < j ==> IsSpace(s[k])
    ensures i == 0 || !IsSpace(s[i - 1])
  {
    if j > 0 && IsSpace(s[j - 1]) then SkipSpaceBack(s, j - 1) else j
  }

  /** Python's `s.strip()`: the part of `s` between the first and the last
      non-whitespace character. */
  function Strip(s: string): (r: string)
  {
    var a := SkipSpace(s, 0);
    var b := SkipSpaceBack(s, |s|);
    if a < b then s[a..b] else []
  }

  /** `Strip` keeps the slice between the leading and the trailing whitespace. */
  lemma StripSlice(s: string)
    ensures exists i :: (0 <= i <= |s| - |Strip(s)| && Strip(s) == s[i..i + |Strip(s)|]
                        && AllSpace(s[..i]) && AllSpace(s[i + |Strip(s)|..]))
  {
    var a := SkipSpace(s, 0);
    var b := SkipSpaceBack(s, |s|);
    if a < b {
      assert Strip(s) == s[a..b];
      assert AllSpace(s[..a]);
      assert AllSpace(s[b..]);
    } else {
      assert AllSpace(s[..0]) && s[0..] == s;
    }
  }

  /** `Strip` yields the empty string exactly for an all-whitespace input. */
  lemma StripEmpty(s: string)
    ensures Strip(s) == [] <==> AllSpace(s)
  {
    var a := SkipSpace(s, 0);
    if a < SkipSpaceBack(s, |s|) {
      assert !IsSpace(s[a]);
    }
  }

  /** What `Strip` keeps starts and ends with non-whitespace. */
  lemma StripEnds(s: string)
    ensures Strip(s) == [] || (!IsSpace(Strip(s)[0]) && !IsSpace(Strip(s)[|Strip(s)| - 1]))
  {
    var a := SkipSpace(s, 0);
    var b := SkipSpaceBack(s, |s|);
    if a < b {
      assert Strip(s)[0] == s[a];
      assert Strip(s)[|Strip(s)| - 1] == s[b - 1];
    }
  }

  /** `Strip` removes only whitespace, from both ends, and leaves none there;
      it yields the empty string exactly for an all-whitespace input. */
  lemma StripSpec(s: string)
    ensures exists i :: (0 <= i <= |s| - |Strip(s)| && Strip(s) == s[i..i + |Strip(s)|]
                        && AllSpace(s[..i]) && AllSpace(s[i + |Strip(s)|..]))
    ensures Strip(s) == [] || (!IsSpace(Strip(s)[0]) && !IsSpace(Strip(s)[|Strip(s)| - 1]))
    ensures Strip(s) == [] <==> AllSpace(s)
  {
    StripSlice(s);
    StripEnds(s);
    StripEmpty(s);
  }

  /** Stripping text that already has no whitespace at either end changes nothing. */
  lemma StripUnchanged(s: string)
    requires s == [] || (!IsSpace(s[0]) && !IsSpace(s[|s| - 1]))
    ensures Strip(s) == s
  {
  }
}
