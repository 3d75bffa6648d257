/** Python's `str.replace` and the facts about it that the tabs rely on:
    which substrings a replacement removes for good and which it cannot
    bring back. */
module Substitute {
  import opened Chars

  /** `q` occurs in `s` as a contiguous substring. */
  predicate Contains(s: string, q: string)
    decreases |s|
  {
    q <= s || (s != [] && Contains(s[1..], q))
  }

  /** `rep` before every character of `s` and once more at the end:
      what `str.replace` does with an empty pattern. */
  function InsertEverywhere(s: string, rep: string): (r: string)
    ensures |r| == |s| + (|s| + 1) * |rep|
  {
    if s == [] then rep else rep + [s[0]] + InsertEverywhere(s[1..], rep)
  }

  /** `s.replace(pat, rep)`: the occurrences of `pat` are found left to right
      without overlapping, and each becomes `rep`. */
  function Replace(s: string, pat: string, rep: string): (r: string)
    decreases |s|
  {
    if pat == [] then InsertEverywhere(s, rep)
    else if pat <= s then rep + Replace(s[|pat|..], pat, rep)
    else if s == [] then []
    else [s[0]] + Replace(s[1..], pat, rep)
  }

  /** A character of `q` that `s` lacks keeps `q` out of `s`. */
  lemma {:induction false} ContainsHasChars(s: string, q: string, k: nat)
    requires k < |q| && Contains(s, q)
    ensures q[k] in s
    decreases |s|
  {
    if q <= s {
      assert s[k] == q[k];
    } else {
      ContainsHasChars(s[1..], q, k);
    }
  }

  /** An occurrence in a suffix is an occurrence in the whole. */
  lemma {:induction false} ContainsInSuffix(s: string, k: nat, q: string)
    requires k <= |s| && Contains(s[k..], q)
    ensures Contains(s, q)
    decreases k
  {
    if k > 0 {
      assert s[1..][k - 1..] == s[k..];
      ContainsInSuffix(s[1..], k - 1, q);
    }
  }

  /** An occurrence in `a + b` that cannot start inside `a` lies in `b`. */
  lemma {:induction false} ContainsAfter(a: string, b: string, q: string)
    requires |q| > 0 && q[0] !in a && Contains(a + b, q)
    ensures Contains(b, q)
    decreases |a|
  {
    if a == [] {
      assert a + b == b;
    } else {
      assert !(q <= a + b) by { assert (a + b)[0] == a[0]; }
      assert (a + b)[1..] == a[1..] + b;
      ContainsAfter(a[1..], b, q);
    }
  }

  /** Replacing a pattern that does not occur changes nothing. */
  lemma {:induction false} ReplaceAbsent(s: string, pat: string, rep: string)
    requires pat != [] && !Contains(s, pat)
    ensures Replace(s, pat, rep) == s
    decreases |s|
  {
    if s != [] {
      ReplaceAbsent(s[1..], pat, rep);
    }
  }

  /** A pattern with a character the text lacks leaves the text unchanged. */
  lemma ReplaceLacking(s: string, pat: string, rep: string, k: nat)
    requires k < |pat| && pat[k] !in s
    ensures Replace(s, pat, rep) == s
  {
    if Contains(s, pat) {
      ContainsHasChars(s, pat, k);
    }
    ReplaceAbsent(s, pat, rep);
  }

  /** An occurrence at the start is replaced, and the scan goes on after it. */
  lemma ReplaceAtMatch(pat: string, rep: string, t: string)
    requires pat != []
    ensures Replace(pat + t, pat, rep) == rep + Replace(t, pat, rep)
  {
    assert pat <= pat + t;
    assert (pat + t)[|pat|..] == t;
  }

  /** A character that does not start an occurrence is kept. */
  lemma ReplaceSkipChar(c: char, t: string, pat: string, rep: string)
    requires pat != [] && !(pat <= [c] + t)
    ensures Replace([c] + t, pat, rep) == [c] + Replace(t, pat, rep)
  {
    assert ([c] + t)[1..] == t;
  }

  /** Replacing a single character by text without it leaves none of it. */
  lemma {:induction false} ReplaceEliminates(s: string, c: char, rep: string)
    requires c !in rep
    ensures c !in Replace(s, [c], rep)
    decreases |s|
  {
    if [c] <= s {
      ReplaceEliminates(s[1..], c, rep);
    } else if s != [] {
      ReplaceEliminates(s[1..], c, rep);
    }
  }

  /** A character found neither in the text nor in the replacement is not in the result. */
  lemma {:induction false} ReplaceKeepsOut(s: string, pat: string, rep: string, c: char)
    requires c !in s && c !in rep
    ensures c !in Replace(s, pat, rep)
    decreases |s|
  {
    if pat == [] {
      InsertKeepsOut(s, rep, c);
    } else if pat <= s {
      ReplaceKeepsOut(s[|pat|..], pat, rep, c);
    } else if s != [] {
      ReplaceKeepsOut(s[1..], pat, rep, c);
    }
  }

  lemma {:induction false} InsertKeepsOut(s: string, rep: string, c: char)
    requires c !in s && c !in rep
    ensures c !in InsertEverywhere(s, rep)
    decreases |s|
  {
    if s != [] {
      InsertKeepsOut(s[1..], rep, c);
    }
  }

  /** Every tail `w[j..]` of `w` that could begin like `rep` is one that `rep`
      and `pat` begin with alike: so a prefix `w` of a replaced text was
      already a prefix of the text before the replacement. */
  predicate PrefixSafe(w: string, pat: string, rep: string)
    requires rep != []
  {
    forall j :: 0 <= j < |w| ==>
      w[j] != rep[0] || (|w| - j <= |rep| && |w| - j <= |pat| && rep[..|w| - j] == pat[..|w| - j])
  }

  lemma {:induction false} ReplacePrefix(t: string, pat: string, rep: string, w: string)
    requires pat != [] && rep != [] && PrefixSafe(w, pat, rep)
    requires w <= Replace(t, pat, rep)
    ensures w <= t
    decreases |t|
  {
    if w == [] {
    } else if pat <= t {
      assert w[0] == rep[0];
      assert w == rep[..|w|];
    } else if t != [] {
      var r := Replace(t[1..], pat, rep);
      assert w[1..] <= r;
      assert PrefixSafe(w[1..], pat, rep) by {
        forall j | 0 <= j < |w[1..]|
          ensures w[1..][j] != rep[0] || (|w[1..]| - j <= |rep| && |w[1..]| - j <= |pat|
                                          && rep[..|w[1..]| - j] == pat[..|w[1..]| - j])
        {
          assert w[1..][j] == w[j + 1];
        }
      }
      ReplacePrefix(t[1..], pat, rep, w[1..]);
    }
  }

  /** After the replacement the pattern no longer occurs, provided the
      replacement can neither contain nor complete a new occurrence. */
  lemma {:induction false} ReplaceRemoves(s: string, pat: string, rep: string)
    requires pat != [] && rep != [] && pat[0] !in rep && PrefixSafe(pat[1..], pat, rep)
    ensures !Contains(Replace(s, pat, rep), pat)
    decreases |s|
  {
    var out := Replace(s, pat, rep);
    if pat <= s {
      var rest := Replace(s[|pat|..], pat, rep);
      ReplaceRemoves(s[|pat|..], pat, rep);
      if Contains(out, pat) {
        ContainsAfter(rep, rest, pat);
      }
    } else if s != [] {
      var rest := Replace(s[1..], pat, rep);
      ReplaceRemoves(s[1..], pat, rep);
      assert out[1..] == rest;
      if pat <= out {
        assert pat[1..] <= rest;
        ReplacePrefix(s[1..], pat, rep, pat[1..]);
      }
    }
  }

  /** A replacement does not create an occurrence of `q` when its output
      cannot start or complete one. */
  lemma {:induction false} ReplacePreserves(s: string, pat: string, rep: string, q: string)
    requires pat != [] && rep != [] && q != [] && q[0] !in rep && PrefixSafe(q[1..], pat, rep)
    requires !Contains(s, q)
    ensures !Contains(Replace(s, pat, rep), q)
    decreases |s|
  {
    var out := Replace(s, pat, rep);
    if pat <= s {
      var rest := Replace(s[|pat|..], pat, rep);
      if Contains(s[|pat|..], q) {
        ContainsInSuffix(s, |pat|, q);
      }
      ReplacePreserves(s[|pat|..], pat, rep, q);
      if Contains(out, q) {
        ContainsAfter(rep, rest, q);
      }
    } else if s != [] {
      var rest := Replace(s[1..], pat, rep);
      assert Contains(s[1..], q) ==> Contains(s, q);
      ReplacePreserves(s[1..], pat, rep, q);
      assert out[1..] == rest;
      if q <= out {
        assert q[1..] <= rest;
        ReplacePrefix(s[1..], pat, rep, q[1..]);
      }
    }
  }
}
