/** Python's `s.split()` with no argument: the maximal runs of
    non-whitespace characters, in order. */
module Whitespace {
  import opened Chars
  import opened Pieces

  /** Length of the run of non-whitespace characters that starts `s`. */
  function WordLen(s: string): (n: nat)
    ensures n <= |s|
    ensures NoSpace(s[..n])
    ensures n == |s| || IsSpace(s[n])
  {
    if s == [] || IsSpace(s[0]) then 0
    else
      var n := WordLen(s[1..]);
      assert s[..n + 1] == [s[0]] + s[1..][..n];
      n + 1
  }

  /** `s.split()`. */
  function Words(s: string): (ws: seq<string>)
    ensures AreWords(ws)
    decreases |s|
  {
    if s == [] then []
    else if IsSpace(s[0]) then Words(s[1..])
    else
      var n := WordLen(s);
      [s[..n]] + Words(s[n..])
  }

  /** Words made of non-whitespace characters, as `split()` returns them. */
  predicate AreWords(ws: seq<string>) {
    forall i :: 0 <= i < |ws| ==> ws[i] != [] && NoSpace(ws[i])
  }

  lemma {:induction false} WordLenOf(w: string, rest: string)
    requires NoSpace(w) && (rest == [] || IsSpace(rest[0]))
    ensures WordLen(w + rest) == |w|
    decreases |w|
  {
    if w != [] {
      assert (w + rest)[1..] == w[1..] + rest;
      WordLenOf(w[1..], rest);
    }
  }

  /** `split()` undoes `" ".join` on words. */
  lemma {:induction false} WordsOfJoin(ws: seq<string>)
    requires AreWords(ws)
    ensures Words(Join(ws, " ")) == ws
    decreases |ws|
  {
    if ws == [] {
    } else if |ws| == 1 {
      WordLenOf(ws[0], []);
      assert ws[0] + [] == ws[0];
      assert ws[0][|ws[0]|..] == [];
    } else {
      var j := Join(ws[1..], " ");
      var s := ws[0] + " " + j;
      assert Join(ws, " ") == s;
      WordLenOf(ws[0], " " + j);
      assert ws[0] + (" " + j) == s;
      assert s[..|ws[0]|] == ws[0];
      assert s[|ws[0]|..] == " " + j;
      assert (" " + j)[1..] == j;
      WordsOfJoin(ws[1..]);
      assert Words(s[|ws[0]|..]) == Words(j);
      assert [ws[0]] + ws[1..] == ws;
    }
  }

  /** `" ".join` of words neither starts nor ends with whitespace. */
  lemma {:induction false} JoinWordsEnds(ws: seq<string>)
    requires AreWords(ws)
    ensures var s := Join(ws, " "); s == [] || (!IsSpace(s[0]) && !IsSpace(s[|s| - 1]))
    decreases |ws|
  {
    if |ws| > 1 {
      var j := Join(ws[1..], " ");
      JoinWordsEnds(ws[1..]);
      var s := ws[0] + " " + j;
      assert s[0] == ws[0][0];
      assert j != [] by { assert ws[1..][0] <= j; }
      assert s[|s| - 1] == j[|j| - 1];
    }
  }

  /** Appending text to the joined words extends the last word. */
  lemma {:induction false} JoinExtendLast(ws: seq<string>, x: string)
    requires |ws| >= 1
    ensures Join(ws[..|ws| - 1] + [ws[|ws| - 1] + x], " ") == Join(ws, " ") + x
    decreases |ws|
  {
    var vs := ws[..|ws| - 1] + [ws[|ws| - 1] + x];
    if |ws| > 1 {
      JoinExtendLast(ws[1..], x);
      assert vs[0] == ws[0];
      assert vs[1..] == ws[1..][..|ws[1..]| - 1] + [ws[1..][|ws[1..]| - 1] + x];
    }
  }

  /** `gaps[0] + ws[0] + gaps[1] + ws[1] + ... + ws[n - 1] + gaps[n]`:
      words woven between the runs of text around them. */
  function Weave(gaps: seq<string>, ws: seq<string>): string
    requires |gaps| == |ws| + 1
    decreases |ws|
  {
    if ws == [] then gaps[0] else gaps[0] + ws[0] + Weave(gaps[1..], ws[1..])
  }

  /** Runs of whitespace that can sit around words: the runs between two
      words are not empty, the first and the last may be. */
  predicate Spacing(gaps: seq<string>) {
    && (forall i :: 0 <= i < |gaps| ==> AllSpace(gaps[i]))
    && (forall i :: 0 < i < |gaps| - 1 ==> gaps[i] != [])
  }

  /** The whitespace runs around the words of `s`. */
  function Gaps(s: string): (gaps: seq<string>)
    ensures |gaps| == |Words(s)| + 1
    decreases |s|
  {
    if s == [] then [[]]
    else if IsSpace(s[0]) then
      var g := Gaps(s[1..]);
      [[s[0]] + g[0]] + g[1..]
    else [[]] + Gaps(s[WordLen(s)..])
  }

  /** Every text is its words woven between whitespace runs, with at least
      one whitespace character between two words: the words are the
      maximal runs of non-whitespace characters. */
  lemma {:induction false} WeaveGaps(s: string)
    ensures Spacing(Gaps(s))
    ensures Weave(Gaps(s), Words(s)) == s
    decreases |s|
  {
    if s == [] {
    } else if IsSpace(s[0]) {
      WeaveGaps(s[1..]);
      WeaveSpaceHead(s[0], Gaps(s[1..]), Words(s[1..]));
      assert [s[0]] + s[1..] == s;
    } else {
      var n := WordLen(s);
      var t := s[n..];
      WeaveGaps(t);
      GapsHead(t);
      SpacingWordHead(Gaps(t));
      WeaveWordHead(s[..n], Gaps(t), Words(t));
      assert s[..n] + t == s;
    }
  }

  /** The step of `WeaveGaps` past a whitespace character. */
  lemma WeaveSpaceHead(c: char, g: seq<string>, ws: seq<string>)
    requires IsSpace(c) && |g| == |ws| + 1 && Spacing(g)
    ensures Spacing([[c] + g[0]] + g[1..])
    ensures Weave([[c] + g[0]] + g[1..], ws) == [c] + Weave(g, ws)
  {
    SpacingSpaceHead(c, g);
    var h := [[c] + g[0]] + g[1..];
    assert h[1..] == g[1..];
    if ws != [] {
      assert Weave(h, ws) == h[0] + ws[0] + Weave(g[1..], ws[1..]);
      assert Weave(g, ws) == g[0] + ws[0] + Weave(g[1..], ws[1..]);
    }
  }

  lemma SpacingSpaceHead(c: char, g: seq<string>)
    requires IsSpace(c) && |g| >= 1 && Spacing(g)
    ensures Spacing([[c] + g[0]] + g[1..])
  {
    var h := [[c] + g[0]] + g[1..];
    assert AllSpace(h[0]) by {
      assert AllSpace(g[0]);
      forall k | 0 <= k < |h[0]| ensures IsSpace(h[0][k]) {
        if k > 0 { assert h[0][k] == g[0][k - 1]; }
      }
    }
    assert forall i :: 0 < i < |h| ==> h[i] == g[i];
  }

  /** The step of `WeaveGaps` past a word. */
  lemma WeaveWordHead(w: string, g: seq<string>, ws: seq<string>)
    requires |g| == |ws| + 1
    ensures Weave([[]] + g, [w] + ws) == w + Weave(g, ws)
  {
    var h, vs := [[]] + g, [w] + ws;
    assert h[1..] == g && vs[1..] == ws;
    assert Weave(h, vs) == h[0] + vs[0] + Weave(h[1..], vs[1..]);
    assert h[0] + vs[0] == w;
  }

  lemma SpacingWordHead(g: seq<string>)
    requires Spacing(g) && (|g| > 1 ==> g[0] != [])
    ensures Spacing([[]] + g)
  {
    var h := [[]] + g;
    assert AllSpace(h[0]);
    assert forall i :: 0 < i < |h| ==> h[i] == g[i - 1];
  }

  /** After a word, the first run of whitespace is not empty when another
      word follows. */
  lemma GapsHead(t: string)
    requires t == [] || IsSpace(t[0])
    ensures |Gaps(t)| > 1 ==> Gaps(t)[0] != []
  {
  }

  /** Leading whitespace does not change the words. */
  lemma {:induction false} WordsAfterSpace(g: string, t: string)
    requires AllSpace(g)
    ensures Words(g + t) == Words(t)
    decreases |g|
  {
    if g != [] {
      assert (g + t)[0] == g[0] && IsSpace(g[0]) && (g + t)[1..] == g[1..] + t;
      assert AllSpace(g[1..]) by {
        assert forall k :: 0 <= k < |g| - 1 ==> g[1..][k] == g[k + 1];
      }
      WordsAfterSpace(g[1..], t);
    } else {
      assert g + t == t;
    }
  }

  /** Conversely, words woven between whitespace runs, with at least one
      whitespace character between two words, are what `split()` returns. */
  lemma {:induction false} WordsOfWeave(gaps: seq<string>, ws: seq<string>)
    requires |gaps| == |ws| + 1 && AreWords(ws) && Spacing(gaps)
    ensures Words(Weave(gaps, ws)) == ws
    decreases |ws|
  {
    if ws == [] {
      WordsAfterSpace(gaps[0], []);
      assert gaps[0] + [] == gaps[0];
    } else {
      var w, rest := ws[0], Weave(gaps[1..], ws[1..]);
      assert Spacing(gaps[1..]) by {
        assert forall i :: 0 <= i < |gaps| - 1 ==> gaps[1..][i] == gaps[i + 1];
      }
      assert AreWords(ws[1..]) by {
        assert forall i :: 0 <= i < |ws| - 1 ==> ws[1..][i] == ws[i + 1];
      }
      WordsOfWeave(gaps[1..], ws[1..]);
      assert AllSpace(rest[..0]);
      assert rest == [] || IsSpace(rest[0]) by {
        if |ws| > 1 {
          assert gaps[1] != [] && AllSpace(gaps[1]);
          assert rest[0] == gaps[1][0];
        } else {
          assert rest == gaps[1];
        }
      }
      WordsAfterSpace(gaps[0], w + rest);
      assert gaps[0] + w + rest == gaps[0] + (w + rest);
      WordLenOf(w, rest);
      assert (w + rest)[..|w|] == w && (w + rest)[|w|..] == rest;
      assert !IsSpace((w + rest)[0]);
      assert [w] + ws[1..] == ws;
    }
  }
}
