/** Python's `s.split(sep)` with a non-empty separator and `sep.join(pieces)`,
    with the round trips between them that the tabs depend on. */
module Pieces {
  import opened Substitute

  /** `s.split(sep)`: the text between the occurrences of `sep`, found left
      to right without overlapping. There is always at least one piece. */
  function Split(s: string, sep: string): (r: seq<string>)
    requires sep != []
    ensures |r| >= 1
    decreases |s|
  {
    if sep <= s then [[]] + Split(s[|sep|..], sep)
    else if |s| == 0 then [[]]
    else
      var rest := Split(s[1..], sep);
      [[s[0]] + rest[0]] + rest[1..]
  }

  /** `sep.join(ps)`. */
  function Join(ps: seq<string>, sep: string): string
  {
    if |ps| == 0 then []
    else if |ps| == 1 then ps[0]
    else ps[0] + sep + Join(ps[1..], sep)
  }

  lemma JoinCons(c: char, ps: seq<string>, sep: string)
    requires |ps| >= 1
    ensures Join([[c] + ps[0]] + ps[1..], sep) == [c] + Join(ps, sep)
  {
    var qs := [[c] + ps[0]] + ps[1..];
    if |ps| > 1 {
      assert qs[1..] == ps[1..];
    }
  }

  /** Joining the pieces with the separator gives back the text. */
  lemma {:induction false} JoinSplit(s: string, sep: string)
    requires sep != []
    ensures Join(Split(s, sep), sep) == s
    decreases |s|
  {
    if sep <= s {
      var t := s[|sep|..];
      JoinSplit(t, sep);
      assert s == sep + t;
      JoinSplitSep(sep, t);
    } else if s != [] {
      JoinSplit(s[1..], sep);
      assert s == [s[0]] + s[1..];
      JoinSplitChar(s[0], s[1..], sep);
    }
  }

  /** The step of `JoinSplit` for a text that starts with the separator. */
  lemma JoinSplitSep(sep: string, t: string)
    requires sep != [] && Join(Split(t, sep), sep) == t
    ensures Join(Split(sep + t, sep), sep) == sep + t
  {
    SplitAfterSep(sep, t);
    JoinEmptyHead(Split(t, sep), sep);
  }

  /** An empty first piece contributes only the separator after it. */
  lemma JoinEmptyHead(qs: seq<string>, sep: string)
    requires qs != []
    ensures Join([[]] + qs, sep) == sep + Join(qs, sep)
  {
    assert ([[]] + qs)[1..] == qs;
  }

  /** The step of `JoinSplit` for a text that does not start with the separator. */
  lemma JoinSplitChar(c: char, u: string, sep: string)
    requires sep != [] && !(sep <= [c] + u) && Join(Split(u, sep), sep) == u
    ensures Join(Split([c] + u, sep), sep) == [c] + u
  {
    SplitCharHead(c, u, sep);
    JoinCons(c, Split(u, sep), sep);
  }

  /** No piece contains the separator. */
  lemma {:induction false} SplitPiecesLackSep(s: string, sep: string)
    requires sep != []
    ensures forall i :: 0 <= i < |Split(s, sep)| ==> !Contains(Split(s, sep)[i], sep)
    decreases |s|
  {
    var ps := Split(s, sep);
    if sep <= s {
      SplitPiecesLackSep(s[|sep|..], sep);
      assert !Contains(ps[0], sep);
      forall i | 1 <= i < |ps| ensures !Contains(ps[i], sep) {
        assert ps[i] == Split(s[|sep|..], sep)[i - 1];
      }
    } else if s != [] {
      var rest := Split(s[1..], sep);
      SplitPiecesLackSep(s[1..], sep);
      forall i | 0 <= i < |ps| ensures !Contains(ps[i], sep) {
        if i == 0 {
          assert ps[0] == [s[0]] + rest[0];
          assert !(sep <= ps[0]) by {
            assert Join(Split(s[1..], sep), sep) == s[1..] by { JoinSplit(s[1..], sep); }
            JoinPrefix(rest, sep);
            assert ps[0] <= s;
          }
          assert ps[0][1..] == rest[0];
        } else {
          assert ps[i] == rest[i];
        }
      }
    }
  }

  /** Every character of every piece comes from the text. */
  lemma {:induction false} SplitWithin(s: string, sep: string)
    requires sep != []
    ensures forall i, c :: 0 <= i < |Split(s, sep)| && c in Split(s, sep)[i] ==> c in s
    decreases |s|
  {
    var ps := Split(s, sep);
    if sep <= s {
      SplitWithin(s[|sep|..], sep);
      forall i, c | 0 <= i < |ps| && c in ps[i] ensures c in s {
        assert i > 0 && ps[i] == Split(s[|sep|..], sep)[i - 1];
        assert c in s[|sep|..];
        var k :| 0 <= k < |s[|sep|..]| && s[|sep|..][k] == c;
        assert s[|sep| + k] == c;
      }
    } else if s != [] {
      var rest := Split(s[1..], sep);
      SplitWithin(s[1..], sep);
      forall i, c | 0 <= i < |ps| && c in ps[i] ensures c in s {
        if c != s[0] {
          if i == 0 {
            assert ps[0] == [s[0]] + rest[0];
            assert c in rest[0];
          } else {
            assert ps[i] == rest[i];
          }
          assert c in s[1..];
          var k :| 0 <= k < |s[1..]| && s[1..][k] == c;
          assert s[k + 1] == c;
        }
      }
    }
  }

  /** The first piece begins the joined text. */
  lemma JoinPrefix(ps: seq<string>, sep: string)
    requires |ps| >= 1
    ensures ps[0] <= Join(ps, sep)
  {
  }

  /** A text without the separator is a single piece. */
  lemma {:induction false} SplitNoSep(s: string, sep: string)
    requires sep != [] && !Contains(s, sep)
    ensures Split(s, sep) == [s]
    decreases |s|
  {
    if s != [] {
      assert !Contains(s[1..], sep);
      SplitNoSep(s[1..], sep);
      assert [s[0]] + s[1..] == s;
    }
  }

  /** The leading `k` pieces, re-joined, are a prefix of the text, and
      splitting that prefix again yields exactly those `k` pieces. */
  lemma SplitTake(s: string, sep: string, k: nat)
    requires sep != [] && 1 <= k <= |Split(s, sep)|
    ensures Join(Split(s, sep)[..k], sep) <= s
    ensures Split(Join(Split(s, sep)[..k], sep), sep) == Split(s, sep)[..k]
  {
    TakePrefix(s, sep, k);
    TakeResplit(s, sep, k);
  }

  /** The first half of `SplitTake`: the re-joined leading pieces begin the text. */
  lemma {:induction false} TakePrefix(s: string, sep: string, k: nat)
    requires sep != [] && 1 <= k <= |Split(s, sep)|
    ensures Join(Split(s, sep)[..k], sep) <= s
    decreases |s|
  {
    if k == 1 {
      JoinSplit(s, sep);
      JoinPrefix(Split(s, sep), sep);
      assert Split(s, sep)[..1] == [Split(s, sep)[0]];
    } else if sep <= s {
      var t := s[|sep|..];
      var qs := Split(t, sep)[..k - 1];
      TakePrefix(t, sep, k - 1);
      assert s == sep + t;
      SplitAfterSep(sep, t);
      TakeAfterHead([], Split(t, sep), k);
      JoinEmptyHead(qs, sep);
    } else {
      var qs := Split(s[1..], sep)[..k];
      TakePrefix(s[1..], sep, k);
      assert s == [s[0]] + s[1..];
      SplitCharHead(s[0], s[1..], sep);
      TakeAfterHead([s[0]] + qs[0], Split(s[1..], sep)[1..], k);
      assert Split(s[1..], sep)[1..][..k - 1] == qs[1..];
      JoinCons(s[0], qs, sep);
    }
  }

  /** The second half of `SplitTake`: the re-joined leading pieces split back into them. */
  lemma {:induction false} TakeResplit(s: string, sep: string, k: nat)
    requires sep != [] && 1 <= k <= |Split(s, sep)|
    ensures Split(Join(Split(s, sep)[..k], sep), sep) == Split(s, sep)[..k]
    decreases |s|, 1
  {
    if k == 1 {
      SplitPiecesLackSep(s, sep);
      assert Split(s, sep)[..1] == [Split(s, sep)[0]];
      SplitNoSep(Split(s, sep)[0], sep);
    } else if sep <= s {
      TakeResplitSep(s, sep, k);
    } else {
      TakeResplitChar(s, sep, k);
    }
  }

  /** `TakeResplit` for a text that starts with the separator. */
  lemma {:induction false} TakeResplitSep(s: string, sep: string, k: nat)
    requires sep != [] && sep <= s && 1 < k <= |Split(s, sep)|
    ensures Split(Join(Split(s, sep)[..k], sep), sep) == Split(s, sep)[..k]
    decreases |s|, 0
  {
    var t := s[|sep|..];
    var qs := Split(t, sep)[..k - 1];
    assert s == sep + t;
    SplitAfterSep(sep, t);
    TakeResplit(t, sep, k - 1);
    TakeAfterHead([], Split(t, sep), k);
    ResplitSep(sep, qs);
  }

  /** `TakeResplit` for a text that does not start with the separator. */
  lemma {:induction false} TakeResplitChar(s: string, sep: string, k: nat)
    requires sep != [] && !(sep <= s) && 1 < k <= |Split(s, sep)|
    ensures Split(Join(Split(s, sep)[..k], sep), sep) == Split(s, sep)[..k]
    decreases |s|, 0
  {
    var qs := Split(s[1..], sep)[..k];
    TakeResplit(s[1..], sep, k);
    TakePrefix(s[1..], sep, k);
    assert s == [s[0]] + s[1..];
    SplitCharHead(s[0], s[1..], sep);
    TakeAfterHead([s[0]] + qs[0], Split(s[1..], sep)[1..], k);
    assert Split(s[1..], sep)[1..][..k - 1] == qs[1..];
    ResplitChar(s[0], s[1..], sep, qs);
  }

  /** The step of `TakeResplit` past a separator. */
  lemma ResplitSep(sep: string, qs: seq<string>)
    requires sep != [] && qs != [] && Split(Join(qs, sep), sep) == qs
    ensures Split(Join([[]] + qs, sep), sep) == [[]] + qs
  {
    JoinEmptyHead(qs, sep);
    SplitAfterSep(sep, Join(qs, sep));
  }

  /** The step of `TakeResplit` past a character that does not start a separator. */
  lemma ResplitChar(c: char, u: string, sep: string, qs: seq<string>)
    requires sep != [] && !(sep <= [c] + u) && qs != []
    requires Join(qs, sep) <= u && Split(Join(qs, sep), sep) == qs
    ensures Split(Join([[c] + qs[0]] + qs[1..], sep), sep) == [[c] + qs[0]] + qs[1..]
  {
    var j := Join(qs, sep);
    JoinCons(c, qs, sep);
    assert [c] + j <= [c] + u;
    assert !(sep <= [c] + j);
    SplitCharHead(c, j, sep);
  }

  /** Taking `k` elements of a list with a head takes `k - 1` of its tail. */
  lemma TakeAfterHead<T>(x: T, xs: seq<T>, k: nat)
    requires 1 <= k <= |xs| + 1
    ensures ([x] + xs)[..k] == [x] + xs[..k - 1]
  {
  }

  /** A text that starts with the separator splits into an empty piece and
      the pieces of the rest. */
  lemma SplitAfterSep(sep: string, t: string)
    requires sep != []
    ensures Split(sep + t, sep) == [[]] + Split(t, sep)
  {
    assert sep <= sep + t;
    assert (sep + t)[|sep|..] == t;
  }

  /** A text that does not start with the separator splits into its first
      character glued to the first piece of the rest, then the other pieces. */
  lemma SplitCharHead(c: char, u: string, sep: string)
    requires sep != [] && !(sep <= [c] + u)
    ensures Split([c] + u, sep) == [[c] + Split(u, sep)[0]] + Split(u, sep)[1..]
  {
    assert ([c] + u)[1..] == u;
  }

  /** `x + [c] + y` with no `c` in `x` splits at that `c` first. */
  lemma {:induction false} SplitAtFirst(x: string, c: char, y: string)
    requires c !in x
    ensures Split(x + [c] + y, [c]) == [x] + Split(y, [c])
    decreases |x|
  {
    var s := x + [c] + y;
    if x == [] {
      assert s[1..] == y;
    } else {
      assert s[0] == x[0] && !([c] <= s);
      assert s[1..] == x[1..] + [c] + y;
      SplitAtFirst(x[1..], c, y);
      assert [x[0]] + x[1..] == x;
    }
  }

  /** For a one-character separator, splitting undoes joining pieces that do
      not contain that character. */
  lemma {:induction false} SplitJoin(ps: seq<string>, c: char)
    requires |ps| >= 1
    requires forall i :: 0 <= i < |ps| ==> c !in ps[i]
    ensures Split(Join(ps, [c]), [c]) == ps
    decreases |ps|
  {
    if |ps| == 1 {
      if Contains(ps[0], [c]) {
        ContainsHasChars(ps[0], [c], 0);
      }
      SplitNoSep(ps[0], [c]);
    } else {
      SplitJoin(ps[1..], c);
      assert Join(ps, [c]) == ps[0] + [c] + Join(ps[1..], [c]);
      SplitAtFirst(ps[0], c, Join(ps[1..], [c]));
    }
  }

  /** For a one-character separator, splitting `x + [c] + y` splits `x` and
      `y` apart: the pieces of the whole are the pieces of `x`, then those of `y`. */
  lemma {:induction false} SplitConcat(x: string, c: char, y: string)
    ensures Split(x + [c] + y, [c]) == Split(x, [c]) + Split(y, [c])
    decreases |x|
  {
    if x == [] {
      assert x + [c] + y == [c] + y;
      SplitAfterSep([c], y);
    } else {
      var u := x[1..];
      SplitConcat(u, c, y);
      assert x == [x[0]] + u;
      assert x + [c] + y == [x[0]] + (u + [c] + y);
      if x[0] == c {
        SplitConcatSep(u, c, y);
      } else {
        SplitConcatChar(x[0], u, c, y);
      }
    }
  }

  /** The step of `SplitConcat` past a separator. */
  lemma SplitConcatSep(u: string, c: char, y: string)
    requires Split(u + [c] + y, [c]) == Split(u, [c]) + Split(y, [c])
    ensures Split([c] + (u + [c] + y), [c]) == Split([c] + u, [c]) + Split(y, [c])
  {
    SplitAfterSep([c], u);
    SplitAfterSep([c], u + [c] + y);
  }

  /** The step of `SplitConcat` past another character. */
  lemma SplitConcatChar(d: char, u: string, c: char, y: string)
    requires d != c
    requires Split(u + [c] + y, [c]) == Split(u, [c]) + Split(y, [c])
    ensures Split([d] + (u + [c] + y), [c]) == Split([d] + u, [c]) + Split(y, [c])
  {
    assert ([d] + u)[0] == d && ([d] + (u + [c] + y))[0] == d;
    SplitCharHead(d, u, [c]);
    SplitCharHead(d, u + [c] + y, [c]);
    GlueHead(d, Split(u, [c]), Split(y, [c]));
  }

  /** Gluing a character to the first piece commutes with appending pieces. */
  lemma GlueHead(d: char, ps: seq<string>, qs: seq<string>)
    requires |ps| >= 1
    ensures [[d] + (ps + qs)[0]] + (ps + qs)[1..] == [[d] + ps[0]] + ps[1..] + qs
  {
    assert (ps + qs)[0] == ps[0];
    assert (ps + qs)[1..] == ps[1..] + qs;
  }
}
