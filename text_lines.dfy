/** The line handling shared by the receipt cleaner and the field parser:
    `[l.strip() for l in text.splitlines() if l.strip()]` and list filtering. */
module TextLines {
  import opened Chars
  import opened Substitute
  import opened Pieces

  /** `[x for x in s if keep(x)]`. */
  function Filter<T>(s: seq<T>, keep: T -> bool): (r: seq<T>)
    ensures |r| <= |s|
    ensures forall x :: x in r ==> x in s && keep(x)
    ensures forall x :: x in s && keep(x) ==> x in r
    decreases |s|
  {
    if s == [] then []
    else
      var init := Filter(s[..|s| - 1], keep);
      assert s == s[..|s| - 1] + [s[|s| - 1]];
      if keep(s[|s| - 1]) then init + [s[|s| - 1]] else init
  }

  /** Filtering keeps the relative order: it commutes with extending the list. */
  lemma FilterAppend<T>(s: seq<T>, x: T, keep: T -> bool)
    ensures Filter(s + [x], keep) == Filter(s, keep) + (if keep(x) then [x] else [])
  {
    assert (s + [x])[..|s + [x]| - 1] == s;
  }

  /** Filtering one more element of a list. */
  lemma FilterStep<T>(s: seq<T>, i: nat, keep: T -> bool)
    requires i < |s|
    ensures Filter(s[..i + 1], keep) == Filter(s[..i], keep) + (if keep(s[i]) then [s[i]] else [])
  {
    assert s[..i + 1] == s[..i] + [s[i]];
    FilterAppend(s[..i], s[i], keep);
  }

  /** The positions of the elements a filter keeps, in increasing order: a
      position is listed exactly when its element passes. */
  function KeptIndices<T>(s: seq<T>, keep: T -> bool): (idx: seq<nat>)
    ensures forall k :: 0 <= k < |idx| ==> idx[k] < |s|
    ensures forall j, k :: 0 <= j < k < |idx| ==> idx[j] < idx[k]
    ensures forall i :: 0 <= i < |s| ==> (i in idx <==> keep(s[i]))
    decreases |s|
  {
    if s == [] then []
    else
      var init := KeptIndices(s[..|s| - 1], keep);
      if keep(s[|s| - 1]) then init + [|s| - 1] else init
  }

  /** `r` is the elements of `s` at the positions `idx`, in that order. */
  predicate Picks<T(==)>(r: seq<T>, s: seq<T>, idx: seq<nat>) {
    |r| == |idx| && forall k :: 0 <= k < |idx| ==> idx[k] < |s| && r[k] == s[idx[k]]
  }

  /** A filter keeps the passing elements in their original order, each
      occurrence once: its result is `s` read at the kept positions. */
  lemma {:induction false} FilterOrder<T>(s: seq<T>, keep: T -> bool)
    ensures Picks(Filter(s, keep), s, KeptIndices(s, keep))
    decreases |s|
  {
    if s != [] {
      var init := s[..|s| - 1];
      FilterOrder(init, keep);
      assert s == init + [s[|s| - 1]];
      FilterAppend(init, s[|s| - 1], keep);
    }
  }

  /** A filter neither drops nor duplicates a passing element: each one
      occurs in the result as often as in the list. */
  lemma {:induction false} FilterCount<T>(s: seq<T>, keep: T -> bool, x: T)
    ensures multiset(Filter(s, keep))[x] == if keep(x) then multiset(s)[x] else 0
    decreases |s|
  {
    if s != [] {
      var init := s[..|s| - 1];
      FilterCount(init, keep, x);
      assert s == init + [s[|s| - 1]];
      FilterAppend(init, s[|s| - 1], keep);
    }
  }

  /** Nothing survives a filter that every element fails. */
  lemma FilterNone<T>(s: seq<T>, keep: T -> bool)
    requires forall x :: x in s ==> !keep(x)
    ensures Filter(s, keep) == []
  {
  }

  /** A line as the comprehension leaves it: non-empty, without a line
      break, and with no whitespace at either end. */
  predicate IsStrippedLine(l: string) {
    l != [] && '\n' !in l && !IsSpace(l[0]) && !IsSpace(l[|l| - 1])
  }

  /** `l.strip()` for each piece between line breaks, in order. */
  function StrippedPieces(text: string): (r: seq<string>)
    ensures |r| == |Split(text, "\n")|
    ensures forall i :: 0 <= i < |r| ==> r[i] == Strip(Split(text, "\n")[i])
  {
    var pieces := Split(text, "\n");
    seq(|pieces|, i requires 0 <= i < |pieces| => Strip(pieces[i]))
  }

  /** The condition `if l.strip()` of the comprehension, on the stripped line. */
  predicate IsNonBlank(l: string) {
    l != []
  }

  /** `[l.strip() for l in text.splitlines() if l.strip()]`, with '\n' as the
      only line break. */
  function NonBlankLines(text: string): seq<string>
  {
    Filter(StrippedPieces(text), IsNonBlank)
  }

  lemma CharInContains(s: string, c: char)
    requires c in s
    ensures Contains(s, [c])
  {
    if s[0] != c {
      CharInContains(s[1..], c);
    }
  }

  /** `strip` only removes characters. */
  lemma StripWithin(s: string)
    ensures forall c :: c in Strip(s) ==> c in s
  {
    var a := SkipSpace(s, 0);
    var b := SkipSpaceBack(s, |s|);
    forall c | c in Strip(s) ensures c in s {
      var k :| 0 <= k < b - a && s[a..b][k] == c;
      assert s[a + k] == c;
    }
  }

  /** A stripped non-blank piece without a line break is a stripped line. */
  lemma StrippedPiece(p: string)
    requires '\n' !in p && Strip(p) != []
    ensures IsStrippedLine(Strip(p))
  {
    StripWithin(p);
    StripSpec(p);
  }

  /** Every line is a stripped, non-empty piece of the text between two line
      breaks, and every such non-blank piece, stripped, is among the lines. */
  lemma NonBlankLinesSpec(text: string)
    ensures forall l :: l in NonBlankLines(text) ==> IsStrippedLine(l)
    ensures forall l :: l in NonBlankLines(text) ==> exists p :: p in Split(text, "\n") && l == Strip(p)
    ensures forall p :: p in Split(text, "\n") && Strip(p) != [] ==> Strip(p) in NonBlankLines(text)
  {
    var pieces := Split(text, "\n");
    var stripped := StrippedPieces(text);
    var keep := IsNonBlank;
    assert NonBlankLines(text) == Filter(stripped, keep);
    SplitPiecesLackSep(text, "\n");
    forall l | l in NonBlankLines(text)
      ensures IsStrippedLine(l) && exists p :: p in pieces && l == Strip(p)
    {
      assert l in stripped && l != [];
      var i :| 0 <= i < |stripped| && stripped[i] == l;
      assert !Contains(pieces[i], "\n");
      if '\n' in pieces[i] {
        CharInContains(pieces[i], '\n');
      }
      StrippedPiece(pieces[i]);
      assert pieces[i] in pieces;
    }
    forall p | p in pieces && Strip(p) != [] ensures Strip(p) in NonBlankLines(text) {
      var i :| 0 <= i < |pieces| && pieces[i] == p;
      assert stripped[i] == Strip(p);
      assert Strip(p) in stripped && keep(Strip(p));
    }
  }

  /** The lines keep the order of the text: they are the stripped pieces at
      the positions of the non-blank pieces, in increasing order, and each
      non-blank line occurs as often as among the stripped pieces. */
  lemma NonBlankLinesOrder(text: string)
    ensures var idx := KeptIndices(StrippedPieces(text), IsNonBlank);
      && Picks(NonBlankLines(text), StrippedPieces(text), idx)
      && (forall j, k :: 0 <= j < k < |idx| ==> idx[j] < idx[k])
      && (forall i :: 0 <= i < |Split(text, "\n")| ==> (i in idx <==> Strip(Split(text, "\n")[i]) != []))
    ensures forall l :: multiset(NonBlankLines(text))[l] == if l != [] then multiset(StrippedPieces(text))[l] else 0
  {
    FilterOrder(StrippedPieces(text), IsNonBlank);
    forall l ensures multiset(NonBlankLines(text))[l] == if l != [] then multiset(StrippedPieces(text))[l] else 0 {
      FilterCount(StrippedPieces(text), IsNonBlank, l);
    }
  }
}
