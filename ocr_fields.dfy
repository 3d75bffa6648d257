/** The pattern searches of `parse_text`: normalisation of the recognised
    text, then the merchant, date and total patterns and the priced-item test,
    each written as a scanner over the characters. `re.search` returns the
    match at the leftmost position where the pattern matches at all; at that
    position alternatives are tried in their written order and quantifiers
    are greedy. */
module OcrFields {
  import opened Chars
  import opened Substitute
  import opened Optional

  // ---------------------------------------------------------------------
  // Normalisation: `re.sub(r'[^\x00-\x7F]+', ' ', text)` then
  // `text.replace("  ", " ")`.

  predicate NoAscii(u: string) { forall k :: 0 <= k < |u| ==> !IsAscii(u[k]) }

  /** Each maximal run of non-ASCII characters becomes one space: a non-ASCII
      character followed by another is dropped, the last of a run is replaced. */
  function FoldNonAscii(s: string): (r: string)
    ensures AllAscii(r) && |r| <= |s|
    decreases |s|
  {
    if s == [] then []
    else if IsAscii(s[0]) then [s[0]] + FoldNonAscii(s[1..])
    else if |s| > 1 && !IsAscii(s[1]) then FoldNonAscii(s[1..])
    else " " + FoldNonAscii(s[1..])
  }

  /** ASCII text is left as it is. */
  lemma {:induction false} FoldAscii(s: string)
    requires AllAscii(s)
    ensures FoldNonAscii(s) == s
    decreases |s|
  {
    if s != [] {
      FoldAscii(s[1..]);
    }
  }

  lemma FoldAsciiHead(c: char, t: string)
    requires IsAscii(c)
    ensures FoldNonAscii([c] + t) == [c] + FoldNonAscii(t)
  {
    assert ([c] + t)[1..] == t;
  }

  lemma FoldInsideRun(c: char, t: string)
    requires !IsAscii(c) && t != [] && !IsAscii(t[0])
    ensures FoldNonAscii([c] + t) == FoldNonAscii(t)
  {
    assert ([c] + t)[1..] == t;
  }

  lemma FoldRunEnd(c: char, b: string)
    requires !IsAscii(c) && (b == [] || IsAscii(b[0]))
    ensures FoldNonAscii([c] + b) == " " + FoldNonAscii(b)
  {
    assert ([c] + b)[1..] == b;
  }

  /** A run `u` of non-ASCII characters between ASCII text `a` and a text `b`
      that does not continue the run becomes exactly one space. */
  lemma {:induction false} FoldRun(a: string, u: string, b: string)
    requires AllAscii(a) && u != [] && NoAscii(u) && (b == [] || IsAscii(b[0]))
    ensures FoldNonAscii(a + u + b) == a + " " + FoldNonAscii(b)
    decreases |a| + |u|, 1
  {
    if a != [] {
      FoldRunAfterAscii(a, u, b);
    } else if |u| > 1 {
      FoldRunInside(u, b);
      assert a + u + b == u + b && a + " " == " ";
    } else {
      assert a + u + b == [u[0]] + b;
      FoldRunEnd(u[0], b);
    }
  }

  lemma {:induction false} FoldRunAfterAscii(a: string, u: string, b: string)
    requires AllAscii(a) && a != [] && u != [] && NoAscii(u) && (b == [] || IsAscii(b[0]))
    ensures FoldNonAscii(a + u + b) == a + " " + FoldNonAscii(b)
    decreases |a| + |u|, 0
  {
    var rest := a[1..] + u + b;
    assert a + u + b == [a[0]] + rest;
    FoldAsciiHead(a[0], rest);
    FoldRun(a[1..], u, b);
    assert [a[0]] + (a[1..] + " " + FoldNonAscii(b)) == a + " " + FoldNonAscii(b);
  }

  lemma {:induction false} FoldRunInside(u: string, b: string)
    requires |u| > 1 && NoAscii(u) && (b == [] || IsAscii(b[0]))
    ensures FoldNonAscii(u + b) == " " + FoldNonAscii(b)
    decreases |u|, 0
  {
    var v := u[1..];
    assert u + b == [u[0]] + (v + b);
    assert (v + b)[0] == u[1] && !IsAscii(u[0]) && !IsAscii(u[1]);
    FoldInsideRun(u[0], v + b);
    assert NoAscii(v) by {
      assert forall k :: 0 <= k < |v| ==> v[k] == u[k + 1];
    }
    FoldRun([], v, b);
    assert [] + v + b == v + b && [] + " " == " ";
  }

  /** Replacing inside ASCII text with an ASCII replacement keeps it ASCII. */
  lemma {:induction false} ReplaceKeepsAscii(s: string, pat: string, rep: string)
    requires pat != [] && AllAscii(s) && AllAscii(rep)
    ensures AllAscii(Replace(s, pat, rep))
    decreases |s|
  {
    if pat <= s {
      ReplaceKeepsAscii(s[|pat|..], pat, rep);
    } else if s != [] {
      ReplaceKeepsAscii(s[1..], pat, rep);
    }
  }

  /** The text every pattern of `parse_text` is matched against: ASCII only. */
  function Normalize(text: string): (r: string)
    ensures AllAscii(r)
  {
    var folded := FoldNonAscii(text);
    ReplaceKeepsAscii(folded, "  ", " ");
    Replace(folded, "  ", " ")
  }

  /** ASCII text without double spaces is unchanged by normalisation. */
  lemma NormalizeAscii(text: string)
    requires AllAscii(text) && !Contains(text, "  ")
    ensures Normalize(text) == text
  {
    FoldAscii(text);
    ReplaceAbsent(text, "  ", " ");
  }

  /** The double-space collapse is a single pass: three spaces become two. */
  lemma NormalizeThreeSpaces()
    ensures Normalize("   ") == "  "
  {
    FoldAscii("   ");
    var rest := Replace(" ", "  ", " ");
    assert !("  " <= " ");
    assert rest == " ";
    assert "   "[2..] == " ";
  }

  // ---------------------------------------------------------------------
  // Shared scanning helpers.

  /** `kw` (in lower case) occurs at `p` in `s`, ignoring ASCII case, as `(?i)` does. */
  predicate FoldedAt(s: string, p: nat, kw: string) {
    p + |kw| <= |s| && forall j :: 0 <= j < |kw| ==> Lower(s[p + j]) == kw[j]
  }

  /** The index of the first keyword of `kws`, in list order, occurring at `p`:
      the alternative a regex alternation picks. */
  function FirstKeyword(s: string, p: nat, kws: seq<string>): (r: Option<nat>)
    ensures r.Some? ==> r.value < |kws| && FoldedAt(s, p, kws[r.value])
    ensures r.Some? ==> forall i :: 0 <= i < r.value ==> !FoldedAt(s, p, kws[i])
    ensures r.None? ==> forall i :: 0 <= i < |kws| ==> !FoldedAt(s, p, kws[i])
    decreases |kws|
  {
    if kws == [] then None
    else if FoldedAt(s, p, kws[0]) then Some(0)
    else
      match FirstKeyword(s, p, kws[1..])
      case None => None
      case Some(i) => Some(i + 1)
  }

  /** The length of the run of digits starting at `i`. */
  function DigitRun(s: string, i: nat): (n: nat)
    requires i <= |s|
    ensures i + n <= |s|
    ensures forall j :: i <= j < i + n ==> IsDigit(s[j])
    ensures i + n == |s| || !IsDigit(s[i + n])
    decreases |s| - i
  {
    if i < |s| && IsDigit(s[i]) then 1 + DigitRun(s, i + 1) else 0
  }

  predicate DigitsBetween(s: string, i: nat, j: nat) {
    i <= j <= |s| && forall k :: i <= k < j ==> IsDigit(s[k])
  }

  /** A digit run ending where a non-digit (or the end) follows is the whole run. */
  lemma {:induction false} DigitRunExact(s: string, i: nat, j: nat)
    requires DigitsBetween(s, i, j) && (j == |s| || !IsDigit(s[j]))
    ensures DigitRun(s, i) == j - i
    decreases j - i
  {
    if i < j {
      DigitRunExact(s, i + 1, j);
    }
  }

  /** The length of the run of whitespace starting at `i`. */
  function SpaceRun(s: string, i: nat): (n: nat)
    requires i <= |s|
    ensures i + n <= |s|
    ensures forall j :: i <= j < i + n ==> IsSpace(s[j])
    ensures i + n == |s| || !IsSpace(s[i + n])
    decreases |s| - i
  {
    if i < |s| && IsSpace(s[i]) then 1 + SpaceRun(s, i + 1) else 0
  }

  /** The regex word class on either side of position `p`. */
  predicate WordAt(s: string, i: int) { 0 <= i < |s| && IsWord(s[i]) }

  /** `\b` at position `p`: a word character on exactly one side. */
  predicate Boundary(s: string, p: nat) { WordAt(s, p - 1) != WordAt(s, p) }

  /** Leftmost search: the first position from `p` to `n` at which `at` finds
      a match, with what it found there. */
  function SearchFrom<T>(n: nat, p: nat, at: nat -> Option<T>): (r: Option<(nat, T)>)
    requires p <= n
    ensures r.Some? ==> p <= r.value.0 <= n && at(r.value.0) == Some(r.value.1)
    ensures r.Some? ==> forall q :: p <= q < r.value.0 ==> at(q).None?
    ensures r.None? ==> forall q :: p <= q <= n ==> at(q).None?
    decreases n - p
  {
    match at(p)
    case Some(v) => Some((p, v))
    case None => if p == n then None else SearchFrom(n, p + 1, at)
  }

  // ---------------------------------------------------------------------
  // Merchant: `(?i)(store|shop|market|mart|supermarket|inc|co|ltd|llc|receipt|invoice)\s?.{0,60}`.

  const StoreKeywords: seq<string> :=
    ["store", "shop", "market", "mart", "supermarket", "inc", "co", "ltd", "llc", "receipt", "invoice"]

  /** Up to `limit` characters from `i` that are not line breaks (`.` without DOTALL). */
  function LineRun(s: string, i: nat, limit: nat): (n: nat)
    requires i <= |s|
    ensures n <= limit && i + n <= |s|
    ensures forall j :: i <= j < i + n ==> s[j] != '\n'
    ensures n == limit || i + n == |s| || s[i + n] == '\n'
    decreases limit
  {
    if limit == 0 || i == |s| || s[i] == '\n' then 0 else 1 + LineRun(s, i + 1, limit - 1)
  }

  /** `\s?.{0,60}` taken greedily from `k` ends at `e`: one whitespace
      character if there is one, then as many non-line-break characters as
      there are, at most 60. */
  predicate StoreTail(s: string, k: nat, e: nat) {
    var w := if k < |s| && IsSpace(s[k]) then 1 else 0;
    k + w <= e <= |s| && e - (k + w) <= 60
    && (forall j :: k + w <= j < e ==> s[j] != '\n')
    && (e - (k + w) == 60 || e == |s| || s[e] == '\n')
  }

  /** Where the merchant pattern, with keywords `kws`, matches from `p` to. */
  function StoreAt(s: string, p: nat, kws: seq<string>): (r: Option<nat>)
    requires forall i :: 0 <= i < |kws| ==> kws[i] != []
    ensures r.None? <==> forall i :: 0 <= i < |kws| ==> !FoldedAt(s, p, kws[i])
    ensures r.Some? ==> p < r.value <= |s|
    ensures r.Some? ==> (FirstKeyword(s, p, kws).Some?
      && StoreTail(s, p + |kws[FirstKeyword(s, p, kws).value]|, r.value))
  {
    match FirstKeyword(s, p, kws)
    case None => None
    case Some(i) =>
      assert FoldedAt(s, p, kws[i]) && kws[i] != [];
      Some(StoreTailEnd(s, p + |kws[i]|))
  }

  /** Where `\s?.{0,60}` taken greedily from `k` ends. */
  function StoreTailEnd(s: string, k: nat): (e: nat)
    requires k <= |s|
    ensures StoreTail(s, k, e)
  {
    var w := if k < |s| && IsSpace(s[k]) then 1 else 0;
    k + w + LineRun(s, k + w, 60)
  }

  lemma StoreKeywordsNonEmpty()
    ensures forall i :: 0 <= i < |StoreKeywords| ==> StoreKeywords[i] != []
  {
    forall i | 0 <= i < |StoreKeywords| ensures StoreKeywords[i] != [] {
      assert StoreKeywords[i] in StoreKeywords;
    }
  }

  /** `re.search` of the merchant pattern: the span of the leftmost match. */
  function FindStore(s: string): (r: Option<(nat, nat)>)
    ensures r.Some? ==> (StoreKeywordsNonEmpty();
      r.value.0 < r.value.1 <= |s| && StoreAt(s, r.value.0, StoreKeywords) == Some(r.value.1)
      && forall q :: 0 <= q < r.value.0 ==> StoreAt(s, q, StoreKeywords).None?)
    ensures r.None? ==> (StoreKeywordsNonEmpty();
      forall q :: 0 <= q <= |s| ==> StoreAt(s, q, StoreKeywords).None?)
  {
    StoreKeywordsNonEmpty();
    var at := (q: nat) => StoreAt(s, q, StoreKeywords);
    var found := SearchFrom(|s|, 0, at);
    assert forall q :: at(q) == StoreAt(s, q, StoreKeywords);
    found
  }

  // ---------------------------------------------------------------------
  // Date: `(\b\d{1,2}[/-]\d{1,2}[/-]\d{2,4}\b|\b\d{4}[/-]\d{1,2}[/-]\d{1,2}\b)`.

  predicate IsDateSep(c: char) { c == '/' || c == '-' }

  /** The first alternative matches `s[p..e]`, with separators at `i` and `j`. */
  predicate DayFirst(s: string, p: nat, i: nat, j: nat, e: nat) {
    p < i <= p + 2 && DigitsBetween(s, p, i) && i < |s| && IsDateSep(s[i])
    && i + 1 < j <= i + 3 && DigitsBetween(s, i + 1, j) && j < |s| && IsDateSep(s[j])
    && j + 3 <= e <= j + 5 && DigitsBetween(s, j + 1, e)
    && Boundary(s, p) && Boundary(s, e)
  }

  /** The second alternative matches `s[p..e]`, with separators at `i` and `j`. */
  predicate YearFirst(s: string, p: nat, i: nat, j: nat, e: nat) {
    i == p + 4 && DigitsBetween(s, p, i) && i < |s| && IsDateSep(s[i])
    && i + 1 < j <= i + 3 && DigitsBetween(s, i + 1, j) && j < |s| && IsDateSep(s[j])
    && j + 1 < e <= j + 3 && DigitsBetween(s, j + 1, e)
    && Boundary(s, p) && Boundary(s, e)
  }

  /** The date pattern matches exactly `s[p..e]`. */
  ghost predicate DateMatch(s: string, p: nat, e: nat) {
    exists i: nat, j: nat :: DayFirst(s, p, i, j, e) || YearFirst(s, p, i, j, e)
  }

  /** The two middle fields shared by both alternatives: `[/-]\d{1,2}[/-]`
      after the first digit run ending at `i`; yields the second separator. */
  function MiddleField(s: string, i: nat): (r: Option<nat>)
    requires i <= |s|
    ensures r.Some? ==> (i + 1 < r.value <= i + 3 && r.value < |s| && IsSep(s, i) && IsDateSep(s[r.value])
      && DigitsBetween(s, i + 1, r.value))
  {
    if i < |s| && IsDateSep(s[i]) then
      var b := DigitRun(s, i + 1);
      var j := i + 1 + b;
      if 1 <= b <= 2 && j < |s| && IsDateSep(s[j]) then Some(j) else None
    else None
  }

  predicate IsSep(s: string, i: nat) { i < |s| && IsDateSep(s[i]) }

  /** Where the date pattern's match starting at `p` ends, if it matches there.
      Greedy `\d{1,2}` followed by a separator can only take the whole digit
      run, so each field is a maximal run of the allowed length. */
  function DateAt(s: string, p: nat): (r: Option<nat>)
  {
    if p > |s| || !Boundary(s, p) then None
    else
      var a := DigitRun(s, p);
      if a == 1 || a == 2 || a == 4 then
        match MiddleField(s, p + a)
        case None => None
        case Some(j) =>
          var c := DigitRun(s, j + 1);
          var e := j + 1 + c;
          if (if a == 4 then 1 <= c <= 2 else 2 <= c <= 4) && Boundary(s, e) then Some(e) else None
      else None
  }

  /** What `DateAt` finds is a match of the pattern. */
  lemma DateAtSound(s: string, p: nat)
    requires DateAt(s, p).Some?
    ensures DateMatch(s, p, DateAt(s, p).value)
  {
    var a := DigitRun(s, p);
    var j := MiddleField(s, p + a).value;
    var e := DateAt(s, p).value;
    if a == 4 {
      assert YearFirst(s, p, p + a, j, e);
    } else {
      assert DayFirst(s, p, p + a, j, e);
    }
  }

  /** The middle fields of a match are the ones `MiddleField` reads. */
  lemma MiddleFound(s: string, i: nat, j: nat)
    requires IsSep(s, i) && i + 1 < j <= i + 3 && DigitsBetween(s, i + 1, j) && IsSep(s, j)
    ensures MiddleField(s, i) == Some(j)
  {
    DigitRunExact(s, i + 1, j);
  }

  /** `DateAt` from the lengths of the three digit runs. */
  lemma DateAtRuns(s: string, p: nat, a: nat, j: nat, c: nat)
    requires p <= |s| && Boundary(s, p) && DigitRun(s, p) == a && (a == 1 || a == 2 || a == 4)
    requires MiddleField(s, p + a) == Some(j) && DigitRun(s, j + 1) == c
    requires (if a == 4 then 1 <= c <= 2 else 2 <= c <= 4) && Boundary(s, j + 1 + c)
    ensures DateAt(s, p) == Some(j + 1 + c)
  {
  }

  /** A day-first match at `p` is the one `DateAt` finds. */
  lemma DayFirstFound(s: string, p: nat, i: nat, j: nat, e: nat)
    requires DayFirst(s, p, i, j, e)
    ensures DateAt(s, p) == Some(e)
  {
    DigitRunExact(s, p, i);
    MiddleFound(s, i, j);
    DigitRunExact(s, j + 1, e);
    DateAtRuns(s, p, i - p, j, e - j - 1);
  }

  /** A year-first match at `p` is the one `DateAt` finds. */
  lemma YearFirstFound(s: string, p: nat, i: nat, j: nat, e: nat)
    requires YearFirst(s, p, i, j, e)
    ensures DateAt(s, p) == Some(e)
  {
    DigitRunExact(s, p, i);
    MiddleFound(s, i, j);
    DigitRunExact(s, j + 1, e);
    DateAtRuns(s, p, 4, j, e - j - 1);
  }

  /** Every match of the pattern at `p` is the one `DateAt` finds. */
  lemma DateAtComplete(s: string, p: nat, e: nat)
    requires DateMatch(s, p, e)
    ensures DateAt(s, p) == Some(e)
  {
    var i: nat, j: nat :| DayFirst(s, p, i, j, e) || YearFirst(s, p, i, j, e);
    if DayFirst(s, p, i, j, e) {
      DayFirstFound(s, p, i, j, e);
    } else {
      YearFirstFound(s, p, i, j, e);
    }
  }

  /** `re.search` of the date pattern: the span of the leftmost match. */
  function FindDate(s: string): (r: Option<(nat, nat)>)
    ensures r.Some? ==> r.value.0 <= r.value.1 <= |s| && DateAt(s, r.value.0) == Some(r.value.1)
    ensures r.Some? ==> forall q :: 0 <= q < r.value.0 ==> DateAt(s, q).None?
    ensures r.None? ==> forall q :: 0 <= q <= |s| ==> DateAt(s, q).None?
  {
    var at := (q: nat) => DateAt(s, q);
    var found := SearchFrom(|s|, 0, at);
    assert forall q :: at(q) == DateAt(s, q);
    if found.None? then None
    else
      DateAtSound(s, found.value.0);
      Some(found.value)
  }

  /** The date found is the leftmost match of the date pattern, and there is
      none exactly when no position matches. */
  lemma FindDateSpec(s: string)
    ensures FindDate(s).Some? ==> DateMatch(s, FindDate(s).value.0, FindDate(s).value.1)
    ensures FindDate(s).Some? ==> forall q: nat, e: nat :: q < FindDate(s).value.0 ==> !DateMatch(s, q, e)
    ensures FindDate(s).None? <==> forall q: nat, e: nat :: !DateMatch(s, q, e)
  {
    forall q: nat, e: nat | DateMatch(s, q, e) ensures DateAt(s, q) == Some(e) {
      DateAtComplete(s, q, e);
    }
    if FindDate(s).Some? {
      DateAtSound(s, FindDate(s).value.0);
    }
  }

  // ---------------------------------------------------------------------
  // Total: `(?i)(total|amount\s+due|balance\s+due|grand\s+total)[^\d]*(\d+[.,]\d{2})`.

  /** The alternatives, each a list of words separated by `\s+`. */
  const TotalPhrases: seq<seq<string>> :=
    [["total"], ["amount", "due"], ["balance", "due"], ["grand", "total"]]

  /** `i < j` and only whitespace from `i` to `j`: a match of `\s+`. */
  predicate SpacesBetween(s: string, i: nat, j: nat) {
    i < j <= |s| && forall k :: i <= k < j ==> IsSpace(s[k])
  }

  /** A phrase of the total pattern matched from `p` to `e`, ignoring case:
      its words in order, with `\s+` between two words. */
  ghost predicate PhraseMatch(s: string, p: nat, words: seq<string>, e: nat)
    decreases |words|
  {
    && words != []
    && FoldedAt(s, p, words[0])
    && if |words| == 1 then e == p + |words[0]|
       else exists q: nat :: SpacesBetween(s, p + |words[0]|, q) && PhraseMatch(s, q, words[1..], e)
  }

  /** Every word after the first is non-empty and starts with a character
      `\s` does not match, so `\s+` before it can only take a whole run. */
  predicate WellSpaced(words: seq<string>) {
    forall i :: 0 < i < |words| ==> words[i] != [] && !IsSpace(words[i][0])
  }

  /** Where the phrase `words` matches from `p`, ignoring case. */
  function PhraseEnd(s: string, p: nat, words: seq<string>): (r: Option<nat>)
    requires words != []
    ensures r.Some? ==> p + |words[0]| <= r.value <= |s| && PhraseMatch(s, p, words, r.value)
    decreases |words|
  {
    if !FoldedAt(s, p, words[0]) then None
    else if |words| == 1 then Some(p + |words[0]|)
    else
      var k := p + |words[0]|;
      var n := SpaceRun(s, k);
      if n == 0 then None
      else
        var r := PhraseEnd(s, k + n, words[1..]);
        assert r.Some? ==> SpacesBetween(s, k, k + n) && PhraseMatch(s, k + n, words[1..], r.value);
        r
  }

  /** A whitespace span followed by a non-space character (or the end) is the whole run. */
  lemma {:induction false} SpaceRunExact(s: string, i: nat, j: nat)
    requires i <= j <= |s| && (forall k :: i <= k < j ==> IsSpace(s[k])) && (j == |s| || !IsSpace(s[j]))
    ensures SpaceRun(s, i) == j - i
    decreases j - i
  {
    if i < j {
      SpaceRunExact(s, i + 1, j);
    }
  }

  /** A word found at `q` that starts with a non-space character puts a
      non-space character at `q`. */
  lemma FoldedNotSpace(s: string, q: nat, w: string)
    requires FoldedAt(s, q, w) && w != [] && !IsSpace(w[0])
    ensures q < |s| && !IsSpace(s[q])
  {
    assert Lower(s[q + 0]) == w[0];
  }

  /** After the first word and a whitespace run that ends before a non-space
      character, `PhraseEnd` goes on with the rest of the phrase. */
  lemma PhraseEndStep(s: string, p: nat, words: seq<string>, q: nat)
    requires |words| > 1 && FoldedAt(s, p, words[0])
    requires SpacesBetween(s, p + |words[0]|, q) && q < |s| && !IsSpace(s[q])
    ensures PhraseEnd(s, p, words) == PhraseEnd(s, q, words[1..])
  {
    SpaceRunExact(s, p + |words[0]|, q);
  }

  /** Every match of a well-spaced phrase ends where `PhraseEnd` says. */
  lemma {:induction false} PhraseEndComplete(s: string, p: nat, words: seq<string>, e: nat)
    requires WellSpaced(words) && PhraseMatch(s, p, words, e)
    ensures PhraseEnd(s, p, words) == Some(e)
    decreases |words|
  {
    if |words| > 1 {
      var k := p + |words[0]|;
      var q: nat :| SpacesBetween(s, k, q) && PhraseMatch(s, q, words[1..], e);
      var rest := words[1..];
      assert rest[0] == words[1] && FoldedAt(s, q, rest[0]);
      FoldedNotSpace(s, q, words[1]);
      PhraseEndStep(s, p, words, q);
      assert WellSpaced(rest) by {
        assert forall i :: 0 < i < |rest| ==> rest[i] == words[i + 1];
      }
      PhraseEndComplete(s, q, rest, e);
    }
  }

  /** `\d+[.,]\d{2}`, as the whole of `t`. */
  predicate IsAmount(t: string) {
    |t| >= 4 && AllDigits(t[..|t| - 3]) && (t[|t| - 3] == '.' || t[|t| - 3] == ',')
    && IsDigit(t[|t| - 2]) && IsDigit(t[|t| - 1])
  }

  predicate NoDigits(s: string) { forall k :: 0 <= k < |s| ==> !IsDigit(s[k]) }

  /** The first digit at or after `k`. */
  function FirstDigit(s: string, k: nat): (f: nat)
    requires k <= |s|
    ensures k <= f <= |s| && NoDigits(s[k..f]) && (f == |s| || IsDigit(s[f]))
    decreases |s| - k
  {
    if k == |s| || IsDigit(s[k]) then k
    else
      var f := FirstDigit(s, k + 1);
      assert s[k..f] == [s[k]] + s[k + 1..f];
      f
  }

  /** `[^\d]*(\d+[.,]\d{2})` from `k`: the span of the amount. `[^\d]*` can
      only stop at the first digit, and `\d+` before `[.,]` only at the end
      of its run. */
  function AmountAfter(s: string, k: nat): (r: Option<(nat, nat)>)
    requires k <= |s|
    ensures r.Some? ==> (k <= r.value.0 && r.value.1 <= |s| && r.value.0 <= r.value.1
      && NoDigits(s[k..r.value.0]) && IsAmount(s[r.value.0..r.value.1]))
  {
    var f := FirstDigit(s, k);
    if f == |s| then None
    else
      var g := f + DigitRun(s, f);
      if g + 2 < |s| && (s[g] == '.' || s[g] == ',') && IsDigit(s[g + 1]) && IsDigit(s[g + 2]) then
        var t := s[f..g + 3];
        assert t[..|t| - 3] == s[f..g];
        assert AllDigits(s[f..g]) by {
          forall m | 0 <= m < g - f ensures IsDigit(s[f..g][m]) {
            assert s[f..g][m] == s[f + m];
          }
        }
        Some((f, g + 3))
      else None
  }

  /** The first digit from `k` is the one after a digit-free gap. */
  lemma {:induction false} FirstDigitExact(s: string, k: nat, f: nat)
    requires k <= f < |s| && NoDigits(s[k..f]) && IsDigit(s[f])
    ensures FirstDigit(s, k) == f
    decreases f - k
  {
    if k < f {
      assert !IsDigit(s[k..f][0]);
      assert s[k + 1..f] == s[k..f][1..];
      FirstDigitExact(s, k + 1, f);
    }
  }

  /** The digits of an amount, up to its separator. */
  lemma AmountDigits(s: string, f: nat, e: nat)
    requires f <= e <= |s| && IsAmount(s[f..e])
    ensures f < e - 3 && DigitsBetween(s, f, e - 3) && !IsDigit(s[e - 3])
  {
    var t := s[f..e];
    forall m | f <= m < e - 3 ensures IsDigit(s[m]) {
      assert t[..|t| - 3][m - f] == s[m];
    }
    assert t[|t| - 3] == s[e - 3];
  }

  /** There is no other amount to find: a digit-free gap followed by an amount
      is the one `AmountAfter` returns. */
  lemma AmountAfterComplete(s: string, k: nat, f: nat, e: nat)
    requires k <= f <= e <= |s| && NoDigits(s[k..f]) && IsAmount(s[f..e])
    ensures AmountAfter(s, k) == Some((f, e))
  {
    AmountDigits(s, f, e);
    FirstDigitExact(s, k, f);
    DigitRunExact(s, f, e - 3);
    var t := s[f..e];
    assert t[|t| - 2] == s[e - 2] && t[|t| - 1] == s[e - 1];
  }

  /** The phrase `words` matches at `p`, then `[^\d]*`, then the amount at `s[f..e]`. */
  ghost predicate AmountAfterPhrase(s: string, p: nat, words: seq<string>, f: nat, e: nat) {
    exists k: nat :: PhraseMatch(s, p, words, k) && k <= f <= e <= |s| && NoDigits(s[k..f]) && IsAmount(s[f..e])
  }

  /** The alternative of the total pattern with phrase `words` matches at `p`. */
  ghost predicate AltMatches(s: string, p: nat, words: seq<string>) {
    exists f: nat, e: nat :: AmountAfterPhrase(s, p, words, f, e)
  }

  /** One alternative of the total pattern at `p`: the span of its amount. */
  function AltAt(s: string, p: nat, words: seq<string>): (r: Option<(nat, nat)>)
    requires words != []
    ensures r.Some? ==> p <= r.value.0 <= r.value.1 <= |s| && IsAmount(s[r.value.0..r.value.1])
    ensures r.Some? ==> AmountAfterPhrase(s, p, words, r.value.0, r.value.1)
  {
    match PhraseEnd(s, p, words)
    case None => None
    case Some(k) => AmountAfter(s, k)
  }

  /** Every match of a well-spaced alternative is the one `AltAt` finds. */
  lemma AltAtComplete(s: string, p: nat, words: seq<string>, f: nat, e: nat)
    requires WellSpaced(words) && AmountAfterPhrase(s, p, words, f, e)
    ensures AltAt(s, p, words) == Some((f, e))
  {
    var k: nat :| PhraseMatch(s, p, words, k) && k <= f <= e <= |s| && NoDigits(s[k..f]) && IsAmount(s[f..e]);
    PhraseEndComplete(s, p, words, k);
    AmountAfterComplete(s, k, f, e);
  }

  /** `AltAt` finds nothing exactly when the alternative matches nowhere at `p`. */
  lemma AltAtNone(s: string, p: nat, words: seq<string>)
    requires words != [] && WellSpaced(words)
    ensures AltAt(s, p, words).None? <==> !AltMatches(s, p, words)
  {
    if AltMatches(s, p, words) {
      var f: nat, e: nat :| AmountAfterPhrase(s, p, words, f, e);
      AltAtComplete(s, p, words, f, e);
    }
  }

  /** The alternatives tried in order at `p`: the first one that matches
      gives the amount's span. */
  function TotalFrom(s: string, p: nat, phrases: seq<seq<string>>): (r: Option<(nat, nat)>)
    requires forall i :: 0 <= i < |phrases| ==> phrases[i] != []
    ensures r.Some? ==> p <= r.value.0 <= r.value.1 <= |s| && IsAmount(s[r.value.0..r.value.1])
    decreases |phrases|
  {
    if phrases == [] then None
    else
      match AltAt(s, p, phrases[0])
      case Some(span) => Some(span)
      case None =>
        var r := TotalFrom(s, p, phrases[1..]);
        assert forall i :: 0 <= i < |phrases[1..]| ==> phrases[1..][i] == phrases[i + 1];
        r
  }

  /** `TotalFrom` returns what the first alternative that finds something
      finds, and nothing when no alternative finds anything. */
  lemma {:induction false} TotalFromOrder(s: string, p: nat, phrases: seq<seq<string>>)
    requires forall i :: 0 <= i < |phrases| ==> phrases[i] != []
    ensures TotalFrom(s, p, phrases).Some? ==> exists i :: (0 <= i < |phrases|
      && AltAt(s, p, phrases[i]) == TotalFrom(s, p, phrases)
      && forall j :: 0 <= j < i ==> AltAt(s, p, phrases[j]).None?)
    ensures TotalFrom(s, p, phrases).None? ==> forall j :: 0 <= j < |phrases| ==> AltAt(s, p, phrases[j]).None?
    decreases |phrases|, 1
  {
    if phrases == [] {
    } else if AltAt(s, p, phrases[0]).Some? {
      assert AltAt(s, p, phrases[0]) == TotalFrom(s, p, phrases);
    } else {
      TotalFromOrderTail(s, p, phrases);
    }
  }

  /** `TotalFromOrder` when the first alternative finds nothing. */
  lemma {:induction false} TotalFromOrderTail(s: string, p: nat, phrases: seq<seq<string>>)
    requires forall i :: 0 <= i < |phrases| ==> phrases[i] != []
    requires phrases != [] && AltAt(s, p, phrases[0]).None?
    ensures TotalFrom(s, p, phrases).Some? ==> exists i :: (0 <= i < |phrases|
      && AltAt(s, p, phrases[i]) == TotalFrom(s, p, phrases)
      && forall j :: 0 <= j < i ==> AltAt(s, p, phrases[j]).None?)
    ensures TotalFrom(s, p, phrases).None? ==> forall j :: 0 <= j < |phrases| ==> AltAt(s, p, phrases[j]).None?
    decreases |phrases|, 0
  {
    var rest := phrases[1..];
    assert forall i :: 0 <= i < |rest| ==> rest[i] == phrases[i + 1];
    TotalFromOrder(s, p, rest);
    var r := TotalFrom(s, p, rest);
    assert TotalFrom(s, p, phrases) == r;
    if r.Some? {
      var i :| 0 <= i < |rest| && AltAt(s, p, rest[i]) == r
        && forall j :: 0 <= j < i ==> AltAt(s, p, rest[j]).None?;
      ShiftNone(s, p, phrases, i + 1);
      assert AltAt(s, p, phrases[i + 1]) == r;
    } else {
      ShiftNone(s, p, phrases, |phrases|);
    }
  }

  /** Alternatives that find nothing in the tail find nothing in the whole list. */
  lemma ShiftNone(s: string, p: nat, phrases: seq<seq<string>>, n: nat)
    requires forall i :: 0 <= i < |phrases| ==> phrases[i] != []
    requires 1 <= n <= |phrases| && AltAt(s, p, phrases[0]).None?
    requires forall j :: 0 <= j < n - 1 ==> AltAt(s, p, phrases[1..][j]).None?
    ensures forall j :: 0 <= j < n ==> AltAt(s, p, phrases[j]).None?
  {
    forall j | 0 < j < n ensures AltAt(s, p, phrases[j]).None? {
      assert phrases[j] == phrases[1..][j - 1];
    }
  }

  /** The first alternative that matches is the one `TotalFrom` takes. */
  lemma {:induction false} TotalFromFirst(s: string, p: nat, phrases: seq<seq<string>>, i: nat)
    requires forall j :: 0 <= j < |phrases| ==> phrases[j] != []
    requires i < |phrases| && AltAt(s, p, phrases[i]).Some?
    requires forall j :: 0 <= j < i ==> AltAt(s, p, phrases[j]).None?
    ensures TotalFrom(s, p, phrases) == AltAt(s, p, phrases[i])
    decreases i
  {
    if i > 0 {
      var rest := phrases[1..];
      assert forall j :: 0 <= j < |rest| ==> rest[j] == phrases[j + 1];
      TotalFromFirst(s, p, rest, i - 1);
    }
  }

  function TotalAt(s: string, p: nat): (r: Option<(nat, nat)>)
    ensures r.Some? ==> p <= r.value.0 <= r.value.1 <= |s| && IsAmount(s[r.value.0..r.value.1])
  {
    TotalFrom(s, p, TotalPhrases)
  }

  /** An alternation of phrases, each followed by `[^\d]*` and an amount,
      matches at `p` with its amount at `s[f..e]`: an alternative matches
      there, and no alternative written before it matches at all. */
  ghost predicate FirstAltMatch(s: string, p: nat, phrases: seq<seq<string>>, f: nat, e: nat) {
    exists i :: 0 <= i < |phrases| && AmountAfterPhrase(s, p, phrases[i], f, e)
      && forall j :: 0 <= j < i ==> !AltMatches(s, p, phrases[j])
  }

  /** The total pattern matches at `p` with its amount at `s[f..e]`. */
  ghost predicate TotalMatch(s: string, p: nat, f: nat, e: nat) {
    FirstAltMatch(s, p, TotalPhrases, f, e)
  }

  /** The four phrases are well spaced. */
  lemma TotalPhrasesWellSpaced()
    ensures forall i :: 0 <= i < |TotalPhrases| ==> TotalPhrases[i] != [] && WellSpaced(TotalPhrases[i])
  {
    assert !IsSpace('d') && !IsSpace('t');
    assert "due"[0] == 'd' && "total"[0] == 't';
  }

  /** `re.search` of the total pattern: the span of group 2 of the leftmost match. */
  function FindTotal(s: string): (r: Option<(nat, nat)>)
    ensures r.Some? ==> r.value.0 <= r.value.1 <= |s| && IsAmount(s[r.value.0..r.value.1])
    ensures r.Some? ==> exists p :: (0 <= p <= r.value.0 && TotalAt(s, p) == r
      && forall q :: 0 <= q < p ==> TotalAt(s, q).None?)
    ensures r.None? ==> forall q :: 0 <= q <= |s| ==> TotalAt(s, q).None?
  {
    var at := (q: nat) => TotalAt(s, q);
    var found := SearchFrom(|s|, 0, at);
    assert forall q :: at(q) == TotalAt(s, q);
    if found.None? then None
    else
      var p := found.value.0;
      assert TotalAt(s, p) == Some(found.value.1);
      Some(found.value.1)
  }

  /** A total keyword at `p` followed, after no digits, by an amount yields
      that amount at `p`: the keyword "total" is tried first. */
  lemma TotalKeywordAmount(s: string, p: nat, f: nat, e: nat)
    requires FoldedAt(s, p, "total") && p + 5 <= f <= e <= |s|
    requires NoDigits(s[p + 5..f]) && IsAmount(s[f..e])
    ensures TotalAt(s, p) == Some((f, e))
  {
    assert PhraseEnd(s, p, TotalPhrases[0]) == Some(p + 5);
    AmountAfterComplete(s, p + 5, f, e);
  }

  /** What `TotalFrom` finds is the amount of the first alternative that matches. */
  lemma TotalFromSound(s: string, p: nat, phrases: seq<seq<string>>)
    requires forall i :: 0 <= i < |phrases| ==> phrases[i] != [] && WellSpaced(phrases[i])
    ensures TotalFrom(s, p, phrases).Some? ==>
      FirstAltMatch(s, p, phrases, TotalFrom(s, p, phrases).value.0, TotalFrom(s, p, phrases).value.1)
  {
    var r := TotalFrom(s, p, phrases);
    TotalFromOrder(s, p, phrases);
    if r.Some? {
      var i :| 0 <= i < |phrases| && AltAt(s, p, phrases[i]) == r
        && forall j :: 0 <= j < i ==> AltAt(s, p, phrases[j]).None?;
      forall j | 0 <= j < i ensures !AltMatches(s, p, phrases[j]) {
        AltAtNone(s, p, phrases[j]);
      }
    }
  }

  /** A match of the first alternative that matches is what `TotalFrom` finds. */
  lemma TotalFromComplete(s: string, p: nat, phrases: seq<seq<string>>, f: nat, e: nat)
    requires forall i :: 0 <= i < |phrases| ==> phrases[i] != [] && WellSpaced(phrases[i])
    requires FirstAltMatch(s, p, phrases, f, e)
    ensures TotalFrom(s, p, phrases) == Some((f, e))
  {
    var i :| 0 <= i < |phrases| && AmountAfterPhrase(s, p, phrases[i], f, e)
      && forall j :: 0 <= j < i ==> !AltMatches(s, p, phrases[j]);
    AltAtComplete(s, p, phrases[i], f, e);
    forall j | 0 <= j < i ensures AltAt(s, p, phrases[j]).None? {
      AltAtNone(s, p, phrases[j]);
    }
    TotalFromFirst(s, p, phrases, i);
  }

  /** `TotalFrom` finds nothing exactly when no alternative matches. */
  lemma TotalFromNone(s: string, p: nat, phrases: seq<seq<string>>)
    requires forall i :: 0 <= i < |phrases| ==> phrases[i] != [] && WellSpaced(phrases[i])
    ensures TotalFrom(s, p, phrases).None? <==> forall i :: 0 <= i < |phrases| ==> !AltMatches(s, p, phrases[i])
  {
    forall i | 0 <= i < |phrases| ensures AltAt(s, p, phrases[i]).None? <==> !AltMatches(s, p, phrases[i]) {
      AltAtNone(s, p, phrases[i]);
    }
    TotalFromOrder(s, p, phrases);
    if TotalFrom(s, p, phrases).Some? {
      var i :| 0 <= i < |phrases| && AltAt(s, p, phrases[i]) == TotalFrom(s, p, phrases)
        && forall j :: 0 <= j < i ==> AltAt(s, p, phrases[j]).None?;
    }
  }

  /** The total scanner finds the amount `s[f..e]` at `p` exactly when the
      total pattern matches there with that amount. */
  lemma TotalAtIff(s: string, p: nat, f: nat, e: nat)
    ensures TotalAt(s, p) == Some((f, e)) <==> TotalMatch(s, p, f, e)
  {
    TotalPhrasesWellSpaced();
    TotalFromSound(s, p, TotalPhrases);
    if TotalMatch(s, p, f, e) {
      TotalFromComplete(s, p, TotalPhrases, f, e);
    }
  }

  /** The total scanner finds nothing at `p` exactly when no alternative of
      the total pattern matches there. */
  lemma TotalAtNone(s: string, p: nat)
    ensures TotalAt(s, p).None? <==> forall i :: 0 <= i < |TotalPhrases| ==> !AltMatches(s, p, TotalPhrases[i])
  {
    TotalPhrasesWellSpaced();
    TotalFromNone(s, p, TotalPhrases);
  }

  /** The total found is the amount of a match of the total pattern at the
      leftmost position where it matches, and there is none exactly when no
      position matches. */
  lemma FindTotalSpec(s: string)
    ensures FindTotal(s).Some? ==> exists p: nat :: (p <= FindTotal(s).value.0
      && TotalMatch(s, p, FindTotal(s).value.0, FindTotal(s).value.1)
      && forall q: nat, f: nat, e: nat :: q < p ==> !TotalMatch(s, q, f, e))
    ensures FindTotal(s).None? <==> forall q: nat, f: nat, e: nat :: q <= |s| ==> !TotalMatch(s, q, f, e)
  {
    TotalMatchFound(s);
    var r := FindTotal(s);
    if r.Some? {
      var p: nat :| p <= r.value.0 && TotalAt(s, p) == r && forall q :: 0 <= q < p ==> TotalAt(s, q).None?;
      TotalAtIff(s, p, r.value.0, r.value.1);
    }
  }

  /** Every match of the total pattern is what the scanner finds at its position. */
  lemma TotalMatchFound(s: string)
    ensures forall q: nat, f: nat, e: nat :: TotalMatch(s, q, f, e) ==> TotalAt(s, q) == Some((f, e))
  {
    forall q: nat, f: nat, e: nat | TotalMatch(s, q, f, e) ensures TotalAt(s, q) == Some((f, e)) {
      TotalAtIff(s, q, f, e);
    }
  }

  /** "Total $4.49" yields "4.49". */
  lemma TotalExample()
    ensures var s := "Total $4.49"; FindTotal(s).Some? && s[FindTotal(s).value.0..FindTotal(s).value.1] == "4.49"
  {
    var s := "Total $4.49";
    assert s[7..11] == "4.49";
    assert s[5..7] == " $";
    assert Lower(s[0]) == 't';
    TotalKeywordAmount(s, 0, 7, 11);
  }

  // ---------------------------------------------------------------------
  // Priced item lines: `re.search(r'[A-Za-z]{2,}.*\d+[.,]\d{2}', l)`.

  /** A digit, `.` or `,`, and two digits, with the separator at `k`. */
  predicate PriceAt(l: string, k: nat) {
    1 <= k && k + 2 < |l| && IsDigit(l[k - 1]) && (l[k] == '.' || l[k] == ',')
    && IsDigit(l[k + 1]) && IsDigit(l[k + 2])
  }

  /** Some price separator at or after `k`. */
  predicate PriceFrom(l: string, k: nat)
    decreases |l| - k
  {
    k + 2 < |l| && (PriceAt(l, k) || PriceFrom(l, k + 1))
  }

  /** The first position at or after `i` holding two ASCII letters in a row. */
  function LetterPairFrom(l: string, i: nat): (r: Option<nat>)
    ensures r.Some? ==> i <= r.value && r.value + 1 < |l| && IsLetter(l[r.value]) && IsLetter(l[r.value + 1])
    ensures forall j :: i <= j && j + 1 < |l| && (r.None? || j < r.value) ==> !(IsLetter(l[j]) && IsLetter(l[j + 1]))
    decreases |l| - i
  {
    if i + 1 >= |l| then None
    else if IsLetter(l[i]) && IsLetter(l[i + 1]) then Some(i)
    else LetterPairFrom(l, i + 1)
  }

  /** The item test as a scan: find the first letter pair, then a price whose
      separator lies at least three places after it. */
  predicate IsItemLine(l: string) {
    match LetterPairFrom(l, 0)
    case None => false
    case Some(i) => PriceFrom(l, i + 3)
  }

  /** Letters at `i` and `i + 1`, and a price separator at `k`, after at least
      one more character for `\d+`. */
  predicate ItemShapeAt(l: string, i: nat, k: nat) {
    i + 3 <= k && i + 1 < |l| && IsLetter(l[i]) && IsLetter(l[i + 1]) && PriceAt(l, k)
  }

  /** The pattern as written: `[A-Za-z]{2,}` somewhere, then `\d+[.,]\d{2}`
      later (a line has no line break, so `.*` spans any gap). */
  ghost predicate HasItemShape(l: string) {
    exists i: nat, k: nat :: ItemShapeAt(l, i, k)
  }

  lemma {:induction false} PriceFromIff(l: string, k: nat)
    ensures PriceFrom(l, k) <==> exists m: nat :: k <= m && PriceAt(l, m)
    decreases |l| - k
  {
    if k + 2 < |l| {
      PriceFromIff(l, k + 1);
      if !PriceAt(l, k) {
        forall m: nat | k <= m && PriceAt(l, m) ensures k + 1 <= m {
        }
      }
    } else {
      forall m: nat | k <= m ensures !PriceAt(l, m) {
      }
    }
  }

  /** The scan decides exactly the pattern. */
  lemma ItemLineIff(l: string)
    ensures IsItemLine(l) <==> HasItemShape(l)
  {
    var first := LetterPairFrom(l, 0);
    if first.Some? {
      PriceFromIff(l, first.value + 3);
      if PriceFrom(l, first.value + 3) {
        var m: nat :| first.value + 3 <= m && PriceAt(l, m);
        assert ItemShapeAt(l, first.value, m);
      }
    }
    if HasItemShape(l) {
      var i: nat, k: nat :| ItemShapeAt(l, i, k);
      assert first.Some? && first.value <= i;
      PriceFromIff(l, first.value + 3);
    }
  }

  /** "Apples 3.50" is an item line. */
  lemma ItemExample()
    ensures IsItemLine("Apples 3.50")
  {
    assert ItemShapeAt("Apples 3.50", 0, 8);
    ItemLineIff("Apples 3.50");
  }

  /** A line without letters, such as "12/05/2024 3.50", is not an item line. */
  lemma NotItemExample()
    ensures !IsItemLine("12/05/2024 3.50")
  {
    var l := "12/05/2024 3.50";
    assert forall j :: 0 <= j < |l| ==> !IsLetter(l[j]);
  }
}
