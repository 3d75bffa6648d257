/** `clean_ocr_text`: fixes known misreadings of the text recogniser, then
    drops blank lines and lines made only of digits and symbols. */
module OcrClean {
  import opened Chars
  import opened Substitute
  import opened Pieces
  import opened TextLines

  /** The corrections table, in declaration order (a Python dict iterates in
      insertion order). */
  const Corrections: seq<(string, string)> := [
    ("Toial", "Total"),
    ("S", "$"),
    ("Am", ""),
    ("EXPIRES", ""),
    ("PAYMENT", ""),
    ("CAED", "CARD"),
    ("GIei", "GIFT"),
    ("CASUNNGE", "CASH")
  ]

  /** The rules applied one after another, each to the whole text that the
      previous ones produced. */
  function ApplyAll(text: string, rules: seq<(string, string)>): string
    decreases |rules|
  {
    if rules == [] then text
    else
      var last := rules[|rules| - 1];
      Replace(ApplyAll(text, rules[..|rules| - 1]), last.0, last.1)
  }

  /** Characters that may make up a line with no words: digits, whitespace, `/ . , $`. */
  predicate IsNoiseChar(c: char) {
    IsDigit(c) || IsSpace(c) || c == '/' || c == '.' || c == ',' || c == '$'
  }

  /** `re.match(r'^[\d\s/.,$]+$', l)`. */
  predicate IsNoiseLine(l: string) {
    l != [] && forall k :: 0 <= k < |l| ==> IsNoiseChar(l[k])
  }

  /** The test of the second loop: a line is kept when it is not noise. */
  predicate IsKeptLine(l: string) {
    !IsNoiseLine(l)
  }

  /** The lines of corrected text that `clean_ocr_text` keeps, in order. */
  function KeptLines(corrected: string): seq<string>
  {
    Filter(NonBlankLines(corrected), IsKeptLine)
  }

  /** What `clean_ocr_text(text)` returns. */
  function Cleaned(text: string): string
  {
    Join(KeptLines(ApplyAll(text, Corrections)), "\n")
  }

  /** `clean_ocr_text`: one loop rewrites the text once per correction, a
      second collects the lines that are not noise. */
  method CleanOcrText(text: string) returns (cleaned: string)
    ensures cleaned == Cleaned(text)
  {
    var t := text;
    for i := 0 to |Corrections|
      invariant t == ApplyAll(text, Corrections[..i])
    {
      var (wrong, right) := Corrections[i];
      ApplyAllStep(text, Corrections, i);
      t := Replace(t, wrong, right);
    }
    assert Corrections[..|Corrections|] == Corrections;
    var lines := NonBlankLines(t);
    var filtered: seq<string> := [];
    for i := 0 to |lines|
      invariant filtered == Filter(lines[..i], IsKeptLine)
    {
      FilterStep(lines, i, IsKeptLine);
      if !IsNoiseLine(lines[i]) {
        filtered := filtered + [lines[i]];
      }
    }
    assert lines[..|lines|] == lines;
    cleaned := Join(filtered, "\n");
  }

  /** One more rule is one more replacement. */
  lemma ApplyAllStep(text: string, rules: seq<(string, string)>, i: nat)
    requires i < |rules|
    ensures ApplyAll(text, rules[..i + 1]) == Replace(ApplyAll(text, rules[..i]), rules[i].0, rules[i].1)
  {
    assert rules[..i + 1][..i] == rules[..i];
  }

  lemma {:induction false} ApplyAllAppend(text: string, a: seq<(string, string)>, b: seq<(string, string)>)
    ensures ApplyAll(text, a + b) == ApplyAll(ApplyAll(text, a), b)
    decreases |b|
  {
    if b == [] {
      assert a + b == a;
    } else {
      assert (a + b)[..|a + b| - 1] == a + b[..|b| - 1];
      ApplyAllAppend(text, a, b[..|b| - 1]);
    }
  }

  /** No rule brings back a character the text lacks unless its replacement has it. */
  lemma {:induction false} ApplyAllKeepsOut(text: string, rules: seq<(string, string)>, c: char)
    requires c !in text
    requires forall i :: 0 <= i < |rules| ==> c !in rules[i].1
    ensures c !in ApplyAll(text, rules)
    decreases |rules|
  {
    if rules != [] {
      ApplyAllKeepsOut(text, rules[..|rules| - 1], c);
      ReplaceKeepsOut(ApplyAll(text, rules[..|rules| - 1]), rules[|rules| - 1].0, rules[|rules| - 1].1, c);
    }
  }

  /** Rules whose patterns start with a character the text lacks change nothing. */
  lemma {:induction false} ApplyAllIdle(text: string, rules: seq<(string, string)>)
    requires forall i :: 0 <= i < |rules| ==> rules[i].0 != [] && rules[i].0[0] !in text
    ensures ApplyAll(text, rules) == text
    decreases |rules|
  {
    if rules != [] {
      ApplyAllIdle(text, rules[..|rules| - 1]);
      ReplaceLacking(text, rules[|rules| - 1].0, rules[|rules| - 1].1, 0);
    }
  }

  /** From the "S" rule on, the text has no capital S: that rule rewrites every
      one, and the replacements that follow it up to "CARD"/"GIFT" have none. */
  lemma NoCapitalSAfterDollarRule(text: string, k: nat)
    requires 2 <= k <= 7
    ensures 'S' !in ApplyAll(text, Corrections[..k])
  {
    var afterS := ApplyAll(text, Corrections[..2]);
    assert Corrections[..2][..1] == Corrections[..1];
    ReplaceEliminates(ApplyAll(text, Corrections[..1]), 'S', "$");
    assert Corrections[..k] == Corrections[..2] + Corrections[2..k];
    ApplyAllAppend(text, Corrections[..2], Corrections[2..k]);
    assert forall i :: 0 <= i < |Corrections[2..k]| ==> 'S' !in Corrections[2..k][i].1 by {
      assert 'S' !in Corrections[2].1 && 'S' !in Corrections[3].1 && 'S' !in Corrections[4].1;
      assert 'S' !in Corrections[5].1 && 'S' !in Corrections[6].1;
    }
    ApplyAllKeepsOut(afterS, Corrections[2..k], 'S');
  }

  /** Hence the "EXPIRES" and "CASUNNGE" rules, whose patterns contain an S,
      can never fire (so the S of "CASH" is never written either), and the
      corrected text has no capital S. */
  lemma DeadCorrections(text: string)
    ensures ApplyAll(text, Corrections[..4]) == ApplyAll(text, Corrections[..3])
    ensures ApplyAll(text, Corrections) == ApplyAll(text, Corrections[..7])
    ensures 'S' !in ApplyAll(text, Corrections)
  {
    NoCapitalSAfterDollarRule(text, 3);
    NoCapitalSAfterDollarRule(text, 7);
    assert Corrections[..4][..3] == Corrections[..3];
    ReplaceLacking(ApplyAll(text, Corrections[..3]), "EXPIRES", "", 6);
    assert Corrections[..8] == Corrections;
    assert Corrections[..8][..7] == Corrections[..7];
    ReplaceLacking(ApplyAll(text, Corrections[..7]), "CASUNNGE", "CASH", 2);
  }

  /** Every kept line is a stripped, non-blank line that is not noise. The
      kept lines keep their original order: they are the lines at the
      positions of the lines that are not noise, in increasing order, and
      each of them occurs as often as among all the lines. */
  lemma KeptLinesShape(corrected: string)
    ensures forall l :: l in KeptLines(corrected) ==> IsStrippedLine(l) && !IsNoiseLine(l)
    ensures forall l :: l in NonBlankLines(corrected) && !IsNoiseLine(l) ==> l in KeptLines(corrected)
    ensures var lines := NonBlankLines(corrected);
      var idx := KeptIndices(lines, IsKeptLine);
      && Picks(KeptLines(corrected), lines, idx)
      && (forall j, k :: 0 <= j < k < |idx| ==> idx[j] < idx[k])
      && (forall i :: 0 <= i < |lines| ==> (i in idx <==> !IsNoiseLine(lines[i])))
    ensures forall l :: multiset(KeptLines(corrected))[l] == if IsNoiseLine(l) then 0 else multiset(NonBlankLines(corrected))[l]
  {
    NonBlankLinesSpec(corrected);
    FilterOrder(NonBlankLines(corrected), IsKeptLine);
    forall l ensures multiset(KeptLines(corrected))[l] == if IsNoiseLine(l) then 0 else multiset(NonBlankLines(corrected))[l] {
      FilterCount(NonBlankLines(corrected), IsKeptLine, l);
    }
  }

  /** Every character of every line comes from the text. */
  lemma LinesWithin(text: string)
    ensures forall l, c :: l in NonBlankLines(text) && c in l ==> c in text
  {
    NonBlankLinesSpec(text);
    SplitWithin(text, "\n");
    forall l, c | l in NonBlankLines(text) && c in l ensures c in text {
      var p :| p in Split(text, "\n") && l == Strip(p);
      StripWithin(p);
    }
  }

  /** The cleaned text is the kept lines joined by line breaks: each of them a
      stripped, non-blank line of the corrected text that is not noise and has
      no capital S, and every such line is kept, in the original order and as
      often as it occurs. Splitting the output at line
      breaks gives the kept lines back, so the output has no blank line. */
  lemma CleanedLines(text: string)
    ensures var kept := KeptLines(ApplyAll(text, Corrections));
      && (kept == [] <==> Cleaned(text) == [])
      && (kept != [] ==> Split(Cleaned(text), "\n") == kept)
    ensures forall l :: l in KeptLines(ApplyAll(text, Corrections)) ==>
      IsStrippedLine(l) && !IsNoiseLine(l) && 'S' !in l
    ensures forall l :: l in NonBlankLines(ApplyAll(text, Corrections)) && !IsNoiseLine(l) ==>
      l in KeptLines(ApplyAll(text, Corrections))
    ensures var lines := NonBlankLines(ApplyAll(text, Corrections));
      Picks(KeptLines(ApplyAll(text, Corrections)), lines, KeptIndices(lines, IsKeptLine))
    ensures forall l :: (multiset(KeptLines(ApplyAll(text, Corrections)))[l] ==
      if IsNoiseLine(l) then 0 else multiset(NonBlankLines(ApplyAll(text, Corrections)))[l])
  {
    var corrected := ApplyAll(text, Corrections);
    var kept := KeptLines(corrected);
    KeptLinesShape(corrected);
    DeadCorrections(text);
    LinesWithin(corrected);
    if kept != [] {
      assert kept[0] in kept;
      JoinPrefix(kept, "\n");
      forall i | 0 <= i < |kept| ensures '\n' !in kept[i] {
        assert kept[i] in kept;
      }
      SplitJoin(kept, '\n');
    }
  }

  /** A text made only of digits, whitespace and `/ . , $` cleans to nothing. */
  lemma NoiseTextCleansToEmpty(text: string)
    requires forall k :: 0 <= k < |text| ==> IsNoiseChar(text[k])
    ensures Cleaned(text) == []
  {
    assert forall i :: 0 <= i < |Corrections| ==> Corrections[i].0 != [] && !IsNoiseChar(Corrections[i].0[0]);
    ApplyAllIdle(text, Corrections);
    assert KeptLines(text) == [] by {
      NoiseLines(text);
    }
  }

  lemma NoiseLines(text: string)
    requires forall k :: 0 <= k < |text| ==> IsNoiseChar(text[k])
    ensures KeptLines(text) == []
  {
    NonBlankLinesSpec(text);
    LinesWithin(text);
    forall l | l in NonBlankLines(text) ensures IsNoiseLine(l) {
      forall k | 0 <= k < |l| ensures IsNoiseChar(l[k]) {
        assert l[k] in l;
        assert l[k] in text;
      }
    }
    FilterNone(NonBlankLines(text), IsKeptLine);
  }
}
