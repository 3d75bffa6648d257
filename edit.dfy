/** The rule-based editor of the editorial tab (`editorial_support`). */
module Edit {
  import opened Chars
  import opened Substitute
  import opened Pieces
  import opened Whitespace

  const Concise := "Make it concise"
  const Grammar := "Improve grammar"
  const Tone := "Enhance tone"
  const Persuasive := "Make it persuasive"

  /** Longest output of the concise goal, in words. */
  const WordLimit := 100

  const Ellipsis := "..."
  const Closing := "\n\nI truly believe this will make a positive impact!"

  /** `" ".join(words[:100]) + ("..." if len(words) > 100 else "")`. */
  function Shorten(improved: string): string
  {
    var ws := Words(improved);
    var kept := if |ws| <= WordLimit then ws else ws[..WordLimit];
    Join(kept, " ") + (if |ws| > WordLimit then Ellipsis else "")
  }

  /** The three chained replacements of the grammar goal. */
  function FixGrammar(s: string): string
  {
    Replace(Replace(Replace(s, "i ", "I "), " dont ", " don't "), " cant ", " can't ")
  }

  /** The two chained replacements of the tone goal. */
  function SoftenTone(s: string): string
  {
    Replace(Replace(s, "sorry", "I apologize"), "please", "kindly")
  }

  /** `editorial_support(text, goal)`: every goal works on the stripped text;
      a goal other than the four handled ones returns it unchanged. */
  function EditorialSupport(text: string, goal: string): (r: string)
    ensures goal == Persuasive ==> |r| >= |Closing| && r[|r| - |Closing|..] == Closing
    ensures goal == Persuasive ==> r[..|r| - |Closing|] == Strip(text)
    ensures goal !in {Concise, Grammar, Tone, Persuasive} ==> r == Strip(text)
  {
    var improved := Strip(text);
    if goal == Concise then Shorten(improved)
    else if goal == Grammar then FixGrammar(improved)
    else if goal == Tone then SoftenTone(improved)
    else if goal == Persuasive then improved + Closing
    else improved
  }

  /** What the concise goal keeps: all words when there are at most 100,
      otherwise the first 100 with "..." glued to the last of them. */
  lemma ShortenWords(improved: string)
    ensures var ws := Words(improved);
      |ws| <= WordLimit ==> Shorten(improved) == Join(ws, " ") && Words(Shorten(improved)) == ws
    ensures var ws := Words(improved);
      |ws| > WordLimit ==> Shorten(improved) == Join(ws[..WordLimit], " ") + Ellipsis
                           && Words(Shorten(improved)) == ws[..WordLimit - 1] + [ws[WordLimit - 1] + Ellipsis]
  {
    var ws := Words(improved);
    if |ws| <= WordLimit {
      WordsOfJoin(ws);
    } else {
      ShortenCut(ws);
    }
  }

  /** Cutting a list of more than 100 words to 100 and appending "...". */
  lemma ShortenCut(ws: seq<string>)
    requires AreWords(ws) && |ws| > WordLimit
    ensures Words(Join(ws[..WordLimit], " ") + Ellipsis) == ws[..WordLimit - 1] + [ws[WordLimit - 1] + Ellipsis]
  {
    var kept := ws[..WordLimit];
    var vs := kept[..WordLimit - 1] + [kept[WordLimit - 1] + Ellipsis];
    JoinExtendLast(kept, Ellipsis);
    assert AreWords(vs) by {
      forall i | 0 <= i < |vs| ensures vs[i] != [] && NoSpace(vs[i]) {
        if i < WordLimit - 1 {
          assert vs[i] == ws[i];
        }
      }
    }
    WordsOfJoin(vs);
    assert vs == ws[..WordLimit - 1] + [ws[WordLimit - 1] + Ellipsis];
  }

  /** The concise goal never yields more than 100 words, and applying it to
      its own output changes nothing. */
  lemma ConciseIdempotent(text: string)
    ensures |Words(EditorialSupport(text, Concise))| <= WordLimit
    ensures EditorialSupport(EditorialSupport(text, Concise), Concise) == EditorialSupport(text, Concise)
  {
    assert EditorialSupport(text, Concise) == Shorten(Strip(text));
    var out := Shorten(Strip(text));
    var ws := Words(Strip(text));
    ShortenWords(Strip(text));
    var vs := Words(out);
    assert out == Join(vs, " ") by {
      if |ws| > WordLimit {
        JoinExtendLast(ws[..WordLimit], Ellipsis);
        assert ws[..WordLimit][..WordLimit - 1] == ws[..WordLimit - 1];
      }
    }
    JoinWordsEnds(vs);
    StripUnchanged(out);
    ShortenWords(out);
  }

  /** After the grammar goal no "i " is left, not even inside a word. */
  lemma GrammarLeavesNoLowerI(text: string)
    ensures !Contains(EditorialSupport(text, Grammar), "i ")
  {
    assert EditorialSupport(text, Grammar) == FixGrammar(Strip(text));
    var s1 := Replace(Strip(text), "i ", "I ");
    ReplaceRemoves(Strip(text), "i ", "I ");
    var s2 := Replace(s1, " dont ", " don't ");
    ReplacePreserves(s1, " dont ", " don't ", "i ");
    ReplacePreserves(s2, " cant ", " can't ", "i ");
  }

  /** The "i " rule is case-sensitive and ignores word boundaries: an "i"
      that ends a word is capitalised even after another letter. The text
      here has no other "i", "d" or "c", so the other rules leave it alone. */
  lemma GrammarInsideWords(c: char, t: string)
    requires c !in "idc " && 'i' !in t && 'd' !in t && 'c' !in t
    ensures FixGrammar([c] + "i " + t) == [c] + "I " + t
  {
    var s := [c] + "i " + t;
    assert s == [c] + ("i " + t);
    assert s[0] == c;
    ReplaceSkipChar(c, "i " + t, "i ", "I ");
    ReplaceAtMatch("i ", "I ", t);
    ReplaceLacking(t, "i ", "I ", 0);
    var s1 := [c] + "I " + t;
    assert [c] + ("I " + t) == s1;
    assert 'd' !in s1 && 'c' !in s1 by {
      assert s1 == [c] + ("I " + t);
    }
    ReplaceLacking(s1, " dont ", " don't ", 1);
    ReplaceLacking(s1, " cant ", " can't ", 1);
  }

  /** For instance "hi there" becomes "hI there". */
  lemma GrammarOnHiThere()
    ensures FixGrammar("hi there") == "hI there"
  {
    GrammarInsideWords('h', "there");
    assert ['h'] + "i " + "there" == "hi there";
    assert ['h'] + "I " + "there" == "hI there";
  }

  /** After the tone goal neither "sorry" nor "please" is left. */
  lemma ToneLeavesNoSorryOrPlease(text: string)
    ensures !Contains(EditorialSupport(text, Tone), "sorry")
    ensures !Contains(EditorialSupport(text, Tone), "please")
  {
    assert EditorialSupport(text, Tone) == SoftenTone(Strip(text));
    var s1 := Replace(Strip(text), "sorry", "I apologize");
    ToneRulesSafe();
    ReplaceRemoves(Strip(text), "sorry", "I apologize");
    ReplaceRemoves(s1, "please", "kindly");
    ReplacePreserves(s1, "please", "kindly", "sorry");
  }

  lemma ToneRulesSafe()
    ensures 's' !in "I apologize" && PrefixSafe("orry", "sorry", "I apologize")
    ensures 'p' !in "kindly" && PrefixSafe("lease", "please", "kindly")
    ensures 's' !in "kindly" && PrefixSafe("orry", "please", "kindly")
  {
  }
}
