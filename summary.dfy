/** The extractive summariser of the summary tab (`summarize_text`): keep the
    leading ". "-separated pieces of the text and mark a cut with "...". */
module Summary {
  import opened Chars
  import opened Pieces

  const VeryShort: string := "Very short (1\U{2013}2 lines)"
  const Short: string := "Short (3\U{2013}5 lines)"

  /** The separator the text is cut at and re-joined with. */
  const SentenceSep: string := ". "

  const Ellipsis: string := "..."

  /** The warning returned when there are no pieces. */
  const NoContent: string := "\U{26A0}\U{FE0F} No content to summarize."

  /** How many pieces each length option keeps; any option other than the two
      short ones is the detailed paragraph. */
  function SentenceLimit(option: string): nat
  {
    if option == VeryShort then 2 else if option == Short then 5 else 10
  }

  /** `sentences[:n]`. */
  function Take(ps: seq<string>, n: nat): (r: seq<string>)
    ensures |r| == if |ps| <= n then |ps| else n
    ensures r <= ps
  {
    if |ps| <= n then ps else ps[..n]
  }

  /** `summarize_text(text, option)`. A text with no more pieces than the
      option keeps is returned stripped, without "...". */
  function SummarizeText(text: string, option: string): (r: string)
    ensures |Split(text, SentenceSep)| <= SentenceLimit(option) ==> r == Strip(text)
  {
    JoinSplit(text, SentenceSep);
    var sentences := Split(text, SentenceSep);
    if sentences == [] then NoContent
    else
      var summary := Join(Take(sentences, SentenceLimit(option)), SentenceSep);
      Strip(summary) + (if |sentences| > |Split(summary, SentenceSep)| then Ellipsis else "")
  }

  const Detailed: string := "Detailed paragraph"

  /** Any option other than the two short ones summarises like the detailed one. */
  lemma OtherOptionsAreDetailed(text: string, option: string)
    requires option != VeryShort && option != Short
    ensures SummarizeText(text, option) == SummarizeText(text, Detailed)
  {
    assert Detailed != VeryShort && Detailed != Short;
  }

  /** A longer text is cut: before stripping, the summary is a prefix of the
      text whose own pieces are exactly the leading pieces kept, and "..." is
      appended. */
  lemma SummaryCut(text: string, option: string)
    requires |Split(text, SentenceSep)| > SentenceLimit(option)
    ensures exists prefix :: (prefix <= text
      && Split(prefix, SentenceSep) == Split(text, SentenceSep)[..SentenceLimit(option)]
      && SummarizeText(text, option) == Strip(prefix) + Ellipsis)
  {
    var n := SentenceLimit(option);
    var sentences := Split(text, SentenceSep);
    SplitTake(text, SentenceSep, n);
    var prefix := Join(sentences[..n], SentenceSep);
    assert Take(sentences, n) == sentences[..n];
    assert |Split(prefix, SentenceSep)| == n;
    assert SummarizeText(text, option) == Strip(prefix) + Ellipsis;
  }

  /** An empty text summarises to the empty string. */
  lemma SummaryOfEmpty(option: string)
    ensures SummarizeText("", option) == ""
  {
    assert Split("", SentenceSep) == [""];
  }
}
