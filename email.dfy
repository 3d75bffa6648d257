/** The email template of the email tab: `draft_email`, and the guard in
    `show_email_tab` that only drafts when the three text fields are filled. */
module Email {
  import opened Optional
  import opened Pieces

  // The openings of `tone_styles`. Each is written as a few short literals
  // so that facts about its characters stay cheap to check.
  const Professional: string := "I hope this " + "message finds " + "you well."
  const Friendly: string := "I hope you're " + "having a " + "great day!"
  const Apologetic: string := "Please accept " + "my sincere " + "apologies " + "for any " + "inconvenience " + "caused."
  const Persuasive: string := "I truly " + "believe this " + "could be a " + "great " + "opportunity " + "for you."
  const Formal: string := "I am writing " + "to you " + "regarding the " + "following " + "matter."
  const Casual: string := "Just wanted " + "to quickly " + "reach out " + "about this."

  /** The opening used for a tone missing from the table: the professional one. */
  const DefaultOpening: string := Professional

  /** `tone_styles`: the opening sentence of each known tone. */
  const ToneStyles: map<string, string> := map[
    "Professional" := Professional,
    "Friendly" := Friendly,
    "Apologetic" := Apologetic,
    "Persuasive" := Persuasive,
    "Formal" := Formal,
    "Casual" := Casual
  ]

  /** `tone_styles.get(tone, DefaultOpening)`. */
  function ToneOpening(tone: string): (r: string)
    ensures '\n' !in r
  {
    ProfessionalSingleLine();
    FriendlySingleLine();
    ApologeticSingleLine();
    PersuasiveSingleLine();
    FormalSingleLine();
    CasualSingleLine();
    assert "Professional" in ToneStyles;
    if tone in ToneStyles then ToneStyles[tone] else DefaultOpening
  }

  const Regards: string := "Best regards,  "
  const NamePlaceholder: string := "[Your Name]"

  /** The text after the details: the sign-off (two spaces after its comma)
      and the name placeholder, each on a line of its own. */
  const SignOff: string := "\n\n" + Regards + "\n" + NamePlaceholder + "\n"

  /** `draft_email(subject, recipient, tone, details)`: the fields are
      inserted as they are, and the draft starts directly with "Subject: ". */
  function DraftEmail(subject: string, recipient: string, tone: string, details: string): string
  {
    "Subject: " + subject + "\n\nDear " + recipient + ",\n\n" + ToneOpening(tone) + "\n\n" + details + SignOff
  }

  /** The lines of a draft before its details: the subject, the greeting
      and the opening, each followed by an empty line. */
  function HeadLines(subject: string, recipient: string, opening: string): seq<string>
  {
    ["Subject: " + subject, "", "Dear " + recipient + ",", "", opening, ""]
  }

  /** The lines of a draft after its details. */
  const TailLines: seq<string> := ["", Regards, NamePlaceholder, ""]

  lemma NoBreakConcat(a: string, b: string, c: string, d: string, e: string, f: string)
    requires '\n' !in a && '\n' !in b && '\n' !in c && '\n' !in d && '\n' !in e && '\n' !in f
    ensures '\n' !in a + b + c
    ensures '\n' !in a + b + c + d
    ensures '\n' !in a + b + c + d + e + f
  {
  }

  /** The openings have no line break, one lemma for each so that each proof stays small. */
  lemma ProfessionalSingleLine()
    ensures '\n' !in Professional
  {
    assert '\n' !in "I hope this " && '\n' !in "message finds " && '\n' !in "you well.";
    NoBreakConcat("I hope this ", "message finds ", "you well.", "", "", "");
  }

  lemma FriendlySingleLine()
    ensures '\n' !in Friendly
  {
    assert '\n' !in "I hope you're " && '\n' !in "having a " && '\n' !in "great day!";
    NoBreakConcat("I hope you're ", "having a ", "great day!", "", "", "");
  }

  lemma ApologeticSingleLine()
    ensures '\n' !in Apologetic
  {
    assert '\n' !in "Please accept " && '\n' !in "my sincere " && '\n' !in "apologies ";
    assert '\n' !in "for any " && '\n' !in "inconvenience " && '\n' !in "caused.";
    NoBreakConcat("Please accept ", "my sincere ", "apologies ", "for any ", "inconvenience ", "caused.");
  }

  lemma PersuasiveSingleLine()
    ensures '\n' !in Persuasive
  {
    assert '\n' !in "I truly " && '\n' !in "believe this " && '\n' !in "could be a ";
    assert '\n' !in "great " && '\n' !in "opportunity " && '\n' !in "for you.";
    NoBreakConcat("I truly ", "believe this ", "could be a ", "great ", "opportunity ", "for you.");
  }

  lemma FormalSingleLine()
    ensures '\n' !in Formal
  {
    assert '\n' !in "I am writing " && '\n' !in "to you " && '\n' !in "regarding the ";
    assert '\n' !in "following " && '\n' !in "matter.";
    NoBreakConcat("I am writing ", "to you ", "regarding the ", "following ", "matter.", "");
  }

  lemma CasualSingleLine()
    ensures '\n' !in Casual
  {
    assert '\n' !in "Just wanted " && '\n' !in "to quickly " && '\n' !in "reach out ";
    assert '\n' !in "about this.";
    NoBreakConcat("Just wanted ", "to quickly ", "reach out ", "about this.", "", "");
  }

  /** Each known tone has its own opening and every other tone gets the
      default one; no opening spans more than one line. */
  lemma ToneOpenings(tone: string)
    ensures ToneOpening("Professional") == DefaultOpening
    ensures ToneOpening("Friendly") == Friendly && ToneOpening("Apologetic") == Apologetic
    ensures ToneOpening("Persuasive") == Persuasive && ToneOpening("Formal") == Formal
    ensures ToneOpening("Casual") == Casual
    ensures tone !in ToneStyles ==> ToneOpening(tone) == DefaultOpening
  {
    assert "Professional" in ToneStyles;
    if tone !in {"Professional", "Friendly", "Apologetic", "Persuasive", "Formal", "Casual"} {
      assert tone !in ToneStyles;
    }
  }

  lemma JoinHead(a: string, rest: seq<string>)
    requires rest != []
    ensures Join([a] + rest, "\n") == a + "\n" + Join(rest, "\n")
  {
    assert ([a] + rest)[1..] == rest;
  }

  /** A line followed by an empty line. */
  lemma JoinPair(a: string, rest: seq<string>)
    requires rest != []
    ensures Join([a, ""] + rest, "\n") == a + "\n\n" + Join(rest, "\n")
  {
    assert [a, ""] + rest == [a] + ([""] + rest);
    JoinHead(a, [""] + rest);
    JoinHead("", rest);
  }

  /** The head lines, joined and followed by a line break, are the text
      before the details. */
  lemma HeadJoin(subject: string, recipient: string, opening: string)
    ensures Join(HeadLines(subject, recipient, opening), "\n") + "\n"
      == "Subject: " + subject + "\n\nDear " + recipient + ",\n\n" + opening + "\n\n"
  {
    var a, b := "Subject: " + subject, "Dear " + recipient + ",";
    JoinHead(opening, [""]);
    JoinPair(b, [opening, ""]);
    JoinPair(a, [b, "", opening, ""]);
    assert [a, ""] + [b, "", opening, ""] == HeadLines(subject, recipient, opening);
    assert [b, ""] + [opening, ""] == [b, "", opening, ""];
    assert "\n\nDear " == "\n\n" + "Dear " && ",\n\n" == "," + "\n\n";
  }

  /** A line break, then the tail lines joined, is the sign-off. */
  lemma TailJoin()
    ensures SignOff == "\n" + Join(TailLines, "\n")
  {
    JoinHead(NamePlaceholder, [""]);
    JoinHead(Regards, [NamePlaceholder, ""]);
    JoinHead("", [Regards, NamePlaceholder, ""]);
    assert [Regards] + [NamePlaceholder, ""] == [Regards, NamePlaceholder, ""];
    assert [""] + [Regards, NamePlaceholder, ""] == TailLines;
  }

  /** The draft is the head lines joined, a line break, the details, a line
      break and the tail lines joined. */
  lemma DraftParts(subject: string, recipient: string, tone: string, details: string)
    ensures DraftEmail(subject, recipient, tone, details)
      == Join(HeadLines(subject, recipient, ToneOpening(tone)), "\n") + "\n" + details + "\n" + Join(TailLines, "\n")
  {
    HeadJoin(subject, recipient, ToneOpening(tone));
    TailJoin();
  }

  /** Head lines built from single-line fields are single lines, and so are
      the tail lines. */
  lemma HeadSingleLines(subject: string, recipient: string, opening: string)
    requires '\n' !in subject && '\n' !in recipient && '\n' !in opening
    ensures forall i :: 0 <= i < 6 ==> '\n' !in HeadLines(subject, recipient, opening)[i]
    ensures forall i :: 0 <= i < 4 ==> '\n' !in TailLines[i]
  {
    assert '\n' !in "Subject: " && '\n' !in "Dear " && '\n' !in ",";
    assert '\n' !in Regards && '\n' !in NamePlaceholder;
  }

  /** Text around two line breaks splits into the pieces of each part. */
  lemma SplitThree(h: string, d: string, t: string)
    ensures Split(h + "\n" + d + "\n" + t, "\n") == Split(h, "\n") + Split(d, "\n") + Split(t, "\n")
  {
    assert h + "\n" + d + "\n" + t == h + "\n" + (d + "\n" + t);
    SplitConcat(h, '\n', d + "\n" + t);
    SplitConcat(d, '\n', t);
  }

  /** Splitting a draft at line breaks gives the six head lines, the lines of
      the details, and the four tail lines: no leading blank line, the fields
      verbatim, and a final line break. */
  lemma DraftLines(subject: string, recipient: string, tone: string, details: string)
    requires '\n' !in subject && '\n' !in recipient
    ensures Split(DraftEmail(subject, recipient, tone, details), "\n")
      == HeadLines(subject, recipient, ToneOpening(tone)) + Split(details, "\n") + TailLines
  {
    var head := HeadLines(subject, recipient, ToneOpening(tone));
    DraftParts(subject, recipient, tone, details);
    HeadSingleLines(subject, recipient, ToneOpening(tone));
    SplitJoin(head, '\n');
    SplitJoin(TailLines, '\n');
    SplitThree(Join(head, "\n"), details, Join(TailLines, "\n"));
  }

  /** Drafts whose subject and recipient have no line breaks determine the
      subject, the recipient, the details and the opening. */
  lemma DraftDetermines(s1: string, r1: string, t1: string, d1: string, s2: string, r2: string, t2: string, d2: string)
    requires '\n' !in s1 && '\n' !in r1 && '\n' !in s2 && '\n' !in r2
    requires DraftEmail(s1, r1, t1, d1) == DraftEmail(s2, r2, t2, d2)
    ensures s1 == s2 && r1 == r2 && d1 == d2 && ToneOpening(t1) == ToneOpening(t2)
  {
    DraftLines(s1, r1, t1, d1);
    DraftLines(s2, r2, t2, d2);
    var h1, h2 := HeadLines(s1, r1, ToneOpening(t1)), HeadLines(s2, r2, ToneOpening(t2));
    var p1, p2 := Split(d1, "\n"), Split(d2, "\n");
    var l1, l2 := h1 + p1 + TailLines, h2 + p2 + TailLines;
    assert l1 == l2;
    assert l1[..6] == h1 && l2[..6] == h2;
    assert l1[6..|l1| - 4] == p1 && l2[6..|l2| - 4] == p2;
    assert h1[0] == h2[0] && h1[2] == h2[2] && h1[4] == h2[4];
    assert s1 == h1[0][9..] && s2 == h2[0][9..];
    assert r1 == h1[2][5..|h1[2]| - 1] && r2 == h2[2][5..|h2[2]| - 1];
    JoinSplit(d1, "\n");
    JoinSplit(d2, "\n");
  }

  /** The guard in `show_email_tab` and the draft it produces: a draft exactly
      when subject, recipient and details are all non-empty. */
  function GenerateEmail(subject: string, recipient: string, tone: string, details: string): (r: Option<string>)
    ensures r.Some? <==> subject != [] && recipient != [] && details != []
    ensures r.Some? ==> r.value == DraftEmail(subject, recipient, tone, details)
  {
    if subject == [] || recipient == [] || details == [] then None
    else Some(DraftEmail(subject, recipient, tone, details))
  }
}
