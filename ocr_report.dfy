/** `parse_text`: the structured record of the fields found in the recognised
    text, and the numbered report built from it line by line. */
module OcrReport {
  import opened Chars
  import opened Pieces
  import opened Optional
  import opened TextLines
  import opened OcrFields

  /** The record `parse_text` returns; `None` stands for Python's `None`. */
  datatype Fields = Fields(store: Option<string>, date: Option<string>, total: Option<string>, items: seq<string>)

  /** `match.group(k)` when there is a match, `None` otherwise. */
  function Group(s: string, span: Option<(nat, nat)>): (r: Option<string>)
    requires span.Some? ==> span.value.0 <= span.value.1 <= |s|
    ensures r.Some? <==> span.Some?
    ensures r.Some? ==> |r.value| == span.value.1 - span.value.0
  {
    if span.None? then None else Some(s[span.value.0..span.value.1])
  }

  /** The priced item lines of the normalised text, in order. */
  function ItemLines(n: string): seq<string>
  {
    Filter(NonBlankLines(n), IsItemLine)
  }

  /** The record `parse_text(text)` returns. */
  function ParseFields(text: string): Fields
  {
    var n := Normalize(text);
    Fields(Group(n, FindStore(n)), Group(n, FindDate(n)), Group(n, FindTotal(n)), ItemLines(n))
  }

  /** A keyword found in a text is found in any slice that keeps it whole. */
  lemma FoldedAtSlice(s: string, p: nat, e: nat, kw: string)
    requires FoldedAt(s, p, kw) && p + |kw| <= e <= |s|
    ensures FoldedAt(s[p..e], 0, kw)
  {
    forall j | 0 <= j < |kw| ensures Lower(s[p..e][j]) == kw[j] {
      assert s[p..e][j] == s[p + j];
    }
  }

  /** A date match, cut out of its text, is a date match on its own. */
  lemma DateMatchSlice(s: string, p: nat, e: nat)
    requires DateMatch(s, p, e)
    ensures e <= |s| && DateMatch(s[p..e], 0, e - p)
  {
    var i: nat, j: nat :| DayFirst(s, p, i, j, e) || YearFirst(s, p, i, j, e);
    var t := s[p..e];
    assert forall k :: 0 <= k < |t| ==> t[k] == s[p + k];
    assert IsDigit(t[0]) && IsDigit(t[|t| - 1]);
    assert Boundary(t, 0) && Boundary(t, e - p);
    if DayFirst(s, p, i, j, e) {
      assert DayFirst(t, 0, i - p, j - p, e - p);
    } else {
      assert YearFirst(t, 0, i - p, j - p, e - p);
    }
  }

  /** The group of a span where the merchant pattern matches starts with one
      of the keywords. */
  lemma StoreGroup(n: string, found: Option<(nat, nat)>)
    requires forall i :: 0 <= i < |StoreKeywords| ==> StoreKeywords[i] != []
    requires found.Some? ==> (found.value.0 < found.value.1 <= |n|
      && StoreAt(n, found.value.0, StoreKeywords) == Some(found.value.1))
    ensures var g := Group(n, found);
      g.Some? ==> exists i :: 0 <= i < |StoreKeywords| && FoldedAt(g.value, 0, StoreKeywords[i])
  {
    if found.Some? {
      var (p, e) := found.value;
      var i := FirstKeyword(n, p, StoreKeywords).value;
      FoldedAtSlice(n, p, e, StoreKeywords[i]);
      assert Group(n, found).value == n[p..e];
    }
  }

  /** A merchant, when found, starts with one of the keywords (in any case),
      so it is never empty. */
  lemma StoreFieldSpec(text: string)
    ensures var f := ParseFields(text);
      f.store.Some? ==> exists i :: 0 <= i < |StoreKeywords| && FoldedAt(f.store.value, 0, StoreKeywords[i])
  {
    var n := Normalize(text);
    StoreKeywordsNonEmpty();
    assert ParseFields(text).store == Group(n, FindStore(n));
    StoreGroup(n, FindStore(n));
  }

  /** The span `DateAt` finds, cut out of its text, matches the date pattern on its own. */
  lemma DateAtSlice(n: string, p: nat, e: nat)
    requires DateAt(n, p) == Some(e)
    ensures p <= e <= |n| && DateMatch(n[p..e], 0, e - p)
  {
    DateAtSound(n, p);
    DateMatchSlice(n, p, e);
  }

  /** The group of a span that `DateAt` finds matches the date pattern on its own. */
  lemma DateGroup(n: string, found: Option<(nat, nat)>)
    requires found.Some? ==> DateAt(n, found.value.0) == Some(found.value.1)
    ensures found.Some? ==> found.value.0 <= found.value.1 <= |n|
    ensures var g := Group(n, found); g.Some? ==> DateMatch(g.value, 0, |g.value|)
  {
    if found.Some? {
      var (p, e) := found.value;
      DateAtSlice(n, p, e);
      assert Group(n, found).value == n[p..e];
    }
  }

  /** A date, when found, matches the date pattern on its own. */
  lemma DateFieldSpec(text: string)
    ensures var f := ParseFields(text);
      f.date.Some? ==> DateMatch(f.date.value, 0, |f.date.value|)
  {
    var n := Normalize(text);
    assert ParseFields(text).date == Group(n, FindDate(n));
    DateGroup(n, FindDate(n));
  }

  /** A total, when found, is digits, `.` or `,`, and two digits. */
  lemma TotalFieldSpec(text: string)
    ensures var f := ParseFields(text); f.total.Some? ==> IsAmount(f.total.value)
  {
    var n := Normalize(text);
    var f := ParseFields(text);
    if f.total.Some? {
      assert f.total.value == n[FindTotal(n).value.0..FindTotal(n).value.1];
    }
  }

  /** The items are exactly the stripped non-empty lines of the normalised
      text that match the item pattern, in their original order and without
      deduplication: they are the lines at the matching positions, in
      increasing order, and each occurs as often as among the lines. */
  lemma ItemsFieldSpec(text: string)
    ensures forall l :: l in ParseFields(text).items <==> l in NonBlankLines(Normalize(text)) && HasItemShape(l)
    ensures var lines := NonBlankLines(Normalize(text));
      var idx := KeptIndices(lines, IsItemLine);
      && Picks(ParseFields(text).items, lines, idx)
      && (forall j, k :: 0 <= j < k < |idx| ==> idx[j] < idx[k])
      && (forall i :: 0 <= i < |lines| ==> (i in idx <==> HasItemShape(lines[i])))
    ensures forall l :: (multiset(ParseFields(text).items)[l] ==
      if HasItemShape(l) then multiset(NonBlankLines(Normalize(text)))[l] else 0)
  {
    var n := Normalize(text);
    var lines := NonBlankLines(n);
    assert ParseFields(text).items == ItemLines(n);
    forall l ensures l in ItemLines(n) <==> l in lines && HasItemShape(l) {
      ItemLineIff(l);
    }
    FilterOrder(lines, IsItemLine);
    forall i | 0 <= i < |lines| ensures IsItemLine(lines[i]) <==> HasItemShape(lines[i]) {
      ItemLineIff(lines[i]);
    }
    forall l ensures multiset(ItemLines(n))[l] == if HasItemShape(l) then multiset(lines)[l] else 0 {
      FilterCount(lines, IsItemLine, l);
      ItemLineIff(l);
    }
  }

  // ---------------------------------------------------------------------
  // Numbering: `f"{i+1}. {item}"`.

  function DigitChar(d: nat): (c: char)
    requires d < 10
    ensures IsDigit(c) && c as int - '0' as int == d
  {
    ('0' as int + d) as char
  }

  /** `str(n)` for a natural number: its decimal digits. */
  function DecimalString(n: nat): (r: string)
    ensures r != [] && AllDigits(r)
    ensures n > 0 ==> r[0] != '0'
    decreases n
  {
    if n < 10 then [DigitChar(n)] else DecimalString(n / 10) + [DigitChar(n % 10)]
  }

  /** `int(r)` for a string of decimal digits. */
  function DecimalValue(r: string): nat
    requires AllDigits(r)
    decreases |r|
  {
    if r == [] then 0 else DecimalValue(r[..|r| - 1]) * 10 + (r[|r| - 1] as int - '0' as int)
  }

  /** Reading back the digits gives the number. */
  lemma {:induction false} DecimalRoundTrip(n: nat)
    ensures DecimalValue(DecimalString(n)) == n
    decreases n
  {
    var r := DecimalString(n);
    if n >= 10 {
      DecimalRoundTrip(n / 10);
      assert r[..|r| - 1] == DecimalString(n / 10);
    }
  }

  /** The report line of the item at (zero-based) position `i`. */
  function ItemEntry(i: nat, item: string): string
  {
    DecimalString(i + 1) + ". " + item
  }

  function NumberedItems(items: seq<string>): (r: seq<string>)
    ensures |r| == |items|
  {
    seq(|items|, i requires 0 <= i < |items| => ItemEntry(i, items[i]))
  }

  // ---------------------------------------------------------------------
  // The report. The leading symbols of the labels are single characters.

  const StoreLabel: string := "\U{1F6D2} Store: "
  const DateLabel: string := "\U{1F4C5} Date: "
  const TotalLabel: string := "\U{1F4B0} Total: $"
  const ItemsHeader: string := "\n\U{1F9FE} Detected Items:"
  const NoItems: string := "No items detected."

  function Labelled(tag: string, field: Option<string>): seq<string>
  {
    if field.Some? then [tag + field.value] else []
  }

  /** The list `readable` that `parse_text` joins with line breaks. */
  function ReportLines(f: Fields): seq<string>
  {
    Labelled(StoreLabel, f.store) + Labelled(DateLabel, f.date) + Labelled(TotalLabel, f.total)
    + [ItemsHeader] + (if f.items == [] then [NoItems] else NumberedItems(f.items))
  }

  /** Builds the report as `parse_text` does, appending one line at a time. */
  method RenderReport(f: Fields) returns (report: string)
    ensures report == Join(ReportLines(f), "\n")
  {
    var readable: seq<string> := [];
    if f.store.Some? {
      readable := readable + [StoreLabel + f.store.value];
    }
    assert readable == Labelled(StoreLabel, f.store);
    if f.date.Some? {
      readable := readable + [DateLabel + f.date.value];
    }
    assert readable == Labelled(StoreLabel, f.store) + Labelled(DateLabel, f.date);
    if f.total.Some? {
      readable := readable + [TotalLabel + f.total.value];
    }
    assert readable == Labelled(StoreLabel, f.store) + Labelled(DateLabel, f.date) + Labelled(TotalLabel, f.total);
    readable := readable + [ItemsHeader];
    var head := readable;
    if f.items != [] {
      for i := 0 to |f.items|
        invariant readable == head + NumberedItems(f.items[..i])
      {
        assert NumberedItems(f.items[..i + 1]) == NumberedItems(f.items[..i]) + [ItemEntry(i, f.items[i])];
        readable := readable + [ItemEntry(i, f.items[i])];
      }
      assert f.items[..|f.items|] == f.items;
    } else {
      readable := readable + [NoItems];
    }
    assert readable == ReportLines(f);
    report := Join(readable, "\n");
  }

  /** `parse_text`: the report and the record. */
  method ParseText(text: string) returns (report: string, fields: Fields)
    ensures fields == ParseFields(text)
    ensures report == Join(ReportLines(fields), "\n")
  {
    fields := ParseFields(text);
    report := RenderReport(fields);
  }

  // ---------------------------------------------------------------------
  // Reading a report back.

  /** The field after `tag` on line `at`, if that line carries the tag. */
  function ReadLabelled(lines: seq<string>, at: nat, tag: string): (Option<string>, nat)
  {
    if at < |lines| && tag <= lines[at] then (Some(lines[at][|tag|..]), at + 1) else (None, at)
  }

  /** The item after the number on the `i`-th item line. */
  function Unnumber(i: nat, line: string): string
  {
    var prefix := DecimalString(i + 1) + ". ";
    if prefix <= line then line[|prefix|..] else line
  }

  /** The items from the lines after the header. */
  function ReadItems(rest: seq<string>): seq<string>
  {
    if rest == [NoItems] then [] else seq(|rest|, i requires 0 <= i < |rest| => Unnumber(i, rest[i]))
  }

  /** Recovers the record from the report's lines. */
  function ReadReport(lines: seq<string>): Fields
  {
    var (store, a) := ReadLabelled(lines, 0, StoreLabel);
    var (date, b) := ReadLabelled(lines, a, DateLabel);
    var (total, c) := ReadLabelled(lines, b, TotalLabel);
    Fields(store, date, total, ReadItems(if c < |lines| then lines[c + 1..] else []))
  }

  /** A tagged line is read back, and an absent one is not read from the next
      line, whose first character differs from the tag's. */
  lemma ReadLabelledOf(pre: seq<string>, tag: string, field: Option<string>, post: seq<string>)
    requires tag != [] && post != [] && (post[0] == [] || post[0][0] != tag[0])
    ensures ReadLabelled(pre + Labelled(tag, field) + post, |pre|, tag)
      == (field, |pre| + |Labelled(tag, field)|)
  {
    var lines := pre + Labelled(tag, field) + post;
    if field.Some? {
      assert lines[|pre|] == tag + field.value;
      assert lines[|pre|][|tag|..] == field.value;
    } else {
      assert lines[|pre|] == post[0];
    }
  }

  /** The numbered item lines, or the "No items detected." line, read back
      as the items. */
  lemma ReadItemsOf(items: seq<string>)
    ensures ReadItems(if items == [] then [NoItems] else NumberedItems(items)) == items
  {
    if items != [] {
      var r := NumberedItems(items);
      assert r[0][0] == DecimalString(1)[0];
      assert r != [NoItems];
      forall i | 0 <= i < |r| ensures Unnumber(i, r[i]) == items[i] {
        var prefix := DecimalString(i + 1) + ". ";
        assert r[i] == prefix + items[i];
      }
    }
  }

  /** The first characters of the tagged lines and of the header. */
  lemma TagHeads()
    ensures StoreLabel[0] == '\U{1F6D2}' && DateLabel[0] == '\U{1F4C5}' && TotalLabel[0] == '\U{1F4B0}'
    ensures ItemsHeader[0] == '\n'
  {
  }

  /** The first line of `Labelled(tag, field) + post` starts like `tag` or like `post`. */
  lemma LabelledHead(tag: string, field: Option<string>, post: seq<string>)
    requires tag != [] && post != [] && post[0] != []
    ensures (Labelled(tag, field) + post)[0] != []
    ensures (Labelled(tag, field) + post)[0][0] == (if field.Some? then tag[0] else post[0][0])
  {
    if field.Some? {
      assert (Labelled(tag, field) + post)[0] == tag + field.value;
    }
  }

  /** `ReadReport` from what each of its three reads returns. */
  lemma ReadReportSteps(lines: seq<string>, a: nat, b: nat, c: nat,
                        store: Option<string>, date: Option<string>, total: Option<string>)
    requires ReadLabelled(lines, 0, StoreLabel) == (store, a)
    requires ReadLabelled(lines, a, DateLabel) == (date, b)
    requires ReadLabelled(lines, b, TotalLabel) == (total, c)
    requires c < |lines|
    ensures ReadReport(lines) == Fields(store, date, total, ReadItems(lines[c + 1..]))
  {
  }

  /** The tagged lines, the header and what follows it. */
  function TaggedLines(store: Option<string>, date: Option<string>, total: Option<string>, tail: seq<string>): seq<string>
  {
    Labelled(StoreLabel, store) + Labelled(DateLabel, date) + Labelled(TotalLabel, total) + [ItemsHeader] + tail
  }

  /** The store line, if any, is read back first. */
  lemma ReadStoreLine(store: Option<string>, date: Option<string>, total: Option<string>, tail: seq<string>)
    ensures ReadLabelled(TaggedLines(store, date, total, tail), 0, StoreLabel)
      == (store, |Labelled(StoreLabel, store)|)
  {
    var d := Labelled(DateLabel, date);
    var afterD := Labelled(TotalLabel, total) + ([ItemsHeader] + tail);
    TagHeads();
    LabelledHead(TotalLabel, total, [ItemsHeader] + tail);
    LabelledHead(DateLabel, date, afterD);
    assert TaggedLines(store, date, total, tail) == [] + Labelled(StoreLabel, store) + (d + afterD);
    ReadLabelledOf([], StoreLabel, store, d + afterD);
  }

  /** The date line, if any, is read back after the store line. */
  lemma ReadDateLine(store: Option<string>, date: Option<string>, total: Option<string>, tail: seq<string>)
    ensures var a := |Labelled(StoreLabel, store)|;
      ReadLabelled(TaggedLines(store, date, total, tail), a, DateLabel)
      == (date, a + |Labelled(DateLabel, date)|)
  {
    var s := Labelled(StoreLabel, store);
    var afterD := Labelled(TotalLabel, total) + ([ItemsHeader] + tail);
    TagHeads();
    LabelledHead(TotalLabel, total, [ItemsHeader] + tail);
    assert TaggedLines(store, date, total, tail) == s + Labelled(DateLabel, date) + afterD;
    ReadLabelledOf(s, DateLabel, date, afterD);
  }

  /** The total line, if any, is read back after the date line. */
  lemma ReadTotalLine(store: Option<string>, date: Option<string>, total: Option<string>, tail: seq<string>)
    ensures var b := |Labelled(StoreLabel, store)| + |Labelled(DateLabel, date)|;
      ReadLabelled(TaggedLines(store, date, total, tail), b, TotalLabel)
      == (total, b + |Labelled(TotalLabel, total)|)
  {
    var sd := Labelled(StoreLabel, store) + Labelled(DateLabel, date);
    TagHeads();
    assert TaggedLines(store, date, total, tail) == sd + Labelled(TotalLabel, total) + ([ItemsHeader] + tail);
    ReadLabelledOf(sd, TotalLabel, total, [ItemsHeader] + tail);
  }

  /** The lines after the header are the tail. */
  lemma AfterHeader(store: Option<string>, date: Option<string>, total: Option<string>, tail: seq<string>)
    ensures var c := |Labelled(StoreLabel, store)| + |Labelled(DateLabel, date)| + |Labelled(TotalLabel, total)|;
      c < |TaggedLines(store, date, total, tail)| && TaggedLines(store, date, total, tail)[c + 1..] == tail
  {
  }

  /** The tagged lines before the header are read back, and what follows the
      header is left for the items. */
  lemma ReadTagged(store: Option<string>, date: Option<string>, total: Option<string>, tail: seq<string>)
    ensures ReadReport(TaggedLines(store, date, total, tail)) == Fields(store, date, total, ReadItems(tail))
  {
    var a := |Labelled(StoreLabel, store)|;
    var b := a + |Labelled(DateLabel, date)|;
    var c := b + |Labelled(TotalLabel, total)|;
    ReadStoreLine(store, date, total, tail);
    ReadDateLine(store, date, total, tail);
    ReadTotalLine(store, date, total, tail);
    AfterHeader(store, date, total, tail);
    ReadReportSteps(TaggedLines(store, date, total, tail), a, b, c, store, date, total);
  }

  /** The report's lines determine the record: reading them back gives the
      record that was rendered. */
  lemma ReadRender(f: Fields)
    ensures ReadReport(ReportLines(f)) == f
  {
    var tail := if f.items == [] then [NoItems] else NumberedItems(f.items);
    assert ReportLines(f) == TaggedLines(f.store, f.date, f.total, tail);
    ReadTagged(f.store, f.date, f.total, tail);
    ReadItemsOf(f.items);
  }

  /** Which lines the report has, where: the matched fields in the order
      store, date, total, then the header, then the numbered items or the
      "No items detected." line. */
  lemma ReportShape(f: Fields)
    ensures var lines := ReportLines(f);
      var h := (if f.store.Some? then 1 else 0) + (if f.date.Some? then 1 else 0) + (if f.total.Some? then 1 else 0);
      && |lines| == h + 1 + (if f.items == [] then 1 else |f.items|)
      && lines[h] == ItemsHeader
      && (f.store.Some? ==> lines[0] == StoreLabel + f.store.value)
      && (f.date.Some? ==> lines[if f.store.Some? then 1 else 0] == DateLabel + f.date.value)
      && (f.total.Some? ==> lines[h - 1] == TotalLabel + f.total.value)
      && (f.items == [] ==> lines[h + 1] == NoItems)
      && (forall i :: 0 <= i < |f.items| ==> lines[h + 1 + i] == DecimalString(i + 1) + ". " + f.items[i])
  {
  }

  /** The item lines of the receipt text "WALMART STORE\n01/15/2024\nMilk
      2.99\nBread 1.50\nTotal $4.49" contain the total line, which also
      matches the item pattern. */
  lemma TotalLineIsItem()
    ensures IsItemLine("Total $4.49")
  {
    assert ItemShapeAt("Total $4.49", 0, 8);
    ItemLineIff("Total $4.49");
  }
}
