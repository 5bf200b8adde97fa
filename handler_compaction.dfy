/** What json_handler_compress_in_place makes of the output of each handler
    of json_writer.c: the blanks of the indentation, of ": " and of the tags
    go, the names and quote-balanced values survive byte for byte, and every
    handler leaves the quote bit clear, so a table's output compacts entry by
    entry. */
module HandlerCompaction {
  import opened CText
  import opened Compaction
  import opened JsonWriter

  /** `"name":`, a member name as it reads after compaction. */
  function Member(name: CString): CString
  {
    "\"" + name + "\":"
  }

  /** `"s"`, a quoted value. */
  function Quoted(s: CString): CString
  {
    "\"" + s + "\""
  }

  /** A value that goes through a quoted span unchanged and leaves the span
      open: a quote-free text, or one whose quotes come in pairs with no
      blank between the two quotes of a pair. */
  ghost predicate SurvivesSpan(s: string)
  {
    CompactFrom(true, s) == s && QuoteParity(true, s)
  }

  // ----- pieces -----

  lemma Outside(s: string)
    requires '"' !in s
    ensures CompactFrom(false, s) == StripBlanks(s) && !QuoteParity(false, s)
  {
    CompactOutsideQuotes(s);
    QuoteFreeParity(false, s);
  }

  lemma Inside(s: string)
    requires '"' !in s
    ensures SurvivesSpan(s)
  {
    CompactInsideQuotes(s);
    QuoteFreeParity(true, s);
  }

  lemma Then(p: bool, a: string, b: string)
    ensures CompactFrom(p, a + b) == CompactFrom(p, a) + CompactFrom(QuoteParity(p, a), b)
    ensures QuoteParity(p, a + b) == QuoteParity(QuoteParity(p, a), b)
  {
    CompactAppend(p, a, b);
    ParityAppend(p, a, b);
  }

  lemma StripOne(c: char)
    ensures StripBlanks([c]) == if IsSpace(c) then [] else [c]
  {
    StripSnoc([], c);
    assert [] + [c] == [c];
  }

  lemma StripTwo(a: char, b: char)
    ensures StripBlanks([a, b]) == StripBlanks([a]) + (if IsSpace(b) then [] else [b])
  {
    StripSnoc([a], b);
    assert [a] + [b] == [a, b];
  }

  /** The pieces of the key literals, and `: ` losing its blank. */
  lemma ColonSpace()
    ensures "\": " == "\"" + ": " && "\":" == "\"" + ":" && '"' !in ": "
    ensures StripBlanks(": ") == ":"
  {
    assert ": " == [':', ' '] && ":" == [':'];
    StripTwo(':', ' ');
    StripOne(':');
  }

  /** The indentation has no quote and strips to nothing. */
  lemma IndentBlank(level: Int32)
    ensures '"' !in Indent(level) && StripBlanks(Indent(level)) == []
  {
    StripAllBlanks(Indent(level));
  }

  /** `"name": ` compacts to `"name":` and leaves the bit clear. */
  lemma NumberKeyCompacts(name: CString)
    requires '"' !in name
    ensures CompactFrom(false, NumberKey(name)) == Member(name)
    ensures !QuoteParity(false, NumberKey(name))
  {
    var q := "\"";
    var x := q + name;
    CompactQuote(false);
    CompactQuote(true);
    Inside(name);
    Then(false, q, name);
    assert CompactFrom(false, x) == x && QuoteParity(false, x);
    Then(false, x, q);
    assert CompactFrom(false, x + q) == x + q && !QuoteParity(false, x + q);
    ColonSpace();
    Outside(": ");
    Then(false, x + q, ": ");
    AppendAssoc(x, q, ": ");
    AppendAssoc(x, q, ":");
  }

  /** `"name": "` compacts to `"name":"` and leaves the bit set: the value
      that follows is read inside a span. */
  lemma TextKeyCompacts(name: CString)
    requires '"' !in name
    ensures CompactFrom(false, TextKey(name)) == Member(name) + "\""
    ensures QuoteParity(false, TextKey(name))
  {
    var q := "\"";
    assert TextKey(name) == NumberKey(name) + q;
    NumberKeyCompacts(name);
    CompactQuote(false);
    Then(false, NumberKey(name), q);
  }

  /** The `"` before a closing tag ends the span; the tag loses its blanks. */
  lemma QuoteCompacts(c: CString)
    requires '"' !in c
    ensures CompactFrom(true, Quote(c)) == "\"" + StripBlanks(c)
    ensures !QuoteParity(true, Quote(c))
  {
    CompactQuote(true);
    Outside(c);
    Then(true, "\"", c);
  }

  /** The indentation and a quote-free opening tag: only the tag's non-blanks remain. */
  lemma LeadCompacts(level: Int32, o: CString)
    requires '"' !in o
    ensures CompactFrom(false, Indent(level) + o) == StripBlanks(o)
    ensures !QuoteParity(false, Indent(level) + o)
  {
    IndentBlank(level);
    Outside(Indent(level) + o);
    StripAppend(Indent(level), o);
    assert [] + StripBlanks(o) == StripBlanks(o);
  }

  lemma Regroup(so: string, m: string, x: string, sc: string)
    ensures so + (m + "\"") + x + ("\"" + sc) == so + m + ("\"" + x + "\"") + sc
  {
  }

  // ----- the handlers -----

  /** A tag handler with a quote-free tag writes nothing but the tag's non-blanks. */
  lemma CompactTag(h: Handler, d: HandlerData, v: Datum)
    requires h == CTag || h == OTag
    requires '"' !in (if h == CTag then OrEmpty(d.ctag) else OrEmpty(d.otag))
    ensures var t := Concat(Fragments(h, d, v));
      && Compact(t) == StripBlanks(if h == CTag then OrEmpty(d.ctag) else OrEmpty(d.otag))
      && !QuoteParity(false, t)
  {
    TagText(d, v);
    LeadCompacts(d.level, if h == CTag then OrEmpty(d.ctag) else OrEmpty(d.otag));
  }

  /** A tag handler whose tag opens a named member, as `"entry5": {` does:
      the member name survives and the rest loses its blanks. */
  lemma CompactKeyedTag(h: Handler, d: HandlerData, v: Datum, name: CString, rest: CString)
    requires h == CTag || h == OTag
    requires (if h == CTag then OrEmpty(d.ctag) else OrEmpty(d.otag)) == NumberKey(name) + rest
    requires '"' !in name && '"' !in rest
    ensures var t := Concat(Fragments(h, d, v));
      Compact(t) == Member(name) + StripBlanks(rest) && !QuoteParity(false, t)
  {
    TagText(d, v);
    var i, k := Indent(d.level), NumberKey(name);
    assert Indent(d.level) + NumberKey(name) + rest == i + k + rest;
    LeadCompacts(d.level, "");
    assert i + "" == i;
    Then(false, i, k);
    NumberKeyCompacts(name);
    Then(false, i + k, rest);
    Outside(rest);
    assert [] + Member(name) == Member(name);
    AppendAssoc(i, k, rest);
  }

  /** json_handler_entry_text, compacted: the opening tag's non-blanks, then
      `"name":"value"`, then the closing tag's non-blanks; the bit is clear
      again afterwards. */
  lemma CompactEntryText(d: HandlerData, v: Datum)
    requires Accepts(EntryText, d, v)
    requires '"' !in OrEmpty(d.otag) && '"' !in d.name.value && '"' !in d.ctag.value
    requires SurvivesSpan(TextValue(v))
    ensures var t := Concat(Fragments(EntryText, d, v));
      && Compact(t) == StripBlanks(OrEmpty(d.otag)) + Member(d.name.value) + Quoted(TextValue(v)) + StripBlanks(d.ctag.value)
      && !QuoteParity(false, t)
  {
    EntryTextText(d, v);
    var l, k, x, c := Indent(d.level) + OrEmpty(d.otag), TextKey(d.name.value), TextValue(v), Quote(d.ctag.value);
    LeadCompacts(d.level, OrEmpty(d.otag));
    TextKeyCompacts(d.name.value);
    Then(false, l, k);
    Then(false, l + k, x);
    QuoteCompacts(d.ctag.value);
    Then(false, l + k + x, c);
    var so, m, sc := StripBlanks(OrEmpty(d.otag)), Member(d.name.value), StripBlanks(d.ctag.value);
    Regroup(so, m, x, sc);
  }

  /** The decimal digits of a number have no quote and no blank: they come
      through compaction unchanged and leave the bit clear. */
  lemma DecimalCompacts(n: int)
    ensures CompactFrom(false, Decimal(n)) == Decimal(n) && !QuoteParity(false, Decimal(n))
  {
    var x := Decimal(n);
    assert '"' !in x;
    Outside(x);
    StripNoBlanks(x);
  }

  /** json_handler_entry_number, compacted: the opening tag's non-blanks, then
      `"name":` and the decimal digits, then the closing tag's non-blanks. */
  lemma CompactEntryNumber(d: HandlerData, v: Datum)
    requires Accepts(EntryNumber, d, v)
    requires '"' !in OrEmpty(d.otag) && '"' !in d.name.value && '"' !in d.ctag.value
    ensures var t := Concat(Fragments(EntryNumber, d, v));
      && Compact(t) == StripBlanks(OrEmpty(d.otag)) + Member(d.name.value) + Decimal(NumberValue(v)) + StripBlanks(d.ctag.value)
      && !QuoteParity(false, t)
  {
    EntryNumberText(d, v);
    var l, k, x, c := Indent(d.level) + OrEmpty(d.otag), NumberKey(d.name.value), Decimal(NumberValue(v)), d.ctag.value;
    LeadCompacts(d.level, OrEmpty(d.otag));
    NumberKeyCompacts(d.name.value);
    Then(false, l, k);
    DecimalCompacts(NumberValue(v));
    Then(false, l + k, x);
    Outside(c);
    Then(false, l + k + x, c);
  }
}
