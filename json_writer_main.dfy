/** json_writer_main.cpp: the json_writers table, the loop of _json_example1
    that runs it against one buffer, and the compacted text the example
    asserts. */
module JsonWriterMain {
  import opened CText
  import opened Compaction
  import opened JsonWriter
  import opened HandlerCompaction

  /** json_writer: the handler pointer (NULL is None), its configuration and
      what its data pointer points at when the table runs. */
  datatype Writer = Writer(hndl: Option<Handler>, config: HandlerData, data: Datum)

  /** An entry whose handler, if it has one, accepts its configuration and data. */
  predicate Runnable(w: Writer)
  {
    w.hndl.Some? ==> Accepts(w.hndl.value, w.config, w.data)
  }

  predicate TableRunnable(table: seq<Writer>)
  {
    forall i :: 0 <= i < |table| ==> Runnable(table[i])
  }

  /** What one entry appends: its handler's fragments, or nothing when the
      handler pointer is NULL. */
  function EntryFragments(w: Writer): seq<CString>
    requires Runnable(w)
  {
    if w.hndl.Some? then Fragments(w.hndl.value, w.config, w.data) else []
  }

  /** What a run of the table appends: every entry, in array order. */
  function TableFragments(table: seq<Writer>): seq<CString>
    requires TableRunnable(table)
  {
    if table == [] then []
    else TableFragments(table[..|table| - 1]) + EntryFragments(table[|table| - 1])
  }

  function EntryOutput(w: Writer): string
    requires Runnable(w)
  {
    Concat(EntryFragments(w))
  }

  function TableOutput(table: seq<Writer>): string
    requires TableRunnable(table)
  {
    Concat(TableFragments(table))
  }

  // ----- running a table -----

  lemma TableFragmentsSnoc(table: seq<Writer>, w: Writer)
    requires TableRunnable(table) && Runnable(w)
    ensures TableRunnable(table + [w])
    ensures TableFragments(table + [w]) == TableFragments(table) + EntryFragments(w)
  {
    assert (table + [w])[..|table|] == table;
  }

  /** Two tables run back to back append what their concatenation appends:
      each entry contributes once, in order. */
  lemma {:induction false} TableFragmentsAppend(a: seq<Writer>, b: seq<Writer>)
    requires TableRunnable(a) && TableRunnable(b)
    ensures TableRunnable(a + b)
    ensures TableFragments(a + b) == TableFragments(a) + TableFragments(b)
    decreases |b|
  {
    if b == [] {
      assert a + b == a;
    } else {
      var b', w := b[..|b| - 1], b[|b| - 1];
      assert b == b' + [w];
      assert TableRunnable(b');
      TableFragmentsAppend(a, b');
      TableFragmentsSnoc(a + b', w);
      TableFragmentsSnoc(b', w);
      assert a + b == (a + b') + [w];
      AppendAssoc(TableFragments(a), TableFragments(b'), EntryFragments(w));
    }
  }

  /** Entries with a NULL handler are skipped: they append nothing. */
  lemma {:induction false} NullEntriesSkipped(table: seq<Writer>)
    requires forall i :: 0 <= i < |table| ==> table[i].hndl.None?
    ensures TableRunnable(table) && TableFragments(table) == []
    decreases |table|
  {
    if table != [] {
      NullEntriesSkipped(table[..|table| - 1]);
    }
  }

  /** One pass of the loop of _json_example1: the handler is called when
      the pointer is not NULL. */
  method RunEntry(p: JsonBuffer, w: Writer)
    requires p.Valid() && Runnable(w)
    modifies p, p.buf
    ensures p.Valid() && p.buf == old(p.buf) && p.len == old(p.len) && p.dynamic == old(p.dynamic)
    ensures p.buf[..H] == old(p.buf[..H])
    ensures p.Snapshot() == After(old(p.Snapshot()), EntryFragments(w))
  {
    if w.hndl.Some? {
      var _ := p.Handle(w.hndl.value, w.config, w.data);
    }
  }

  /** The loop of _json_example1: every entry with a handler is called once,
      in array order, against the same buffer. The return codes are dropped,
      so a truncation does not stop the run. */
  method RunTable(p: JsonBuffer, table: seq<Writer>)
    requires p.Valid() && TableRunnable(table)
    modifies p, p.buf
    ensures p.Valid() && p.buf == old(p.buf) && p.len == old(p.len) && p.dynamic == old(p.dynamic)
    ensures p.buf[..H] == old(p.buf[..H])
    ensures p.Snapshot() == After(old(p.Snapshot()), TableFragments(table))
  {
    ghost var s0 := p.Snapshot();
    var i := 0;
    while i < |table|
      invariant 0 <= i <= |table|
      invariant p.Valid() && p.buf == old(p.buf) && p.len == old(p.len) && p.dynamic == old(p.dynamic)
      invariant p.buf[..H] == old(p.buf[..H])
      invariant p.Snapshot() == After(s0, TableFragments(table[..i]))
    {
      var w := table[i];
      assert table[..i + 1] == table[..i] + [w];
      TableFragmentsSnoc(table[..i], w);
      RunEntry(p, w);
      AfterAppend(s0, TableFragments(table[..i]), EntryFragments(w));
      i := i + 1;
    }
    assert table[..i] == table;
  }

  /** Running a whole table from an empty buffer: the would-be text is every
      entry's output in order, `used` is its length, and when it fits the
      buffer reads back as exactly that text. */
  lemma RunFromEmpty(s0: Snap, table: seq<Writer>)
    requires Consistent(s0) && !s0.overrun && s0.text == []
    requires TableRunnable(table)
    ensures var r := After(s0, TableFragments(table));
      && r.text == TableOutput(table) && r.used == |TableOutput(table)|
      && (|TableOutput(table)| < |s0.area| ==> !r.overrun && CStr(r.area) == TableOutput(table))
  {
    WrittenText(s0, TableFragments(table));
    AfterAccounting(s0, TableFragments(table));
    assert [] + TableOutput(table) == TableOutput(table);
  }

  /** The rest of _json_example1 for any table whose text fits: run the
      table on the empty buffer, read the text back (json_get_string), then
      compact it in place (json_get_compressed_string). */
  method RunAndRead(p: JsonBuffer, table: seq<Writer>) returns (uncompressed: CString, compressed: CString)
    requires p.Valid() && p.Text == [] && !p.Overrun && p.Holds()
    requires TableRunnable(table) && |TableOutput(table)| < p.len
    modifies p, p.buf
    ensures uncompressed == TableOutput(table) && compressed == Compact(uncompressed)
    ensures p.Valid() && p.buf == old(p.buf) && p.len == old(p.len) && p.dynamic == old(p.dynamic)
    ensures p.buf[..H] == old(p.buf[..H])
  {
    ghost var s0 := p.Snapshot();
    RunFromEmpty(s0, table);
    RunTable(p, table);
    uncompressed := p.StringBuffer();
    assert p.buf[H..][|uncompressed|] == NUL;
    compressed := p.CompressInPlace();
  }

  // ----- the example table -----

  /** The designated initializers of json_writers, one shape per handler;
      the fields an initializer leaves out are NULL or 0. */
  function OTagWriter(otag: CString, level: Int32): Writer
  {
    Writer(Some(OTag), HandlerData(Some(otag), None, None, None, level), NoData)
  }

  function CTagWriter(ctag: CString, level: Int32): Writer
  {
    Writer(Some(CTag), HandlerData(None, None, None, Some(ctag), level), NoData)
  }

  function TextWriter(name: CString, fmt: Option<CString>, ctag: CString, level: Int32, value: CString): Writer
  {
    Writer(Some(EntryText), HandlerData(Some(""), Some(name), fmt, Some(ctag), level), TextData(value))
  }

  function NumberWriter(name: CString, fmt: Option<CString>, ctag: CString, level: Int32, value: Int32): Writer
  {
    Writer(Some(EntryNumber), HandlerData(Some(""), Some(name), fmt, Some(ctag), level), IntData(value))
  }

  /** The rows of json_writers; the texts and numbers are what the data
      pointers of the rows that have one reach when the table runs. */
  function Row0(): Writer { OTagWriter("{\n", 0) }
  function Row1(e1: CString): Writer { TextWriter("entry1", Some("%s"), ",\n", 1, e1) }
  function Row2(e2: CString): Writer { TextWriter("entry2", None, ",\n", 1, e2) }
  function Row3(e3: CString): Writer { TextWriter("entry3", None, ",\n", 1, e3) }
  function Row4(e4: CString): Writer { TextWriter("entry4", None, ",\n", 1, e4) }
  function Row5(): Writer { OTagWriter("\"entry5\": {\n", 1) }
  function Row6(edgelock: Int32): Writer { NumberWriter("entry6", Some("%d"), ",\n", 2, edgelock) }
  function Row7(boot: Int32): Writer { NumberWriter("entry7", None, "\n", 2, boot) }
  function Row8(): Writer { CTagWriter("}\n", 1) }
  function Row9(): Writer { CTagWriter("}", 0) }

  /** json_writers. */
  function JsonWriters(e1: CString, e2: CString, e3: CString, e4: CString,
                       edgelock: Int32, boot: Int32): seq<Writer>
  {
    [Row0(), Row1(e1), Row2(e2), Row3(e3), Row4(e4), Row5(), Row6(edgelock), Row7(boot), Row8(), Row9()]
  }

  /** `snprintf(entryN_text, sizeof(entryN_text), s)` into a zero-filled
      char[64], read back as a C string. The value is the format itself;
      with no `%` in it, the format prints as it is. */
  function GlobalText(s: CString): CString
    requires '%' !in s
  {
    CStr(Snprintf(Zeros(64), 0, s))
  }

  /** A text of up to 63 characters is stored whole; a longer one is cut. */
  lemma GlobalTextStored(s: CString)
    requires '%' !in s
    ensures GlobalText(s) == if |s| < 64 then s else s[..63]
  {
    SnprintfString(64, s);
  }

  /** The texts _json_example1 stores in entry1_text .. entry3_text. */
  const Entry1Value: CString := "entry1_text"
  const Entry2Value: CString := "entry2_text"
  const Entry3Value: CString := "entry3 text with spaces"

  /** The value stored in entry4_text: after C's own escapes, a backslash
      before each of its four quotes and four doubled backslashes. */
  const Entry4Value: CString :=
    "entry4 with \\\"\\\"" + " \\\"\\\"" + " quotes and " + "\\\\ \\\\ \\\\ \\\\" + " backslashes"

  /** The table as _json_example1 runs it, with the values it sets first. */
  function ExampleTable(): seq<Writer>
  {
    JsonWriters(Entry1Value, Entry2Value, Entry3Value, Entry4Value, 42, 314)
  }

  /** The text json_writers compacts to, member by member (one group per
      entry), for any values of the globals. */
  function CompactedTable(e1: CString, e2: CString, e3: CString, e4: CString,
                          edgelock: Int32, boot: Int32): string
  {
    "{"
    + (Member("entry1") + Quoted(e1) + ",")
    + (Member("entry2") + Quoted(e2) + ",")
    + (Member("entry3") + Quoted(e3) + ",")
    + (Member("entry4") + Quoted(e4) + ",")
    + (Member("entry5") + "{")
    + (Member("entry6") + Decimal(edgelock) + ",")
    + (Member("entry7") + Decimal(boot))
    + "}"
    + "}"
  }

  /** compressed_string_b, the raw string literal, cut after each member. */
  const CompressedB: string :=
    "{"
    + ("\"entry1\":" + "\"entry1_text\"" + ",")
    + ("\"entry2\":" + "\"entry2_text\"" + ",")
    + ("\"entry3\":" + "\"entry3 text with spaces\"" + ",")
    + ("\"entry4\":" + "\""
       + ("entry4 with \\\"\\\"" + " \\\"\\\"" + " quotes and " + "\\\\ \\\\ \\\\ \\\\" + " backslashes")
       + "\"" + ",")
    + ("\"entry5\":" + "{")
    + ("\"entry6\":" + "42" + ",")
    + ("\"entry7\":" + "314")
    + "}"
    + "}"

  // ----- why the example's assertion holds -----

  lemma NoTag(s: string)
    ensures StripBlanks("") == [] && [] + s == s
  {
  }

  /** A tag entry with a quote-free tag: only the tag's non-blanks remain. */
  lemma OTagWriterCompacts(otag: CString, level: Int32)
    requires '"' !in otag
    ensures var w := OTagWriter(otag, level);
      && Runnable(w) && Compact(EntryOutput(w)) == StripBlanks(otag)
      && !QuoteParity(false, EntryOutput(w)) && |EntryOutput(w)| == |Indent(level)| + |otag|
  {
    var w := OTagWriter(otag, level);
    CompactTag(OTag, w.config, w.data);
    TagText(w.config, w.data);
  }

  lemma CTagWriterCompacts(ctag: CString, level: Int32)
    requires '"' !in ctag
    ensures var w := CTagWriter(ctag, level);
      && Runnable(w) && Compact(EntryOutput(w)) == StripBlanks(ctag)
      && !QuoteParity(false, EntryOutput(w)) && |EntryOutput(w)| == |Indent(level)| + |ctag|
  {
    var w := CTagWriter(ctag, level);
    CompactTag(CTag, w.config, w.data);
    TagText(w.config, w.data);
  }

  /** An opening tag that starts with a member name, as entry5's does. */
  lemma KeyedTagWriterCompacts(name: CString, rest: CString, level: Int32)
    requires '"' !in name && '"' !in rest
    ensures var w := OTagWriter(NumberKey(name) + rest, level);
      && Runnable(w) && Compact(EntryOutput(w)) == Member(name) + StripBlanks(rest)
      && !QuoteParity(false, EntryOutput(w))
      && |EntryOutput(w)| == |Indent(level)| + |name| + |rest| + 4
  {
    var w := OTagWriter(NumberKey(name) + rest, level);
    CompactKeyedTag(OTag, w.config, w.data, name, rest);
    TagText(w.config, w.data);
  }

  /** A text entry: `"name":"value"` and the closing tag's non-blanks. */
  lemma TextWriterCompacts(name: CString, fmt: Option<CString>, ctag: CString, sep: string, level: Int32, value: CString)
    requires |name| > 0 && '"' !in name && (fmt.None? || fmt.value == "%s")
    requires |ctag| > 0 && '"' !in ctag && StripBlanks(ctag) == sep
    requires SurvivesSpan(value)
    ensures var w := TextWriter(name, fmt, ctag, level, value);
      && Runnable(w) && Compact(EntryOutput(w)) == Member(name) + Quoted(value) + sep
      && !QuoteParity(false, EntryOutput(w))
      && |EntryOutput(w)| == |Indent(level)| + |name| + |value| + |ctag| + 6
  {
    var w := TextWriter(name, fmt, ctag, level, value);
    CompactEntryText(w.config, w.data);
    EntryTextText(w.config, w.data);
    NoTag(Member(name));
  }

  /** A number entry: `"name":` with the decimal digits, and the closing tag's non-blanks. */
  lemma NumberWriterCompacts(name: CString, fmt: Option<CString>, ctag: CString, sep: string, level: Int32, value: Int32)
    requires |name| > 0 && '"' !in name && (fmt.None? || fmt.value == "%d")
    requires |ctag| > 0 && '"' !in ctag && StripBlanks(ctag) == sep
    ensures var w := NumberWriter(name, fmt, ctag, level, value);
      && Runnable(w) && Compact(EntryOutput(w)) == Member(name) + Decimal(value) + sep
      && !QuoteParity(false, EntryOutput(w))
      && |EntryOutput(w)| == |Indent(level)| + |name| + |Decimal(value)| + |ctag| + 4
  {
    var w := NumberWriter(name, fmt, ctag, level, value);
    CompactEntryNumber(w.config, w.data);
    EntryNumberText(w.config, w.data);
    NoTag(Member(name));
  }

  /** A row whose compacted output is `c`, whose output is `n` characters
      long and which leaves the quote bit clear. */
  predicate RowCompactsTo(w: Writer, c: string, n: nat)
  {
    Runnable(w) && Compact(EntryOutput(w)) == c && !QuoteParity(false, EntryOutput(w))
    && |EntryOutput(w)| == n
  }

  // The literal facts each row needs, each on its own: a lemma that sees
  // more string literals than it uses is much harder to prove.

  lemma OpenBrace()
    ensures '"' !in "{\n" && StripBlanks("{\n") == "{"
  {
    assert "{\n" == ['{', '\n'];
    StripTwo('{', '\n');
    StripOne('{');
  }

  lemma CloseBraceNewline()
    ensures '"' !in "}\n" && StripBlanks("}\n") == "}"
  {
    assert "}\n" == ['}', '\n'];
    StripTwo('}', '\n');
    StripOne('}');
  }

  lemma CloseBrace()
    ensures '"' !in "}" && StripBlanks("}") == "}"
  {
    assert "}" == ['}'];
    StripOne('}');
  }

  lemma CommaNewline()
    ensures '"' !in ",\n" && StripBlanks(",\n") == ","
  {
    assert ",\n" == [',', '\n'];
    StripTwo(',', '\n');
    StripOne(',');
  }

  lemma Newline()
    ensures '"' !in "\n" && StripBlanks("\n") == []
  {
    assert "\n" == ['\n'];
    StripOne('\n');
  }

  lemma Entry5Literal()
    ensures "\"entry5\": {\n" == NumberKey("entry5") + "{\n" && '"' !in "entry5"
  {
  }

  // The rows of json_writers, each compacted on its own.

  lemma Row0Compacts()
    ensures RowCompactsTo(Row0(), "{", 2)
  {
    OpenBrace();
    OTagWriterCompacts("{\n", 0);
  }

  lemma Row1Compacts(e: CString)
    requires SurvivesSpan(e)
    ensures RowCompactsTo(Row1(e), Member("entry1") + Quoted(e) + ",", 15 + |e|)
  {
    CommaNewline();
    assert '"' !in "entry1";
    TextWriterCompacts("entry1", Some("%s"), ",\n", ",", 1, e);
  }

  lemma Row2Compacts(e: CString)
    requires SurvivesSpan(e)
    ensures RowCompactsTo(Row2(e), Member("entry2") + Quoted(e) + ",", 15 + |e|)
  {
    CommaNewline();
    assert '"' !in "entry2";
    TextWriterCompacts("entry2", None, ",\n", ",", 1, e);
  }

  lemma Row3Compacts(e: CString)
    requires SurvivesSpan(e)
    ensures RowCompactsTo(Row3(e), Member("entry3") + Quoted(e) + ",", 15 + |e|)
  {
    CommaNewline();
    assert '"' !in "entry3";
    TextWriterCompacts("entry3", None, ",\n", ",", 1, e);
  }

  lemma Row4Compacts(e: CString)
    requires SurvivesSpan(e)
    ensures RowCompactsTo(Row4(e), Member("entry4") + Quoted(e) + ",", 15 + |e|)
  {
    CommaNewline();
    assert '"' !in "entry4";
    TextWriterCompacts("entry4", None, ",\n", ",", 1, e);
  }

  lemma Row5Compacts()
    ensures RowCompactsTo(Row5(), Member("entry5") + "{", 13)
  {
    OpenBrace();
    Entry5Literal();
    KeyedTagWriterCompacts("entry5", "{\n", 1);
  }

  lemma Row6Compacts(n: Int32)
    ensures RowCompactsTo(Row6(n),
                          Member("entry6") + Decimal(n) + ",", 14 + |Decimal(n)|)
  {
    CommaNewline();
    assert '"' !in "entry6";
    NumberWriterCompacts("entry6", Some("%d"), ",\n", ",", 2, n);
  }

  lemma Row7Compacts(n: Int32)
    ensures RowCompactsTo(Row7(n), Member("entry7") + Decimal(n), 13 + |Decimal(n)|)
  {
    Newline();
    assert '"' !in "entry7";
    NumberWriterCompacts("entry7", None, "\n", [], 2, n);
    assert Member("entry7") + Decimal(n) + [] == Member("entry7") + Decimal(n);
  }

  lemma Row8Compacts()
    ensures RowCompactsTo(Row8(), "}", 3)
  {
    CloseBraceNewline();
    CTagWriterCompacts("}\n", 1);
  }

  lemma Row9Compacts()
    ensures RowCompactsTo(Row9(), "}", 1)
  {
    CloseBrace();
    CTagWriterCompacts("}", 0);
  }

  /** One more row after a prefix that leaves the quote bit clear compacts on its own. */
  lemma RowAfter(p: seq<Writer>, w: Writer)
    requires TableRunnable(p) && !QuoteParity(false, TableOutput(p))
    requires Runnable(w) && !QuoteParity(false, EntryOutput(w))
    ensures TableRunnable(p + [w]) && !QuoteParity(false, TableOutput(p + [w]))
    ensures Compact(TableOutput(p + [w])) == Compact(TableOutput(p)) + Compact(EntryOutput(w))
    ensures |TableOutput(p + [w])| == |TableOutput(p)| + |EntryOutput(w)|
  {
    TableFragmentsSnoc(p, w);
    ConcatAppend(TableFragments(p), EntryFragments(w));
    CompactBalanced(TableOutput(p), EntryOutput(w));
  }

  lemma TenRows(w0: Writer, w1: Writer, w2: Writer, w3: Writer, w4: Writer,
                w5: Writer, w6: Writer, w7: Writer, w8: Writer, w9: Writer)
    ensures [] + [w0] + [w1] + [w2] + [w3] + [w4] + [w5] + [w6] + [w7] + [w8] + [w9]
         == [w0, w1, w2, w3, w4, w5, w6, w7, w8, w9]
  {
  }

  lemma EmptyTable()
    ensures TableRunnable([]) && TableOutput([]) == [] && !QuoteParity(false, [])
    ensures Compact([]) == []
  {
  }

  /** Compacting json_writers: for any values of the globals whose texts
      survive a quoted span, the compacted output is the table's members in
      order with no blank outside a value, and the full output's length is
      the sum of the entries'. */
  lemma TableCompacts(e1: CString, e2: CString, e3: CString, e4: CString,
                      edgelock: Int32, boot: Int32)
    requires SurvivesSpan(e1) && SurvivesSpan(e2) && SurvivesSpan(e3) && SurvivesSpan(e4)
    ensures TableRunnable(JsonWriters(e1, e2, e3, e4, edgelock, boot))
    ensures Compact(TableOutput(JsonWriters(e1, e2, e3, e4, edgelock, boot)))
         == CompactedTable(e1, e2, e3, e4, edgelock, boot)
    ensures |TableOutput(JsonWriters(e1, e2, e3, e4, edgelock, boot))|
         == 106 + |e1| + |e2| + |e3| + |e4| + |Decimal(edgelock)| + |Decimal(boot)|
  {
    var t := JsonWriters(e1, e2, e3, e4, edgelock, boot);
    Row0Compacts();
    Row1Compacts(e1);
    Row2Compacts(e2);
    Row3Compacts(e3);
    Row4Compacts(e4);
    Row5Compacts();
    Row6Compacts(edgelock);
    Row7Compacts(boot);
    Row8Compacts();
    Row9Compacts();
    EmptyTable();
    var p0: seq<Writer> := [];
    RowAfter(p0, Row0());
    var p1 := p0 + [Row0()];
    NoTag("{");
    RowAfter(p1, Row1(e1));
    var p2 := p1 + [Row1(e1)];
    RowAfter(p2, Row2(e2));
    var p3 := p2 + [Row2(e2)];
    RowAfter(p3, Row3(e3));
    var p4 := p3 + [Row3(e3)];
    RowAfter(p4, Row4(e4));
    var p5 := p4 + [Row4(e4)];
    RowAfter(p5, Row5());
    var p6 := p5 + [Row5()];
    RowAfter(p6, Row6(edgelock));
    var p7 := p6 + [Row6(edgelock)];
    RowAfter(p7, Row7(boot));
    var p8 := p7 + [Row7(boot)];
    RowAfter(p8, Row8());
    var p9 := p8 + [Row8()];
    RowAfter(p9, Row9());
    TenRows(Row0(), Row1(e1), Row2(e2), Row3(e3), Row4(e4), Row5(), Row6(edgelock), Row7(boot), Row8(), Row9());
  }

  lemma DecimalLiterals()
    ensures Decimal(42) == "42" && Decimal(314) == "314"
  {
    assert Digits(42) == Digits(4) + [DigitChar(2)];
    assert Digits(31) == Digits(3) + [DigitChar(1)];
    assert Digits(314) == Digits(31) + [DigitChar(4)];
  }

  /** The backslashes around the quotes of entry4's value are not blanks, and
      so the space between its two quoted pairs sits inside a span: the
      whole value survives compaction. */
  lemma Entry4Survives()
    ensures SurvivesSpan(Entry4Value) && |Entry4Value| == 56
  {
    var a, b, c, d, e := "entry4 with \\\"\\\"", " \\\"\\\"", " quotes and ", "\\\\ \\\\ \\\\ \\\\", " backslashes";
    Entry4Pieces();
    Inside("entry4 with \\");
    PairSurvives("entry4 with \\", "\\");
    Inside(" \\");
    PairSurvives(" \\", "\\");
    Inside(c);
    Inside(d);
    Inside(e);
    SpanThen(a, b);
    SpanThen(a + b, c);
    SpanThen(a + b + c, d);
    SpanThen(a + b + c + d, e);
  }

  /** entry4's value, cut at its quotes. */
  lemma Entry4Pieces()
    ensures "entry4 with \\\"\\\"" == "entry4 with \\" + "\"" + "\\" + "\""
    ensures " \\\"\\\"" == " \\" + "\"" + "\\" + "\""
    ensures '"' !in "entry4 with \\" && '"' !in " \\" && '"' !in " quotes and "
    ensures '"' !in "\\\\ \\\\ \\\\ \\\\" && '"' !in " backslashes"
    ensures '"' !in "\\" && StripBlanks("\\") == "\\"
  {
    assert "\\" == ['\\'];
    StripOne('\\');
  }

  /** After a span, `"` b `"` with no blank in b brings the span back open
      with b copied. */
  lemma PairSurvives(x: string, b: string)
    requires SurvivesSpan(x) && '"' !in b && StripBlanks(b) == b
    ensures SurvivesSpan(x + "\"" + b + "\"")
  {
    var q := "\"";
    CompactQuote(true);
    CompactQuote(false);
    Outside(b);
    Then(true, x, q);
    Then(true, x + q, b);
    Then(true, x + q + b, q);
  }

  lemma SpanThen(x: string, y: string)
    requires SurvivesSpan(x) && SurvivesSpan(y)
    ensures SurvivesSpan(x + y)
  {
    Then(true, x, y);
  }

  // compressed_string_b read member by member.

  lemma Member1()
    ensures Member("entry1") + Quoted(Entry1Value) + "," == "\"entry1\":" + "\"entry1_text\"" + ","
  {
    assert Member("entry1") == "\"entry1\":";
    assert Quoted(Entry1Value) == "\"entry1_text\"";
  }

  lemma Member2()
    ensures Member("entry2") + Quoted(Entry2Value) + "," == "\"entry2\":" + "\"entry2_text\"" + ","
  {
    assert Member("entry2") == "\"entry2\":";
    assert Quoted(Entry2Value) == "\"entry2_text\"";
  }

  lemma Member3()
    ensures Member("entry3") + Quoted(Entry3Value) + "," == "\"entry3\":" + "\"entry3 text with spaces\"" + ","
  {
    assert Member("entry3") == "\"entry3\":";
    assert Quoted(Entry3Value) == "\"entry3 text with spaces\"";
  }

  lemma Member4()
    ensures Member("entry4") + Quoted(Entry4Value) + "," == "\"entry4\":" + "\"" + Entry4Value + "\"" + ","
  {
    assert Member("entry4") == "\"entry4\":";
    QuotedAfter("\"entry4\":", "\"", Entry4Value);
  }

  lemma QuotedAfter(m: string, q: string, x: string)
    ensures m + (q + x + q) == m + q + x + q
  {
  }

  lemma OtherMembers()
    ensures Member("entry5") == "\"entry5\":" && Member("entry6") == "\"entry6\":"
    ensures Member("entry7") == "\"entry7\":"
  {
  }

  /** compressed_string_b is the table's member-by-member compaction with
      the values _json_example1 sets. */
  lemma CompressedBMembers()
    ensures CompressedB == CompactedTable(Entry1Value, Entry2Value, Entry3Value, Entry4Value, 42, 314)
  {
    Member1();
    Member2();
    Member3();
    Member4();
    OtherMembers();
    DecimalLiterals();
  }

  lemma ExampleTexts()
    ensures SurvivesSpan(Entry1Value) && SurvivesSpan(Entry2Value)
    ensures SurvivesSpan(Entry3Value)
    ensures |Entry1Value| == 11 && |Entry2Value| == 11 && |Entry3Value| == 23
  {
    Inside(Entry1Value);
    Inside(Entry2Value);
    Inside(Entry3Value);
  }

  /** The values _json_example1 passes to snprintf as formats hold no
      conversion, so each is printed as it is. */
  lemma ValuesHoldNoDirective()
    ensures '%' !in Entry1Value && '%' !in Entry2Value && '%' !in Entry3Value
    ensures '%' !in Entry4Value
  {
  }

  /** The example table's output is 212 characters and compacts to
      compressed_string_b. */
  lemma ExampleCompacts()
    ensures TableRunnable(ExampleTable())
    ensures |TableOutput(ExampleTable())| == 212
    ensures Compact(TableOutput(ExampleTable())) == CompressedB
  {
    ExampleTexts();
    Entry4Survives();
    CompressedBMembers();
    TableCompacts(Entry1Value, Entry2Value, Entry3Value, Entry4Value, 42, 314);
  }

  /** The start of _json_example1: the globals the table's data pointers
      reach get their values. */
  method SetGlobals() returns (table: seq<Writer>)
    ensures table == ExampleTable()
  {
    ExampleTexts();
    ValuesHoldNoDirective();
    var e1 := GlobalText(Entry1Value);
    GlobalTextStored(Entry1Value);
    var e2 := GlobalText(Entry2Value);
    GlobalTextStored(Entry2Value);
    var e3 := GlobalText(Entry3Value);
    GlobalTextStored(Entry3Value);
    Entry4Survives();
    var e4 := GlobalText(Entry4Value);
    GlobalTextStored(Entry4Value);
    var edgelock, boot := 42, 314;
    table := JsonWriters(e1, e2, e3, e4, edgelock, boot);
  }

  /** _json_example1 from the point where the buffer exists: set the values,
      run the table, read the text back and compact it in place. The buffer
      starts empty and zero-filled, with room for the 212-character text. */
  method Example1(p: JsonBuffer) returns (uncompressed: CString, compressed: CString)
    requires p.Valid() && p.Text == [] && !p.Overrun && p.Holds() && p.len > 212
    modifies p, p.buf
    ensures uncompressed == TableOutput(ExampleTable()) && |uncompressed| == 212
    ensures compressed == CompressedB
    ensures p.Valid() && p.buf == old(p.buf) && p.len == old(p.len) && p.dynamic == old(p.dynamic)
    ensures p.buf[..H] == old(p.buf[..H])
  {
    var table := SetGlobals();
    ExampleCompacts();
    uncompressed, compressed := RunAndRead(p, table);
  }
}
