/** json_writer.c: a bounded text buffer with an ownership flag, the four
    append handlers and the in-place whitespace compactor.

    A buffer is one block of memory: a header of H bytes (the json_buffer
    record) followed by the text area of `len` bytes that `buf` points at. The
    class keeps the whole block in `buf`; the text area is buf[H..]. The header's
    byte layout is not modelled, only that it takes H bytes. */
module JsonWriter {
  import opened CText
  import opened Compaction

  datatype Option<T> = None | Some(value: T)

  /** sizeof(json_buffer): a pointer, two size_t and a bit-field word (32 on LP64). */
  const H: nat := 32

  /** size_t arithmetic is modulo SIZE_MOD = SIZE_MAX + 1. */
  const SIZE_MOD: nat := 0x1_0000_0000_0000_0000

  /** `p->len - p->used` computed in size_t. */
  function SizeArg(len: nat, used: nat): nat
  {
    (len - used) % SIZE_MOD
  }

  /** Once a truncated write has left used > len, the size handed to the next
      snprintf wraps round to a huge value instead of 0, so that write is not
      bounded by the text area at all. */
  lemma SizeArgWraps(len: nat, used: nat)
    requires len < used < SIZE_MOD
    ensures SizeArg(len, used) == SIZE_MOD - (used - len)
    ensures SizeArg(len, used) > 0
  {
    var r := SIZE_MOD - (used - len);
    assert len - used == -1 * SIZE_MOD + r;
    assert 0 <= r < SIZE_MOD;
    assert (-1 * SIZE_MOD + r) % SIZE_MOD == r;
  }

  // ----- the bounded appends, as values -----

  /** The part of a buffer's state the appends change: the write offset
      `used`, the would-be text, the text area and whether a write has gone
      past the area. The capacity is |area|. */
  datatype Snap = Snap(used: nat, text: string, area: seq<char>, overrun: bool)

  /** One `json_handler_snprintf(p, ...)` whose formatted output is `frag`:
      while used <= len the write is bounded to the area; once used > len the
      size argument has wrapped and the write lands beyond the area, which the
      model records as an overrun and does not track further. Either way
      `used` grows by the full would-be length. */
  function Step(s: Snap, frag: string): (r: Snap)
    ensures |r.area| == |s.area|
    ensures r.used == s.used + |frag| && r.text == s.text + frag
    ensures s.used <= |s.area| ==> r.area[..s.used] == s.area[..s.used]
  {
    Snap(s.used + |frag|, s.text + frag,
         if s.used <= |s.area| then Snprintf(s.area, s.used, frag) else s.area,
         s.overrun || s.used > |s.area|)
  }

  /** A sequence of appends, one per fragment, in order. */
  function After(s: Snap, frags: seq<string>): (r: Snap)
    ensures |r.area| == |s.area|
  {
    if frags == [] then s else Step(After(s, frags[..|frags| - 1]), frags[|frags| - 1])
  }

  /** The fragments joined. */
  function Concat(frags: seq<string>): string
  {
    if frags == [] then [] else Concat(frags[..|frags| - 1]) + frags[|frags| - 1]
  }

  /** The stored-text invariant: `used` is the length of the would-be text,
      and unless an overrun has happened the area holds that text in its
      bounded form. */
  ghost predicate Consistent(s: Snap)
  {
    s.used == |s.text| && (!s.overrun ==> s.area == Stored(s.text, |s.area|))
  }

  lemma AfterSnoc(s: Snap, frags: seq<string>, f: string)
    ensures After(s, frags + [f]) == Step(After(s, frags), f)
  {
    assert (frags + [f])[..|frags|] == frags;
  }

  lemma ConcatSnoc(frags: seq<string>, f: string)
    ensures Concat(frags + [f]) == Concat(frags) + f
  {
    assert (frags + [f])[..|frags|] == frags;
  }

  lemma {:induction false} ConcatAppend(a: seq<string>, b: seq<string>)
    ensures Concat(a + b) == Concat(a) + Concat(b)
    decreases |b|
  {
    if b == [] {
      assert a + b == a;
    } else {
      var b', f := b[..|b| - 1], b[|b| - 1];
      assert b == b' + [f];
      assert a + b == (a + b') + [f];
      ConcatAppend(a, b');
      ConcatSnoc(a + b', f);
      assert Concat(a + b) == Concat(a + b') + f;
      ConcatSnoc(b', f);
      assert Concat(b) == Concat(b') + f;
      AppendAssoc(Concat(a), Concat(b'), f);
    }
  }

  /** Running two batches of appends is running their concatenation. */
  lemma {:induction false} AfterAppend(s: Snap, a: seq<string>, b: seq<string>)
    ensures After(s, a + b) == After(After(s, a), b)
    decreases |b|
  {
    if b == [] {
      assert a + b == a;
    } else {
      var b', f := b[..|b| - 1], b[|b| - 1];
      assert b == b' + [f];
      assert a + b == (a + b') + [f];
      AfterAppend(s, a, b');
      AfterSnoc(s, a + b', f);
      AfterSnoc(After(s, a), b', f);
    }
  }

  /** Accounting: each append adds its fragment to the would-be text and its
      full would-be length to `used`, whether or not it fitted. */
  lemma {:induction false} AfterAccounting(s: Snap, frags: seq<string>)
    ensures After(s, frags).text == s.text + Concat(frags)
    ensures After(s, frags).used == s.used + |Concat(frags)|
    decreases |frags|
  {
    if frags != [] {
      var init, f := frags[..|frags| - 1], frags[|frags| - 1];
      assert frags == init + [f];
      AfterAccounting(s, init);
      ConcatSnoc(init, f);
    }
  }

  /** An overrun happens exactly when some append starts with `used` already
      past the capacity. */
  lemma {:induction false} AfterOverrun(s: Snap, frags: seq<string>)
    ensures After(s, frags).overrun
        <==> s.overrun || exists k :: 0 <= k < |frags| && s.used + |Concat(frags[..k])| > |s.area|
    decreases |frags|
  {
    if frags != [] {
      var init, f := frags[..|frags| - 1], frags[|frags| - 1];
      assert frags == init + [f];
      AfterOverrun(s, init);
      AfterAccounting(s, init);
      assert frags[..|init|] == init;
      forall k | 0 <= k < |init| ensures frags[..k] == init[..k] {
      }
    }
  }

  /** No append ever reaches past the area while the whole text fits. */
  lemma {:induction false} FitsNeverOverruns(s: Snap, frags: seq<string>)
    requires !s.overrun
    requires s.used + |Concat(frags)| <= |s.area|
    ensures !After(s, frags).overrun
    decreases |frags|
  {
    if frags != [] {
      var init, f := frags[..|frags| - 1], frags[|frags| - 1];
      assert frags == init + [f];
      ConcatSnoc(init, f);
      FitsNeverOverruns(s, init);
      AfterAccounting(s, init);
    }
  }

  /** The appends keep the stored-text invariant. */
  lemma {:induction false} AfterConsistent(s: Snap, frags: seq<string>)
    requires Consistent(s)
    ensures Consistent(After(s, frags))
    decreases |frags|
  {
    if frags != [] {
      var init, f := frags[..|frags| - 1], frags[|frags| - 1];
      assert frags == init + [f];
      AfterConsistent(s, init);
      var m := After(s, init);
      if !m.overrun && m.used <= |m.area| {
        SnprintfStored(m.text, |m.area|, f);
      }
    }
  }

  /** After appends to a text with no overrun: a text that fits is held
      whole, followed by zeros, and reads back exactly; when no append
      started past the area, one that does not fit reads back cut to
      capacity - 1 characters; and a write went past the area exactly when
      some append started beyond it. */
  lemma WrittenText(s: Snap, frags: seq<CString>)
    requires Consistent(s) && !s.overrun && NUL !in s.text
    ensures var r := After(s, frags);
      var t := s.text + Concat(frags);
      && r.text == t
      && (|t| < |s.area| ==> !r.overrun && r.area == t + Zeros(|s.area| - |t|) && CStr(r.area) == t)
      && (!r.overrun && |t| >= |s.area| > 0 ==> CStr(r.area) == t[..|s.area| - 1])
    ensures After(s, frags).overrun
        <==> exists k :: 0 <= k < |frags| && s.used + |Concat(frags[..k])| > |s.area|
  {
    var r := After(s, frags);
    AfterOverrun(s, frags);
    AfterAccounting(s, frags);
    AfterConsistent(s, frags);
    ConcatNoNul(frags);
    var t := s.text + Concat(frags);
    if |t| < |s.area| {
      FitsNeverOverruns(s, frags);
    }
    StoredString(t, |s.area|);
  }

  /** With room in the area and no overrun, `used` is below the capacity
      exactly when the area reads back as the whole would-be text. */
  lemma FitsIffWhole(s: Snap)
    requires Consistent(s) && !s.overrun && NUL !in s.text && |s.area| > 0
    ensures s.used < |s.area| <==> CStr(s.area) == s.text
  {
    StoredString(s.text, |s.area|);
  }

  lemma {:induction false} ConcatNoNul(frags: seq<CString>)
    ensures NUL !in Concat(frags)
    decreases |frags|
  {
    if frags != [] {
      var init, f := frags[..|frags| - 1], frags[|frags| - 1];
      assert frags == init + [f];
      ConcatSnoc(init, f);
      ConcatNoNul(init);
    }
  }

  // ----- the handlers' output -----

  const TabChars: string := "\t\t\t\t\t\t\t\t\t\t\t\t\t\t\t\t\t\t\t\t\t\t\t\t\t\t\t\t\t\t"

  /** `"%.*s"` with precision `level` over the 30-tab literal: `level` tabs,
      at most 30; a negative precision counts as none, so all 30 are printed. */
  function Indent(level: Int32): (r: CString)
    ensures |r| == if level < 0 || level > 30 then 30 else level
    ensures forall i :: 0 <= i < |r| ==> r[i] == '\t'
  {
    assert |TabChars| == 30;
    TabChars[..if level < 0 || level > 30 then 30 else level]
  }

  /** A NULL tag (`None`) prints as "". */
  function OrEmpty(s: Option<CString>): CString
  {
    if s.Some? then s.value else ""
  }

  /** json_handler_data: the per-entry configuration. NULL strings are None. */
  datatype HandlerData = HandlerData(otag: Option<CString>, name: Option<CString>,
                                     fmt: Option<CString>, ctag: Option<CString>, level: Int32)

  /** The four handlers a table entry can point at. */
  datatype Handler = CTag | OTag | EntryText | EntryNumber

  /** What the entry's data pointer points at when the handler runs: nothing
      (NULL), a C string, or a C int. */
  datatype Datum = NoData | TextData(text: CString) | IntData(value: Int32)

  predicate NonEmpty(s: Option<CString>)
  {
    s.Some? && |s.value| > 0
  }

  /** What each handler asserts or assumes of its arguments: the entry
      handlers need a non-empty name and closing tag, and read the data as the
      type their format expects. Only the default formats are modelled. */
  predicate Accepts(h: Handler, d: HandlerData, v: Datum)
  {
    match h
    case CTag => true
    case OTag => true
    case EntryText =>
      NonEmpty(d.name) && NonEmpty(d.ctag) && (d.fmt.None? || d.fmt.value == "%s") && !v.IntData?
    case EntryNumber =>
      NonEmpty(d.name) && NonEmpty(d.ctag) && (d.fmt.None? || d.fmt.value == "%d") && !v.TextData?
  }

  /** `data ? (const char *)data : ""` */
  function TextValue(v: Datum): CString
  {
    if v.TextData? then v.text else ""
  }

  /** `data ? *(int *)data : INT_MIN` */
  function NumberValue(v: Datum): Int32
  {
    if v.IntData? then v.value else INT_MIN
  }

  /** `"name": "` , the start of a text entry. */
  function TextKey(name: CString): CString
  {
    "\"" + name + "\": \""
  }

  /** `"name": `, the start of a number entry. */
  function NumberKey(name: CString): CString
  {
    "\"" + name + "\": "
  }

  /** A closing quote before `s`. */
  function Quote(s: CString): CString
  {
    "\"" + s
  }

  /** The formatted output of each snprintf call a handler makes, in call order. */
  function Fragments(h: Handler, d: HandlerData, v: Datum): (r: seq<CString>)
    requires Accepts(h, d, v)
    ensures |r| == if h == CTag || h == OTag then 2 else 5
    ensures r[0] == Indent(d.level)
  {
    match h
    case CTag => [Indent(d.level), OrEmpty(d.ctag)]
    case OTag => [Indent(d.level), OrEmpty(d.otag)]
    case EntryText =>
      [Indent(d.level), OrEmpty(d.otag), TextKey(d.name.value), TextValue(v), Quote(OrEmpty(d.ctag))]
    case EntryNumber =>
      [Indent(d.level), OrEmpty(d.otag), NumberKey(d.name.value), Decimal(NumberValue(v)), d.ctag.value]
  }

  lemma Concat2(a: string, b: string)
    ensures Concat([a, b]) == a + b
  {
    assert [a] == [] + [a];
    ConcatSnoc([], a);
    assert [a, b] == [a] + [b];
    ConcatSnoc([a], b);
  }

  lemma Concat5(a: string, b: string, c: string, d: string, e: string)
    ensures Concat([a, b, c, d, e]) == a + b + c + d + e
  {
    Concat2(a, b);
    assert [a, b, c] == [a, b] + [c];
    ConcatSnoc([a, b], c);
    assert [a, b, c, d] == [a, b, c] + [d];
    ConcatSnoc([a, b, c], d);
    assert [a, b, c, d, e] == [a, b, c, d] + [e];
    ConcatSnoc([a, b, c, d], e);
  }

  lemma After2(s: Snap, a: string, b: string)
    ensures After(s, [a, b]) == Step(Step(s, a), b)
  {
    assert [a] == [] + [a];
    AfterSnoc(s, [], a);
    assert [a, b] == [a] + [b];
    AfterSnoc(s, [a], b);
  }

  lemma After5(s: Snap, a: string, b: string, c: string, d: string, e: string)
    ensures After(s, [a, b, c, d, e]) == Step(Step(Step(Step(Step(s, a), b), c), d), e)
  {
    After2(s, a, b);
    assert [a, b, c] == [a, b] + [c];
    AfterSnoc(s, [a, b], c);
    assert [a, b, c, d] == [a, b, c] + [d];
    AfterSnoc(s, [a, b, c], d);
    assert [a, b, c, d, e] == [a, b, c, d] + [e];
    AfterSnoc(s, [a, b, c, d], e);
  }

  /** What a tag handler appends: the indentation, then its tag. */
  lemma TagText(d: HandlerData, v: Datum)
    ensures Concat(Fragments(CTag, d, v)) == Indent(d.level) + OrEmpty(d.ctag)
    ensures Concat(Fragments(OTag, d, v)) == Indent(d.level) + OrEmpty(d.otag)
  {
    Concat2(Indent(d.level), OrEmpty(d.ctag));
    Concat2(Indent(d.level), OrEmpty(d.otag));
  }

  /** What the text entry handler appends: the indentation, the opening tag,
      `"name": "`, the text, `"` and the closing tag. */
  lemma EntryTextText(d: HandlerData, v: Datum)
    requires Accepts(EntryText, d, v)
    ensures Concat(Fragments(EntryText, d, v))
      == Indent(d.level) + OrEmpty(d.otag) + TextKey(d.name.value) + TextValue(v) + Quote(d.ctag.value)
  {
    var i, o, n, c := Indent(d.level), OrEmpty(d.otag), TextKey(d.name.value), Quote(d.ctag.value);
    Concat5(i, o, n, TextValue(v), c);
  }

  /** What the number entry handler appends: the indentation, the opening tag,
      `"name": `, the number in decimal and the closing tag. */
  lemma EntryNumberText(d: HandlerData, v: Datum)
    requires Accepts(EntryNumber, d, v)
    ensures Concat(Fragments(EntryNumber, d, v))
      == Indent(d.level) + OrEmpty(d.otag) + NumberKey(d.name.value) + Decimal(NumberValue(v)) + d.ctag.value
  {
    var i, o, n := Indent(d.level), OrEmpty(d.otag), NumberKey(d.name.value);
    Concat5(i, o, n, Decimal(NumberValue(v)), d.ctag.value);
  }

  /** With no data, a text entry shows an empty value and a number entry INT_MIN. */
  lemma NullData(d: HandlerData)
    requires Accepts(EntryText, d, NoData) && Accepts(EntryNumber, d, NoData)
    ensures Fragments(EntryText, d, NoData)[3] == ""
    ensures Fragments(EntryNumber, d, NoData)[3] == "-2147483648"
  {
    DecimalIntMin();
  }

  // ----- the buffer -----

  /** json_buffer. `Text` and `Overrun` are the model's bookkeeping: the
      would-be text of every append so far, and whether a write has gone past
      the text area. */
  class JsonBuffer {
    var buf: array<char>
    var len: nat
    var used: nat
    var dynamic: bool
    ghost var Text: string
    ghost var Overrun: bool

    /** The block holds the header and exactly `len` text bytes; `len` is a size_t. */
    ghost predicate Valid()
      reads this
    {
      buf.Length == H + len && len < SIZE_MOD && |Text| == used && NUL !in Text
    }

    ghost function Snapshot(): (s: Snap)
      reads this, buf
      requires Valid()
      ensures |s.area| == len
    {
      Snap(used, Text, buf[H..], Overrun)
    }

    /** The text area holds the would-be text in its bounded form (see Consistent). */
    ghost predicate Holds()
      reads this, buf
      requires Valid()
    {
      Consistent(Snapshot())
    }

    /** json_handler_string_buffer, read as the C string it points at. */
    function StringBuffer(): (r: CString)
      reads this, buf
      requires buf.Length >= H
      ensures H + |r| <= buf.Length && r == buf[H..H + |r|]
      ensures H + |r| < buf.Length ==> buf[H + |r|] == NUL
    {
      CStr(buf[H..])
    }

    /** json_handler_error_code: 0 while the text fits, 1 once it reached the capacity. */
    function ErrorCode(): (code: int)
      reads this
      ensures code == 0 <==> used < len
      ensures code == 1 <==> used >= len
    {
      if used < len then 0 else 1
    }

    /** The error code is the truncation signal: with room in the area and no
        overrun, it is 0 exactly when the buffer reads back as the whole
        would-be text. */
    lemma ErrorCodeSignalsTruncation()
      requires Valid() && Holds() && !Overrun && len > 0
      ensures ErrorCode() == 0 <==> StringBuffer() == Text
    {
      FitsIffWhole(Snapshot());
    }

    /** __alloc_json_buffer for a non-NULL block: record the text area's
        length, mark it empty and zero-fill it. */
    constructor Init(region: array<char>, len: nat, dynamic: bool)
      requires region.Length == H + len && len < SIZE_MOD
      modifies region
      ensures buf == region && this.len == len && used == 0 && this.dynamic == dynamic
      ensures Valid() && Text == [] && !Overrun
      ensures buf[H..] == Zeros(len) && Holds()
    {
      buf := region;
      this.len := len;
      used := 0;
      this.dynamic := dynamic;
      Text := [];
      Overrun := false;
      new;
      var i := 0;
      while i < len
        modifies region
        invariant 0 <= i <= len
        invariant forall k :: H <= k < H + i ==> region[k] == NUL
      {
        region[H + i] := NUL;
        i := i + 1;
      }
      assert buf[H..] == Zeros(len);
      assert Stored([], len) == Zeros(len);
    }

    /** __alloc_json_buffer: NULL in, NULL out. */
    static method AllocRegion(len: nat, region: array?<char>, dynamic: bool) returns (p: JsonBuffer?)
      requires region != null ==> region.Length == H + len
      requires len < SIZE_MOD
      modifies if region == null then {} else {region}
      ensures region == null ==> p == null
      ensures region != null ==>
        && p != null && fresh(p) && p.buf == region && p.len == len
        && p.dynamic == dynamic && p.used == 0 && p.Valid() && p.Text == [] && !p.Overrun
        && p.buf[H..] == Zeros(len) && p.Holds()
    {
      if region == null {
        return null;
      }
      p := new JsonBuffer.Init(region, len, dynamic);
    }

    /** alloc_json_buffer: one malloc of H + len bytes for header and text, owned
        by the buffer. Whether malloc succeeds is the parameter `mallocOk`. */
    static method Alloc(len: nat, mallocOk: bool) returns (p: JsonBuffer?)
      requires H + len < SIZE_MOD
      ensures p == null <==> !mallocOk
      ensures p != null ==>
        && fresh(p) && fresh(p.buf) && p.len == len && p.dynamic
        && p.used == 0 && p.Valid() && p.Text == [] && !p.Overrun
        && p.buf[H..] == Zeros(len) && p.Holds()
    {
      if !mallocOk {
        return null;
      }
      var region := new char[H + len];
      p := AllocRegion(len, region, true);
    }

    /** alloc_json_buffer_static: the header goes at the start of the caller's
        region of `size` bytes and the text area is the rest, so its capacity
        is size - H (see StaticCapacityAsWritten for what the source records).
        The region stays the caller's: the buffer is not dynamic. */
    static method AllocStatic(size: nat, region: array?<char>) returns (p: JsonBuffer?)
      requires region != null ==> region.Length == size
      requires size < SIZE_MOD
      modifies if region == null then {} else {region}
      ensures size < H || region == null ==> p == null
      ensures size < H && region != null ==> region[..] == old(region[..])
      ensures size >= H && region != null ==>
        && p != null && fresh(p) && p.buf == region
        && p.len == size - H && !p.dynamic && p.used == 0 && p.Valid() && p.Text == []
        && !p.Overrun && p.buf[H..] == Zeros(size - H) && p.Holds()
    {
      if size < H {
        return null;
      }
      p := AllocRegion(size - H, region, false);
    }

    /** destroy_json_buffer: nothing for NULL; the block is freed only when the
        buffer owns it. `freed` says whether free was called. */
    static method Destroy(p: JsonBuffer?) returns (freed: bool)
      ensures freed <==> p != null && p.dynamic
    {
      if p == null {
        return false;
      }
      freed := p.dynamic;
    }

    /** The library call `snprintf(buf + at, len - at, "%s", frag)` for an
        offset inside the text area: copy what fits, then the terminator. */
    method BoundedWrite(at: nat, frag: CString)
      requires Valid() && at < len
      modifies buf
      ensures buf[..H] == old(buf[..H])
      ensures buf[H..] == Snprintf(old(buf[H..]), at, frag)
    {
      ghost var area, header := buf[H..], buf[..H];
      ghost var cur := area;
      var n := if |frag| < len - at then |frag| else len - at - 1;
      var i := 0;
      while i < n
        invariant 0 <= i <= n
        invariant buf[..H] == header && buf[H..] == cur && cur == Written(area, at, frag, i)
      {
        WrittenStep(area, at, frag, i);
        buf[H + at + i] := frag[i];
        cur := cur[at + i := frag[i]];
        i := i + 1;
      }
      WrittenEnd(area, at, frag, n);
      buf[H + at + n] := NUL;
      cur := cur[at + n := NUL];
    }

    /** json_handler_snprintf with formatted output `frag`:
        `used += snprintf(buf + used, len - used, ...)`. */
    method Append(frag: CString)
      requires Valid()
      modifies this, buf
      ensures Valid() && buf == old(buf) && len == old(len) && dynamic == old(dynamic)
      ensures buf[..H] == old(buf[..H])
      ensures Snapshot() == Step(old(Snapshot()), frag)
    {
      if used <= len {
        var size := len - used;
        if size > 0 {
          BoundedWrite(used, frag);
        }
      } else {
        // len - used wraps round (SizeArgWraps): the write lands past the area
        Overrun := true;
      }
      NoNulAppend(Text, frag);
      used := used + |frag|;
      Text := Text + frag;
    }

    /** json_handler_ctag: the indentation, then the closing tag. */
    method HandleCTag(d: HandlerData, v: Datum) returns (code: int)
      requires Valid()
      modifies this, buf
      ensures Valid() && buf == old(buf) && len == old(len) && dynamic == old(dynamic)
      ensures buf[..H] == old(buf[..H])
      ensures Snapshot() == After(old(Snapshot()), Fragments(CTag, d, v))
      ensures code == ErrorCode()
    {
      ghost var s0 := Snapshot();
      Append(Indent(d.level));
      ghost var s1 := Snapshot();
      Append(OrEmpty(d.ctag));
      After2(s0, Indent(d.level), OrEmpty(d.ctag));
      code := ErrorCode();
    }

    /** json_handler_otag: the indentation, then the opening tag. */
    method HandleOTag(d: HandlerData, v: Datum) returns (code: int)
      requires Valid()
      modifies this, buf
      ensures Valid() && buf == old(buf) && len == old(len) && dynamic == old(dynamic)
      ensures buf[..H] == old(buf[..H])
      ensures Snapshot() == After(old(Snapshot()), Fragments(OTag, d, v))
      ensures code == ErrorCode()
    {
      ghost var s0 := Snapshot();
      Append(Indent(d.level));
      ghost var s1 := Snapshot();
      Append(OrEmpty(d.otag));
      After2(s0, Indent(d.level), OrEmpty(d.otag));
      code := ErrorCode();
    }

    /** json_handler_entry_text. */
    method HandleEntryText(d: HandlerData, v: Datum) returns (code: int)
      requires Valid() && Accepts(EntryText, d, v)
      modifies this, buf
      ensures Valid() && buf == old(buf) && len == old(len) && dynamic == old(dynamic)
      ensures buf[..H] == old(buf[..H])
      ensures Snapshot() == After(old(Snapshot()), Fragments(EntryText, d, v))
      ensures code == ErrorCode()
    {
      var i, o, n, t, c := Indent(d.level), OrEmpty(d.otag), TextKey(d.name.value), TextValue(v), Quote(OrEmpty(d.ctag));
      ghost var s0 := Snapshot();
      Append(i);
      ghost var s1 := Snapshot();
      Append(o);
      ghost var s2 := Snapshot();
      Append(n);
      ghost var s3 := Snapshot();
      Append(t);
      ghost var s4 := Snapshot();
      Append(c);
      After5(s0, i, o, n, t, c);
      code := ErrorCode();
    }

    /** json_handler_entry_number. */
    method HandleEntryNumber(d: HandlerData, v: Datum) returns (code: int)
      requires Valid() && Accepts(EntryNumber, d, v)
      modifies this, buf
      ensures Valid() && buf == old(buf) && len == old(len) && dynamic == old(dynamic)
      ensures buf[..H] == old(buf[..H])
      ensures Snapshot() == After(old(Snapshot()), Fragments(EntryNumber, d, v))
      ensures code == ErrorCode()
    {
      var i, o, n, t, c := Indent(d.level), OrEmpty(d.otag), NumberKey(d.name.value), Decimal(NumberValue(v)), d.ctag.value;
      ghost var s0 := Snapshot();
      Append(i);
      ghost var s1 := Snapshot();
      Append(o);
      ghost var s2 := Snapshot();
      Append(n);
      ghost var s3 := Snapshot();
      Append(t);
      ghost var s4 := Snapshot();
      Append(c);
      After5(s0, i, o, n, t, c);
      code := ErrorCode();
    }

    /** A call through a table entry's handler pointer. */
    method Handle(h: Handler, d: HandlerData, v: Datum) returns (code: int)
      requires Valid() && Accepts(h, d, v)
      modifies this, buf
      ensures Valid() && buf == old(buf) && len == old(len) && dynamic == old(dynamic)
      ensures buf[..H] == old(buf[..H])
      ensures Snapshot() == After(old(Snapshot()), Fragments(h, d, v))
      ensures code == ErrorCode()
    {
      match h
      case CTag => code := HandleCTag(d, v);
      case OTag => code := HandleOTag(d, v);
      case EntryText => code := HandleEntryText(d, v);
      case EntryNumber => code := HandleEntryNumber(d, v);
    }

    /** The closing loop of json_handler_compress_in_place,
        `while (w != r) *w++ = '\0';`, over text offsets lo..hi. */
    method ZeroFill(lo: nat, hi: nat)
      requires Valid() && lo <= hi <= len
      modifies buf
      ensures buf[..H] == old(buf[..H])
      ensures buf[H..] == old(buf[H..])[..lo] + Zeros(hi - lo) + old(buf[H..])[hi..]
    {
      ghost var a := buf[H..];
      ghost var header, cur := buf[..H], a;
      var w := lo;
      assert a == Filled(a, lo, lo);
      while w != hi
        invariant lo <= w <= hi
        invariant buf[..H] == header && buf[H..] == cur && cur == Filled(a, lo, w)
        decreases hi - w
      {
        FilledStep(a, lo, w);
        buf[H + w] := NUL;
        cur := cur[w := NUL];
        w := w + 1;
      }
    }

    /** The read/write pass of json_handler_compress_in_place: the read
        cursor `r` runs up to the terminating NUL, and every character read is
        copied to the write cursor `w` when the quote flag is set or it is not
        blank. Returns both cursors. The area ends up as the compacted text
        followed by the input's own bytes from `w` on, those between the
        cursors included; nothing outside the text area changes. */
    method CompactScan() returns (r: nat, w: nat)
      requires Valid() && NUL in buf[H..]
      modifies buf
      ensures buf[..H] == old(buf[..H])
      ensures var a := old(buf[H..]);
        r == NulIndex(a) && Scanned(a, buf[H..], r, w, QuoteParity(false, a[..r]))
    {
      ghost var a := buf[H..];
      ghost var header, cur := buf[..H], a;
      var stringFound := false;
      r, w := 0, 0;
      CompactorStart(a);
      while buf[H + r] != NUL
        invariant buf[..H] == header && buf[H..] == cur
        invariant Scanned(a, cur, r, w, stringFound)
        decreases NulIndex(a) - r
      {
        var c := buf[H + r];
        ghost var cur0, w0, found0 := cur, w, stringFound;
        if c == '"' {
          stringFound := !stringFound;
        }
        if stringFound || !IsSpace(c) {
          ghost var whole := buf[..];
          buf[H + w] := c;
          assert buf[..] == whole[H + w := c];
          AreaUpdate(whole, w, c);
          cur := cur[w := c];
          w := w + 1;
        }
        CompactorStep(a, cur0, r, w0, found0, c, cur, w, stringFound);
        r := r + 1;
      }
      ScanDone(a, cur, r, w, stringFound, buf[H + r]);
    }

    /** json_handler_compress_in_place: the read/write pass, then zeros from
        `w` up to where `r` stopped. The result is the compacted C string. */
    method CompressInPlace() returns (str: CString)
      requires Valid() && NUL in buf[H..]
      modifies buf
      ensures buf[..H] == old(buf[..H])
      ensures var a := old(buf[H..]); var n := NulIndex(a); var c := Compact(a[..n]);
        |c| <= n && buf[H..] == c + Zeros(n - |c|) + a[n..]
      ensures str == Compact(old(StringBuffer())) && str == StringBuffer()
    {
      ghost var a := buf[H..];
      assert StringBuffer() == a[..NulIndex(a)];
      var r, w := CompactScan();
      ghost var cur := buf[H..];
      ZeroFill(w, r);
      ghost var b := buf[H..];
      assert b == cur[..w] + Zeros(r - w) + cur[r..];
      CompactedArea(a, cur, w);
      str := StringBuffer();
    }
  }

  /** The area while the closing loop runs: zeros over [lo, w), the rest as before. */
  function Filled(a: seq<char>, lo: nat, w: nat): (r: seq<char>)
    requires lo <= w <= |a|
    ensures |r| == |a|
  {
    a[..lo] + Zeros(w - lo) + a[w..]
  }

  lemma {:induction false} FilledStep(a: seq<char>, lo: nat, w: nat)
    requires lo <= w < |a|
    ensures Filled(a, lo, w)[w := NUL] == Filled(a, lo, w + 1)
  {
    assert Zeros(w + 1 - lo) == Zeros(w - lo) + [NUL];
  }

  /** The area while snprintf copies: the first i characters of `frag` at
      offset u, everything else as before. */
  function Written(area: seq<char>, u: nat, frag: string, i: nat): (r: seq<char>)
    requires u + i <= |area| && i <= |frag|
    ensures |r| == |area|
  {
    area[..u] + frag[..i] + area[u + i..]
  }

  lemma {:induction false} WrittenStep(area: seq<char>, u: nat, frag: string, i: nat)
    requires u + i < |area| && i < |frag|
    ensures Written(area, u, frag, i)[u + i := frag[i]] == Written(area, u, frag, i + 1)
  {
    assert frag[..i + 1] == frag[..i] + [frag[i]];
  }

  /** n characters copied and the terminator stored is the bounded write. */
  lemma {:induction false} WrittenEnd(area: seq<char>, u: nat, frag: string, n: nat)
    requires u < |area|
    requires n == if |frag| < |area| - u then |frag| else |area| - u - 1
    ensures Written(area, u, frag, n)[u + n := NUL] == Snprintf(area, u, frag)
  {
  }

  lemma NoNulAppend(t: string, f: CString)
    requires NUL !in t
    ensures NUL !in t + f
  {
  }

  /** The compactor's state after reading a[..r]: the area `cur` holds the
      compacted prefix in its first w bytes and every byte from the write
      cursor on unchanged (the write cursor never passes the read cursor, so
      nothing there has been written yet), and the flag is the quote parity
      of what has been read. */
  ghost predicate Scanned(a: seq<char>, cur: seq<char>, r: nat, w: nat, flag: bool)
  {
    && w <= r <= NulIndex(a) < |a|
    && |Compact(a[..r])| == w && cur == Compact(a[..r]) + a[w..]
    && flag == QuoteParity(false, a[..r])
  }

  /** The whole area in the compactor's state: the compacted prefix, then
      the input from the write cursor on. */
  lemma ScannedArea(a: seq<char>, cur: seq<char>, r: nat, w: nat, flag: bool)
    requires Scanned(a, cur, r, w, flag)
    ensures |cur| == |a| && cur[..w] == Compact(a[..r]) && cur[w..] == a[w..]
    ensures cur[r..] == a[r..]
  {
    assert cur[r..] == cur[w..][r - w..];
    assert a[r..] == a[w..][r - w..];
  }

  /** Writing one byte of the text area, seen on the area alone. */
  lemma AreaUpdate(whole: seq<char>, i: nat, c: char)
    requires H + i < |whole|
    ensures whole[H + i := c][..H] == whole[..H]
    ensures whole[H + i := c][H..] == whole[H..][i := c]
  {
  }

  /** The read cursor, at or past the write cursor, still sees the input. */
  lemma ReadAhead(p: seq<char>, a: seq<char>, w: nat, r: nat)
    requires |p| == w <= r < |a|
    ensures (p + a[w..])[r] == a[r]
  {
  }

  /** Writing `c` at the write cursor appends it to the compacted prefix. */
  lemma WriteAhead(p: seq<char>, a: seq<char>, w: nat, c: char)
    requires |p| == w < |a|
    ensures (p + a[w..])[w := c] == (p + [c]) + a[w + 1..]
  {
  }

  lemma {:induction false} CompactorStart(a: seq<char>)
    requires NUL in a
    ensures Scanned(a, a, 0, 0, false)
  {
  }

  /** One iteration of the compactor's loop keeps Scanned: toggle the flag on
      a quote, then keep the character `c` just read if the flag is now set or
      it is not blank, else drop it. */
  lemma {:induction false} CompactorStep(a: seq<char>, cur: seq<char>, r: nat, w: nat, flag: bool,
                      c: char, cur': seq<char>, w': nat, flag': bool)
    requires Scanned(a, cur, r, w, flag) && c == cur[r] && c != NUL
    requires flag' == if c == '"' then !flag else flag
    requires w < |cur|
    requires cur' == (if flag' || !IsSpace(c) then cur[w := c] else cur)
    requires w' == if flag' || !IsSpace(c) then w + 1 else w
    ensures Scanned(a, cur', r + 1, w', flag')
  {
    var s, p := a[..r], Compact(a[..r]);
    ReadAhead(p, a, w, r);
    assert a[..r + 1] == s + [c];
    ParitySnoc(false, s, c);
    CompactSnoc(false, s, c);
    if flag' || !IsSpace(c) {
      assert Compact(a[..r + 1]) == p + [c];
      WriteAhead(p, a, w, c);
    } else {
      assert Compact(a[..r + 1]) == p;
    }
  }

  /** The loop stops at the terminator, having read exactly the C string. */
  lemma {:induction false} ScanDone(a: seq<char>, cur: seq<char>, r: nat, w: nat, flag: bool, c: char)
    requires Scanned(a, cur, r, w, flag) && r < |cur| && c == cur[r] && c == NUL
    ensures r == NulIndex(a)
  {
    ReadAhead(Compact(a[..r]), a, w, r);
  }

  /** The area after compaction, read back: the compacted text (which has no
      NUL), zeros up to the old terminator, then the untouched rest. */
  lemma {:induction false} CompactedArea(a: seq<char>, cur: seq<char>, w: nat)
    requires Scanned(a, cur, NulIndex(a), w, QuoteParity(false, a[..NulIndex(a)]))
    ensures var n := NulIndex(a); var c := Compact(a[..n]);
      var b := cur[..w] + Zeros(n - w) + cur[n..];
      |c| == w && b == c + Zeros(n - |c|) + a[n..] && CStr(b) == c
  {
    var n := NulIndex(a);
    var c := Compact(a[..n]);
    ScannedArea(a, cur, n, w, QuoteParity(false, a[..n]));
    var rest := Zeros(n - w) + a[n..];
    Reassemble(cur[..w], Zeros(n - w), cur[n..], a[n..]);
    CompactNoNul(a[..n]);
    assert rest[0] == NUL;
    CStrOfTerminated(c, rest);
  }

  /** Regrouping the closed area around its zeros, with an equal tail. */
  lemma Reassemble(x: seq<char>, z: seq<char>, y: seq<char>, y': seq<char>)
    requires y == y'
    ensures x + z + y == x + (z + y')
  {
  }

  /** The compacted text of a NUL-free text has no NUL either. */
  lemma CompactNoNul(s: string)
    requires NUL !in s
    ensures NUL !in Compact(s)
  {
    if NUL in Compact(s) {
      CompactFromChars(false, s, NUL);
    }
  }

  // ----- alloc_json_buffer_static as written -----

  /** Capacity that alloc_json_buffer_static records: `p->len = len`, the
      whole region's size, although the text area starts H bytes in. */
  function StaticCapacityAsWritten(size: nat): nat
  {
    size
  }

  /** `memset(p->buf, 0, p->len)` as alloc_json_buffer_static runs it, on a
      memory `mem` in which the caller's region of `size` bytes starts at
      offset `at`: the header stays, then the recorded capacity is zeroed. */
  function StaticZeroFillAsWritten(mem: seq<char>, at: nat, size: nat): (r: seq<char>)
    requires at + H + StaticCapacityAsWritten(size) <= |mem|
    ensures |r| == |mem| && r[..at + H] == mem[..at + H]
  {
    mem[..at + H] + Zeros(StaticCapacityAsWritten(size)) + mem[at + H + StaticCapacityAsWritten(size)..]
  }

  /** The zero fill as written clears the H bytes that follow the caller's
      region: memory that is not the region's is overwritten. */
  lemma StaticCapacityOverrunsRegion(mem: seq<char>, at: nat, size: nat)
    requires size >= H && at + size + H <= |mem|
    ensures var r := StaticZeroFillAsWritten(mem, at, size);
      forall k :: at + size <= k < at + size + H ==> r[k] == NUL
    ensures var r := StaticZeroFillAsWritten(mem, at, size);
      forall k :: at + size <= k < at + size + H && mem[k] != NUL ==> r[k] != mem[k]
  {
    var r := StaticZeroFillAsWritten(mem, at, size);
    forall k | at + size <= k < at + size + H ensures r[k] == NUL {
      assert r[k] == Zeros(size)[k - at - H];
    }
  }

  /** The 1024-byte static buffer of the example program: the 32 bytes after
      it are zeroed. */
  lemma StaticCapacityMainBuffer(mem: seq<char>)
    requires |mem| >= 1024 + H
    ensures StaticZeroFillAsWritten(mem, 0, 1024)[1024..1024 + H] == Zeros(H)
  {
    StaticCapacityOverrunsRegion(mem, 0, 1024);
  }
}
