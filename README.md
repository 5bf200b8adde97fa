# simplest-json-writer, modelled in Dafny

The simplest JSON writer is a small C library that builds a JSON text in one
bounded character buffer. A table of entries is run against the buffer in
order. Each entry is a handler, its configuration (opening tag, member name,
format, closing tag, indent level) and a data pointer. Every handler appends
its fragments with a bounded `snprintf` that adds the would-be length to
`used`. It then reports 0 while `used < len` and 1 otherwise. Afterwards,
`json_handler_compress_in_place` removes the whitespace outside quoted spans
in place. The example program runs one ten-row table and checks the
compacted text against a literal.

The model has five modules:

- `CText` covers what the library takes from the C library: C strings (no NUL inside), the C `int`, C-locale `isspace`, the bounded write of `snprintf(dst, n, "%s", s)` as a function on sequences, and `"%d"` rendering with its read-back.
- `Compaction` gives the compactor as a function on strings (`CompactFrom`, defined one character at a time like the loop) together with `StripBlanks`, a reference that removes all whitespace. It proves what the one-bit quote toggle keeps and drops, that compaction is idempotent, and that it has no escape state.
- `JsonWriter` models json_writer.c.
  - `Snap` and `After` state the appends as values.
  - The class `JsonBuffer` mirrors `json_buffer`. It holds `buf`, `len`, `used` and `dynamic`, plus two ghost fields: the would-be text and an overrun flag.
  - Its methods are the allocators, `destroy_json_buffer`, the `json_handler_snprintf` macro (`Append`), the four handlers and the in-place compactor, each proved against the value model.
- `HandlerCompaction` shows what compaction makes of each handler's output.
- `JsonWriterMain` models json_writer_main.cpp.
  - The `json_writers` table becomes a sequence of `Writer` values, and the executor loop becomes `RunTable`.
  - It proves that compacting the table's output, with the values `_json_example1` sets, gives exactly `compressed_string_b`. `Example1` runs the whole example against a buffer.

Decisions:

- **Header size.** The header (`sizeof(json_buffer)`) is the constant `H = 32`, its size on LP64. A buffer's `buf` array is the whole block: the header takes `buf[..H]` and the text area is `buf[H..]`.
- **size_t wrap.** `len - used` is a `size_t` and wraps once `used > len` (`SizeArgWraps`). The model does not claim that later appends are harmless no-ops. When an append starts past the capacity, the ghost flag `Overrun` is set and the text area is no longer tracked. `FitsNeverOverruns` and `AfterOverrun` say exactly when that happens.
- **No escape state.** The compactor follows json_writer.c: one bit flips on every `"` and there is no escape or error state. In JSON, `\"` inside a string does not end the string; the code's toggle ends it anyway, so the blanks after it are dropped. `EscapedQuoteEndsSpan` shows this on `"a\" b"`. The example's `\"` pairs still survive, because no blank sits between the two quotes of a pair (`Entry4Survives`).
- **Negative level.** `%.*s` with a negative precision prints all 30 tabs (`Indent`).
- **Static allocator.** `alloc_json_buffer_static` records the whole region's size as the capacity. The model gives the text area `size - H` and logs the source's behaviour under Findings.

## Model

| member | source | states |
|---|---|---|
| CText.Snprintf | json_writer.c:83-84 | the bounded write keeps the area's length and never changes the bytes before the write offset |
| CText.SnprintfFits | json_writer.c:83-84 | when the fragment and its NUL fit, the area holds the earlier bytes, exactly the fragment, a NUL, then the old rest |
| CText.SnprintfTruncates | json_writer.c:83-84 | when the fragment does not fit, it is cut so that the NUL lands in the area's last byte |
| CText.SnprintfStored | json_writer.c:83-84 | one more bounded write at offset \|t\| turns the stored form of t into the stored form of t + frag |
| CText.StoredString | json_writer.c:83-87 | the stored form reads back as the whole text when it fits, and otherwise as the text cut to len - 1 characters; it contains a NUL iff len > 0 |
| CText.SnprintfString | json_writer_main.cpp:68-71 | snprintf into a zero-filled char[n] with a format that holds no `%` reads back as the format text cut to n - 1 characters |
| CText.Decimal | json_writer.c:133 | "%d" output consists only of an optional minus sign and digits |
| CText.DecimalRoundTrip | json_writer.c:133 | parsing the "%d" rendering of any integer gives the integer back |
| CText.DecimalCanonical | json_writer.c:133 | "%d" output starts with '-' exactly when the number is negative, and its digit part has no leading zero; it is "0" exactly for 0 |
| CText.DecimalIntMin | json_writer.c:133 | INT_MIN, which an entry with NULL data prints, renders as -2147483648 |
| Compaction.Compact | json_writer.c:144-168 | the compaction of a whole text starts with the flag clear and is never longer than the text |
| Compaction.CompactFrom | json_writer.c:150-161 | the compactor's output is never longer than its input (the write cursor never passes the read cursor) |
| Compaction.CompactSnoc | json_writer.c:150-161 | one loop step: the next character is copied exactly when the flag, already flipped by a quote, is set or the character is not whitespace |
| Compaction.QuoteParityCounts | json_writer.c:151-153 | the flag is the parity of the number of quotes read so far |
| Compaction.CompactFromChars | json_writer.c:155-160 | every character written was read |
| Compaction.CompactAppend | json_writer.c:150-161 | compacting a + b is compacting a, then compacting b starting from the flag a leaves |
| Compaction.CompactBalanced | json_writer.c:150-161 | a prefix that leaves the flag clear compacts independently of what follows |
| Compaction.CompactOutsideQuotes | json_writer.c:158-160 | with the flag clear, a quote-free text loses exactly its whitespace |
| Compaction.CompactInsideQuotes | json_writer.c:155-157 | with the flag set, a quote-free text is copied verbatim, whitespace included |
| Compaction.CompactQuote | json_writer.c:151-157 | a quote is always copied and flips the flag |
| Compaction.QuotedSpanVerbatim | json_writer.c:150-161 | everything strictly between an opening quote and the next quote is kept byte for byte, and what lies around it is compacted on its own |
| Compaction.CompactKeepsParity | json_writer.c:150-161 | the compacted text leaves the same quote flag as the original |
| Compaction.CompactKeepsQuotes | json_writer.c:150-161 | every quote is kept: the quote count is unchanged |
| Compaction.CompactKeepsNonBlanks | json_writer.c:150-161 | only whitespace is removed: the non-whitespace characters come out unchanged and in order |
| Compaction.CompactLeavesOnlyQuotedBlanks | json_writer.c:155-160 | every whitespace character left in the output sits inside a quoted span of the output |
| Compaction.CompactFromIdempotent | json_writer.c:150-161 | a second pass from the same flag removes nothing |
| Compaction.CompactIdempotent | json_writer.c:144-168 | compacting a compacted text gives it back unchanged |
| Compaction.SecondQuoteClosesSpan | json_writer.c:151-153 | every quote toggles the span: after "a", the text up to the next quote loses its blanks |
| Compaction.EscapedQuoteEndsSpan | json_writer.c:151-153 | a backslash does not escape: the quote after it ends the span, so the blank in "a\" b" is dropped |
| JsonWriter.SizeArgWraps | json_writer.c:84 | once used > len, the size_t len - used wraps to SIZE_MAX + 1 - (used - len), which is not 0 |
| JsonWriter.Step | json_writer.c:83-84 | one append grows used by the fragment's full length and the would-be text by the fragment, and keeps the bytes before the write offset |
| JsonWriter.AfterAppend | json_writer.c:83-84 | running two batches of appends is running their concatenation |
| JsonWriter.AfterAccounting | json_writer.c:83-84 | every append adds its fragment to the would-be text and its full length to used, truncated or not |
| JsonWriter.AfterOverrun | json_writer.c:83-84 | a write goes past the area iff some append starts with used already beyond the capacity |
| JsonWriter.FitsNeverOverruns | json_writer.c:83-84 | while the whole text fits in the capacity, no write goes past the area |
| JsonWriter.AfterConsistent | json_writer.c:83-84 | without an overrun, the area holds the would-be text in its bounded form after any sequence of appends |
| JsonWriter.WrittenText | json_writer.c:83-84 | after appends to a text with no overrun, a text that fits is held whole followed by zeros and reads back exactly; when no append started past the area, one that does not fit reads back cut to capacity - 1 characters; a write went past the area iff some append started beyond it |
| JsonWriter.FitsIffWhole | json_writer.c:83-87 | with room in the area and no overrun, used < capacity iff the area reads back as the whole would-be text |
| JsonWriter.ConcatNoNul | json_writer.c:83-84 | fragments that are C strings append a text with no NUL |
| JsonWriter.Indent | json_writer.c:89-94 | "%.*s" over tab_chars gives level tabs, at most 30, and all 30 for a negative level |
| JsonWriter.Accepts | json_writer.c:109-137 | the entry handlers need a non-empty name and closing tag (the asserts at 111-112 and 126-127) and data of the kind their default format reads |
| JsonWriter.Fragments | json_writer.c:91-137 | the formatted output of each handler's snprintf calls in call order: two for a tag handler, five for an entry handler, the indentation first |
| JsonWriter.TagText | json_writer.c:91-107 | a tag handler appends the indentation and then its tag, with a NULL tag read as "" |
| JsonWriter.EntryTextText | json_writer.c:109-122 | the text handler appends the indentation, the opening tag, `"name": "`, the text, `"` and the closing tag, in that order |
| JsonWriter.EntryNumberText | json_writer.c:124-137 | the number handler appends the indentation, the opening tag, `"name": `, the decimal number and the closing tag, in that order |
| JsonWriter.NullData | json_writer.c:118-133 | with NULL data, a text entry shows "" and a number entry shows -2147483648 |
| JsonWriter.JsonBuffer.ErrorCode | json_writer.c:86-87 | the code is 0 iff used < len and 1 iff used >= len |
| JsonWriter.JsonBuffer.ErrorCodeSignalsTruncation | json_writer.c:86-87 | with no overrun and len > 0, the code is 0 iff the buffer reads back as the whole would-be text, so 1 signals truncation |
| JsonWriter.JsonBuffer.StringBuffer | json_writer.c:139-142 | the text area read as a C string: the bytes after the header up to, not including, the first NUL |
| JsonWriter.JsonBuffer.Init | json_writer.c:48-57 | the new buffer uses the given block, records len and the ownership flag, has used = 0, and its text area is all zeros |
| JsonWriter.JsonBuffer.AllocRegion | json_writer.c:43-58 | a NULL block gives NULL; otherwise a fresh, empty, zero-filled buffer over that block |
| JsonWriter.JsonBuffer.Alloc | json_writer.c:60-63 | NULL iff malloc fails; otherwise an owned (dynamic), empty, zero-filled buffer of capacity len over a fresh block of H + len |
| JsonWriter.JsonBuffer.AllocStatic | json_writer.c:65-71 | NULL when the region is smaller than the header or is NULL, and a refused region is left as it was; otherwise a borrowed (not dynamic), empty, zero-filled buffer over the caller's region |
| JsonWriter.JsonBuffer.Destroy | json_writer.c:74-81 | free is called iff the handle is not NULL and the buffer owns its block |
| JsonWriter.JsonBuffer.BoundedWrite | json_writer.c:84 | with the offset inside the area, the area becomes the bounded write of the fragment and the header is untouched |
| JsonWriter.JsonBuffer.Append | json_writer.c:83-84 | the buffer's state becomes one more step of the value model: used grows by the full length and the area gets the bounded write, unless used already exceeds len |
| JsonWriter.JsonBuffer.HandleCTag | json_writer.c:91-98 | the buffer's state becomes the appends of the closing-tag fragments, and the code is the error code afterwards |
| JsonWriter.JsonBuffer.HandleOTag | json_writer.c:100-107 | the buffer's state becomes the appends of the opening-tag fragments, and the code is the error code afterwards |
| JsonWriter.JsonBuffer.HandleEntryText | json_writer.c:109-122 | the buffer's state becomes the appends of the five text-entry fragments, and the code is the error code afterwards |
| JsonWriter.JsonBuffer.HandleEntryNumber | json_writer.c:124-137 | the buffer's state becomes the appends of the five number-entry fragments, and the code is the error code afterwards |
| JsonWriter.JsonBuffer.Handle | json_writer_main.cpp:78 | a call through the handler pointer does what the chosen handler does |
| JsonWriter.JsonBuffer.ZeroFill | json_writer.c:163-165 | the bytes from the write cursor up to the read cursor become zeros and nothing else changes |
| JsonWriter.JsonBuffer.CompactScan | json_writer.c:146-161 | the read cursor stops at the first NUL; the area becomes the compacted text followed by the input's own bytes from the write cursor on, so the bytes between the cursors hold input not yet overwritten |
| JsonWriter.JsonBuffer.CompressInPlace | json_writer.c:144-168 | the area becomes the compacted text, zeros up to the old terminator, then the untouched rest; the string returned is the compaction of the old string and is what the buffer now reads as |
| JsonWriter.CompactorStep | json_writer.c:150-161 | one iteration of the read/write loop keeps the compactor's invariant |
| JsonWriter.CompactedArea | json_writer.c:163-167 | after the zero fill, the area reads back as exactly the compacted text |
| JsonWriter.CompactNoNul | json_writer.c:150-161 | compacting a NUL-free text yields a NUL-free text |
| JsonWriter.StaticZeroFillAsWritten | json_writer.c:55 | the memset as written, on a memory holding the caller's region: the header bytes stay and the recorded capacity is zeroed from H on |
| JsonWriter.StaticCapacityOverrunsRegion | json_writer.c:50-55 | the zero fill as written sets the H bytes after the caller's region to NUL, changing every one that was not already NUL |
| JsonWriter.StaticCapacityMainBuffer | json_writer.c:50-55 | for the example's 1024-byte static buffer, the 32 bytes after it are zeroed |
| HandlerCompaction.NumberKeyCompacts | json_writer.c:132 | `"name": ` compacts to `"name":` and leaves the quote flag clear |
| HandlerCompaction.TextKeyCompacts | json_writer.c:117 | `"name": "` compacts to `"name":"` and leaves the flag set for the value |
| HandlerCompaction.QuoteCompacts | json_writer.c:119 | the closing quote ends the span and the closing tag loses its blanks |
| HandlerCompaction.LeadCompacts | json_writer.c:115-116 | the indentation and a quote-free opening tag compact to the tag's non-blanks |
| HandlerCompaction.DecimalCompacts | json_writer.c:133 | the decimal digits pass through compaction unchanged and leave the flag clear |
| HandlerCompaction.CompactTag | json_writer.c:91-107 | a tag handler's output compacts to its tag's non-blanks and leaves the flag clear |
| HandlerCompaction.CompactKeyedTag | json_writer_main.cpp:56 | an opening tag that begins with a member name keeps the name and loses the blanks of the rest |
| HandlerCompaction.CompactEntryText | json_writer.c:109-122 | a text entry compacts to the opening tag's non-blanks, `"name":"value"` with the value verbatim, then the closing tag's non-blanks, and leaves the flag clear |
| HandlerCompaction.CompactEntryNumber | json_writer.c:124-137 | a number entry compacts to the opening tag's non-blanks, `"name":` and the digits, then the closing tag's non-blanks, and leaves the flag clear |
| JsonWriterMain.TableFragments | json_writer_main.cpp:75-80 | what a run of the table appends: each entry's handler fragments in array order, nothing for a NULL handler |
| JsonWriterMain.TableFragmentsAppend | json_writer_main.cpp:75-80 | running two tables back to back appends what their concatenation appends: each entry once, in order |
| JsonWriterMain.NullEntriesSkipped | json_writer_main.cpp:77 | entries with a NULL handler append nothing |
| JsonWriterMain.RunEntry | json_writer_main.cpp:77-79 | one loop pass appends the entry's fragments, or nothing when its handler is NULL |
| JsonWriterMain.RunTable | json_writer_main.cpp:75-80 | the buffer's state becomes the appends of every entry's fragments, in array order; return codes do not stop the loop |
| JsonWriterMain.RunFromEmpty | json_writer_main.cpp:75-82 | from an empty buffer, the run leaves used equal to the output's length, and a fitting output reads back exactly |
| JsonWriterMain.GlobalText | json_writer_main.cpp:68-71 | a global char[64] after snprintf with the value as its format, read back as a C string; the value must hold no `%` |
| JsonWriterMain.GlobalTextStored | json_writer_main.cpp:68-71 | a `%`-free value of up to 63 characters is stored in a char[64] whole; a longer one is cut to 63 |
| JsonWriterMain.ValuesHoldNoDirective | json_writer_main.cpp:68-71 | the four values used as formats hold no `%`, so each prints as it is |
| JsonWriterMain.Entry4Value | json_writer_main.cpp:71 | the text stored in entry4_text after C's escapes: four backslash-quote pairs and four doubled backslashes |
| JsonWriterMain.SetGlobals | json_writer_main.cpp:68-73 | after the assignments, the table's data pointers reach exactly the example's values |
| JsonWriterMain.OTagWriterCompacts | json_writer_main.cpp:50 | an opening-tag row compacts to its tag's non-blanks; its output is indent plus tag long |
| JsonWriterMain.CTagWriterCompacts | json_writer_main.cpp:61-63 | a closing-tag row compacts to its tag's non-blanks; its output is indent plus tag long |
| JsonWriterMain.KeyedTagWriterCompacts | json_writer_main.cpp:56 | an opening tag with a member name compacts to the member and the rest's non-blanks |
| JsonWriterMain.TextWriterCompacts | json_writer_main.cpp:52-55 | a text row compacts to `"name":"value"` and its separator, with the exact output length |
| JsonWriterMain.NumberWriterCompacts | json_writer_main.cpp:58-59 | a number row compacts to `"name":`, the digits and its separator, with the exact output length |
| JsonWriterMain.JsonWriters | json_writer_main.cpp:48-64 | the json_writers table: its ten rows in order |
| JsonWriterMain.Row0 | json_writer_main.cpp:50 | the opening `{` row at level 0 |
| JsonWriterMain.Row1 | json_writer_main.cpp:52 | the entry1 text row with format "%s", closing tag `,\n`, level 1 |
| JsonWriterMain.Row2 | json_writer_main.cpp:53 | the entry2 text row, default format |
| JsonWriterMain.Row3 | json_writer_main.cpp:54 | the entry3 text row, default format |
| JsonWriterMain.Row4 | json_writer_main.cpp:55 | the entry4 text row, default format |
| JsonWriterMain.Row5 | json_writer_main.cpp:56 | the opening tag `"entry5": {` at level 1 |
| JsonWriterMain.Row6 | json_writer_main.cpp:58 | the entry6 number row with format "%d", level 2 |
| JsonWriterMain.Row7 | json_writer_main.cpp:59 | the entry7 number row, default format, closing tag `\n` |
| JsonWriterMain.Row8 | json_writer_main.cpp:61 | the closing `}\n` at level 1 |
| JsonWriterMain.Row9 | json_writer_main.cpp:63 | the final `}` at level 0 |
| JsonWriterMain.Row0Compacts | json_writer_main.cpp:50 | the first row compacts to `{` from 2 characters |
| JsonWriterMain.Row1Compacts | json_writer_main.cpp:52 | entry1's row compacts to `"entry1":"value",` from 15 + \|value\| characters |
| JsonWriterMain.Row2Compacts | json_writer_main.cpp:53 | entry2's row compacts to `"entry2":"value",` |
| JsonWriterMain.Row3Compacts | json_writer_main.cpp:54 | entry3's row compacts to `"entry3":"value",` |
| JsonWriterMain.Row4Compacts | json_writer_main.cpp:55 | entry4's row compacts to `"entry4":"value",` |
| JsonWriterMain.Row5Compacts | json_writer_main.cpp:56 | entry5's opening row compacts to `"entry5":{` from 13 characters |
| JsonWriterMain.Row6Compacts | json_writer_main.cpp:58 | entry6's row compacts to `"entry6":` with the digits and a comma |
| JsonWriterMain.Row7Compacts | json_writer_main.cpp:59 | entry7's row compacts to `"entry7":` with the digits |
| JsonWriterMain.Row8Compacts | json_writer_main.cpp:61 | the inner closing row compacts to `}` from 3 characters |
| JsonWriterMain.Row9Compacts | json_writer_main.cpp:63 | the last row compacts to `}` from 1 character |
| JsonWriterMain.RowAfter | json_writer_main.cpp:75-80 | a row after a prefix that leaves the flag clear compacts on its own |
| JsonWriterMain.TableCompacts | json_writer_main.cpp:48-64 | for any values whose texts survive a quoted span, the table's output compacts to its members in order with no blank outside a value, and its length is 106 plus the values' lengths |
| JsonWriterMain.Entry4Survives | json_writer_main.cpp:71 | entry4's value, with its backslash-quote pairs, goes through a quoted span unchanged; it is 56 characters |
| JsonWriterMain.PairSurvives | json_writer_main.cpp:71 | a blank-free quoted pair after a surviving text keeps the span intact |
| JsonWriterMain.CompressedB | json_writer_main.cpp:88 | compressed_string_b, the raw string literal, cut after each member |
| JsonWriterMain.CompressedBMembers | json_writer_main.cpp:88 | compressed_string_b is the table's member-by-member compaction with the values _json_example1 sets |
| JsonWriterMain.ExampleCompacts | json_writer_main.cpp:85-89 | the example table's output is 212 characters and compacts to exactly compressed_string_b |
| JsonWriterMain.RunAndRead | json_writer_main.cpp:75-86 | for any table whose text fits an empty buffer: the read-back is the table's whole output, the compressed read-back is its compaction, and the buffer keeps its block, capacity, kind and header |
| JsonWriterMain.Example1 | json_writer_main.cpp:66-89 | running the example against an empty buffer with room for 212 characters reads back the full output, and compaction in place yields compressed_string_b, so the strcmp assertion holds; the buffer keeps its block, capacity, kind and header bytes |

## Left out

- Output and scaffolding are left out: the `printf` calls, `main`, and the C++ `JSONBufferWrapper` class with its `try`/`catch` in json_writer_main.cpp. They are I/O and wrapper code.
- json_writer_main.c is not part of this model. Its table loop is the same as the one `RunTable` models.
- json_writer_main.cpp calls `json_init_buffer`, `json_get_string`, `json_get_compressed_string` and the other `json_*` wrappers, but none of json_writer.c, json_writer.h, json_writer_main.c or json_writer_main.cpp defines them. They are taken to be `alloc_json_buffer_static`, `json_handler_string_buffer` (`StringBuffer`), `json_handler_compress_in_place` (`CompressInPlace`), `alloc_json_buffer` and `destroy_json_buffer`.
- The stale prototypes of json_writer.h are not modelled. Its record shapes `json_handler_data` and `json_writer` are the datatypes `HandlerData` and `Writer`.
- `malloc` and `free` are not modelled as a heap. Whether malloc succeeds is the parameter `mallocOk` of `Alloc`, and `Destroy` reports whether `free` would be called.
- JsonWriter.JsonBuffer.Alloc: requires that `H + len` does not wrap in `size_t`, so the wrapped malloc size for a huge len is not modelled.
- The byte layout of the header inside the block is not modelled. Only its size `H` is. The allocators write the header in the source; every operation after allocation is shown to leave `buf[..H]` alone.
- One Dafny `char` stands for one C `char` (one byte). Multi-byte encodings are not modelled.
- JsonWriter.Accepts: the handlers' `assert`s on a non-empty name and closing tag (json_writer.c:111-112 and 126-127) abort the program. The model turns them into a precondition of the entry handlers and does not model the abort.
- JsonWriter.JsonBuffer.Append: once `used > len` the write lands outside the text area. The model records this as `Overrun` and does not say what memory it overwrites.
- JsonWriter.JsonBuffer.BoundedWrite models the library's bounded copy as a loop over the text area. It is not `snprintf`'s own code.
- JsonWriter.JsonBuffer.HandleEntryText: requires the format to be NULL or "%s", and HandleEntryNumber requires NULL or "%d". Custom formats need a general printf interpreter, and the example tables use only the defaults. `snprintf`'s negative error return is left out for the same reason.
- `isspace` is the C-locale set. Locale dependence is left out, and so is the undefined behaviour of passing a negative `char` to `isspace`.
- The globals `entry1_text` .. `entry4_text`, `edgelock_state` and `bootcounter` are values that the table's data fields reach. The model does not track aliasing of the globals through the data pointers.
- JsonWriterMain.Example1: starts from an empty, zero-filled buffer with room for the text, as either allocator returns one. The allocation and destruction in `main` are left out.
- JsonWriterMain.GlobalText: the value passed as `snprintf`'s format must hold no `%`. Format directives in a value are not modelled; the four values of the example hold none.
- `Entry4Value` and `CompressedB` spell the literal string values of json_writer_main.cpp:71 and 88 in pieces joined with `+`. The characters are the same.

## Findings

| source | as written | input that shows it | evidently intended | confidence | as-written member | corrected member |
|---|---|---|---|---|---|---|
| json_writer.c:50-55 | `alloc_json_buffer_static(len, buf)` puts the header at the start of the caller's `len`-byte region but records `p->len = len`, so the `memset` of `p->len` bytes from `p->buf` runs H bytes past the region | the 1024-byte static buffer of json_writer_main.cpp: the text area holds 992 bytes, yet 1024 are zeroed and later appends may write up to byte 1056 | a capacity of `len - sizeof(json_buffer)`, the bytes that follow the header | not executed | JsonWriter.StaticCapacityOverrunsRegion | JsonWriter.JsonBuffer.AllocStatic |
