/** The whitespace compactor of json_handler_compress_in_place as a function
    on strings, and what it guarantees.

    The compactor keeps one bit, `string_found`, that every '"' flips; the flip
    happens before the character is judged, so an opening quote is already
    "inside". A character is copied when the bit is set or when it is not
    whitespace. There is no escape state: a backslash is an ordinary character
    and the quote after it flips the bit like any other. */
module Compaction {
  import opened CText

  /** `string_found` after scanning `s` with the bit starting at `p`. */
  function QuoteParity(p: bool, s: string): bool
  {
    if s == [] then p else QuoteParity(p, s[..|s| - 1]) != (s[|s| - 1] == '"')
  }

  /** The characters the compactor writes while reading `s`, starting with the
      bit at `p`. The write cursor never passes the read cursor. */
  function CompactFrom(p: bool, s: string): (r: string)
    ensures |r| <= |s|
  {
    if s == [] then []
    else
      var c := s[|s| - 1];
      CompactFrom(p, s[..|s| - 1]) + (if QuoteParity(p, s) || !IsSpace(c) then [c] else [])
  }

  /** The compaction of a whole NUL-terminated text: the bit starts clear. */
  function Compact(s: string): (r: string)
    ensures |r| <= |s|
  {
    CompactFrom(false, s)
  }

  /** Reference: `s` with every whitespace character removed. */
  function StripBlanks(s: string): string
  {
    if s == [] then [] else StripBlanks(s[..|s| - 1]) + (if IsSpace(s[|s| - 1]) then [] else [s[|s| - 1]])
  }

  /** Number of '"' characters in `s`. */
  function Quotes(s: string): nat
  {
    multiset(s)['"']
  }

  // ----- one more character -----

  lemma ParitySnoc(p: bool, s: string, c: char)
    ensures QuoteParity(p, s + [c]) == (QuoteParity(p, s) != (c == '"'))
  {
    assert (s + [c])[..|s|] == s;
  }

  /** The loop body of the compactor: after a prefix, the next character is
      copied exactly when the bit (already flipped by it, if it is a quote) is
      set or it is not whitespace. */
  lemma CompactSnoc(p: bool, s: string, c: char)
    ensures CompactFrom(p, s + [c])
         == CompactFrom(p, s) + (if QuoteParity(p, s + [c]) || !IsSpace(c) then [c] else [])
  {
    assert (s + [c])[..|s|] == s;
  }

  lemma StripSnoc(s: string, c: char)
    ensures StripBlanks(s + [c]) == StripBlanks(s) + (if IsSpace(c) then [] else [c])
  {
    assert (s + [c])[..|s|] == s;
  }

  /** Nothing is written that was not read. */
  lemma {:induction false} CompactFromChars(p: bool, s: string, x: char)
    requires x in CompactFrom(p, s)
    ensures x in s
    decreases |s|
  {
    var s', c := s[..|s| - 1], s[|s| - 1];
    assert s == s' + [c];
    if x in CompactFrom(p, s') {
      CompactFromChars(p, s', x);
    }
  }

  // ----- the bit -----

  /** The bit is the parity of the number of quotes read. */
  lemma {:induction false} QuoteParityCounts(p: bool, s: string)
    ensures QuoteParity(p, s) == (p != (Quotes(s) % 2 == 1))
  {
    if s != [] {
      var s', c := s[..|s| - 1], s[|s| - 1];
      assert s == s' + [c];
      QuoteParityCounts(p, s');
      ParitySnoc(p, s', c);
      assert multiset(s) == multiset(s') + multiset([c]);
    }
  }

  lemma {:induction false} ParityAppend(p: bool, a: string, b: string)
    ensures QuoteParity(p, a + b) == QuoteParity(QuoteParity(p, a), b)
    decreases |b|
  {
    if b == [] {
      assert a + b == a;
    } else {
      var b', c := b[..|b| - 1], b[|b| - 1];
      assert b == b' + [c];
      assert a + b == (a + b') + [c];
      ParityAppend(p, a, b');
      ParitySnoc(p, a + b', c);
      ParitySnoc(QuoteParity(p, a), b', c);
    }
  }

  /** A text without quotes leaves the bit as it found it. */
  lemma {:induction false} QuoteFreeParity(p: bool, s: string)
    requires '"' !in s
    ensures QuoteParity(p, s) == p
    decreases |s|
  {
    if s != [] {
      var s', c := s[..|s| - 1], s[|s| - 1];
      assert s == s' + [c];
      assert c in s;
      assert '"' !in s' by {
        forall i | 0 <= i < |s'| ensures s'[i] != '"' { assert s[i] in s; }
      }
      QuoteFreeParity(p, s');
      ParitySnoc(p, s', c);
    }
  }

  // ----- concatenation -----

  /** Compaction works piecewise: the second part is compacted starting from
      the bit the first part leaves behind. */
  lemma AppendAssoc<T>(x: seq<T>, y: seq<T>, z: seq<T>)
    ensures (x + y) + z == x + (y + z)
  {
  }

  lemma {:induction false} CompactAppend(p: bool, a: string, b: string)
    ensures CompactFrom(p, a + b) == CompactFrom(p, a) + CompactFrom(QuoteParity(p, a), b)
    decreases |b|
  {
    if b == [] {
      assert a + b == a;
    } else {
      var b', c := b[..|b| - 1], b[|b| - 1];
      var q := QuoteParity(p, a);
      assert b == b' + [c];
      assert a + b == (a + b') + [c];
      CompactAppend(p, a, b');
      ParityAppend(p, a, b);
      var k := if QuoteParity(p, a + b) || !IsSpace(c) then [c] else [];
      CompactSnoc(p, a + b', c);
      assert CompactFrom(p, a + b) == CompactFrom(p, a + b') + k;
      CompactSnoc(q, b', c);
      assert CompactFrom(q, b) == CompactFrom(q, b') + k;
      AppendAssoc(CompactFrom(p, a), CompactFrom(q, b'), k);
    }
  }

  lemma {:induction false} StripAppend(a: string, b: string)
    ensures StripBlanks(a + b) == StripBlanks(a) + StripBlanks(b)
    decreases |b|
  {
    if b == [] {
      assert a + b == a;
    } else {
      var b', c := b[..|b| - 1], b[|b| - 1];
      assert b == b' + [c];
      assert a + b == (a + b') + [c];
      StripAppend(a, b');
      var k := if IsSpace(c) then [] else [c];
      StripSnoc(a + b', c);
      assert StripBlanks(a + b) == StripBlanks(a + b') + k;
      StripSnoc(b', c);
      assert StripBlanks(b) == StripBlanks(b') + k;
      AppendAssoc(StripBlanks(a), StripBlanks(b'), k);
    }
  }

  /** A text without whitespace is its own StripBlanks. */
  lemma {:induction false} StripNoBlanks(s: string)
    requires forall i :: 0 <= i < |s| ==> !IsSpace(s[i])
    ensures StripBlanks(s) == s
    decreases |s|
  {
    if s != [] {
      var s', c := s[..|s| - 1], s[|s| - 1];
      assert s == s' + [c];
      StripNoBlanks(s');
      StripSnoc(s', c);
    }
  }

  /** A text of whitespace only strips to nothing. */
  lemma {:induction false} StripAllBlanks(s: string)
    requires forall i :: 0 <= i < |s| ==> IsSpace(s[i])
    ensures StripBlanks(s) == []
    decreases |s|
  {
    if s != [] {
      var s', c := s[..|s| - 1], s[|s| - 1];
      assert s == s' + [c];
      StripAllBlanks(s');
      StripSnoc(s', c);
    }
  }

  /** A text that leaves the bit clear compacts independently of what follows. */
  lemma CompactBalanced(x: string, y: string)
    requires !QuoteParity(false, x)
    ensures Compact(x + y) == Compact(x) + Compact(y)
    ensures QuoteParity(false, x + y) == QuoteParity(false, y)
  {
    CompactAppend(false, x, y);
    ParityAppend(false, x, y);
  }

  // ----- what is kept and what is dropped -----

  /** Outside a quoted span, a quote-free text loses exactly its whitespace. */
  lemma {:induction false} CompactOutsideQuotes(s: string)
    requires '"' !in s
    ensures CompactFrom(false, s) == StripBlanks(s)
    decreases |s|
  {
    if s != [] {
      var s', c := s[..|s| - 1], s[|s| - 1];
      assert s == s' + [c];
      assert '"' !in s' by {
        forall i | 0 <= i < |s'| ensures s'[i] != '"' { assert s[i] in s; }
      }
      CompactOutsideQuotes(s');
      CompactSnoc(false, s', c);
      StripSnoc(s', c);
      QuoteFreeParity(false, s);
    }
  }

  /** Inside a quoted span, a quote-free text is copied verbatim, whitespace included. */
  lemma {:induction false} CompactInsideQuotes(s: string)
    requires '"' !in s
    ensures CompactFrom(true, s) == s
    decreases |s|
  {
    if s != [] {
      var s', c := s[..|s| - 1], s[|s| - 1];
      assert s == s' + [c];
      assert '"' !in s' by {
        forall i | 0 <= i < |s'| ensures s'[i] != '"' { assert s[i] in s; }
      }
      CompactInsideQuotes(s');
      CompactSnoc(true, s', c);
      QuoteFreeParity(true, s);
    }
  }

  /** A quote is always copied and flips the bit. */
  lemma CompactQuote(p: bool)
    ensures CompactFrom(p, "\"") == "\"" && QuoteParity(p, "\"") == !p
  {
    CompactSnoc(p, [], '"');
    ParitySnoc(p, [], '"');
    assert [] + ['"'] == "\"";
  }

  /** Every character strictly between an opening quote and the next quote is
      kept byte for byte, and what lies around is compacted on its own. */
  lemma QuotedSpanVerbatim(a: string, b: string, c: string)
    requires !QuoteParity(false, a)
    requires '"' !in b
    ensures Compact(a + "\"" + b + "\"" + c) == Compact(a) + "\"" + b + "\"" + Compact(c)
  {
    var q := "\"";
    CompactQuote(false);
    CompactQuote(true);
    QuoteFreeParity(true, b);
    CompactInsideQuotes(b);
    CompactAppend(false, a, q);
    ParityAppend(false, a, q);
    CompactAppend(false, a + q, b);
    ParityAppend(false, a + q, b);
    CompactAppend(false, a + q + b, q);
    ParityAppend(false, a + q + b, q);
    CompactAppend(false, a + q + b + q, c);
  }

  /** Every quote is copied, so the compacted text has the same quote parity. */
  lemma {:induction false} CompactKeepsParity(p: bool, s: string)
    ensures QuoteParity(p, CompactFrom(p, s)) == QuoteParity(p, s)
    decreases |s|
  {
    if s != [] {
      var s', c := s[..|s| - 1], s[|s| - 1];
      assert s == s' + [c];
      var r' := CompactFrom(p, s');
      CompactKeepsParity(p, s');
      CompactSnoc(p, s', c);
      ParitySnoc(p, s', c);
      if QuoteParity(p, s) || !IsSpace(c) {
        ParitySnoc(p, r', c);
        assert CompactFrom(p, s) == r' + [c];
      } else {
        assert CompactFrom(p, s) == r' + [];
        assert r' + [] == r';
      }
    }
  }

  /** Every quote is copied: the quote count is unchanged. */
  lemma {:induction false} CompactKeepsQuotes(p: bool, s: string)
    ensures Quotes(CompactFrom(p, s)) == Quotes(s)
    decreases |s|
  {
    if s != [] {
      var s', c := s[..|s| - 1], s[|s| - 1];
      assert s == s' + [c];
      CompactKeepsQuotes(p, s');
      CompactSnoc(p, s', c);
      var r' := CompactFrom(p, s');
      var k := if QuoteParity(p, s) || !IsSpace(c) then [c] else [];
      assert multiset(s) == multiset(s') + multiset([c]);
      assert multiset(r' + k) == multiset(r') + multiset(k);
    }
  }

  /** Only whitespace is removed: the non-whitespace characters come out in
      the same order, none lost and none added. */
  lemma {:induction false} CompactKeepsNonBlanks(p: bool, s: string)
    ensures StripBlanks(CompactFrom(p, s)) == StripBlanks(s)
    decreases |s|
  {
    if s != [] {
      var s', c := s[..|s| - 1], s[|s| - 1];
      assert s == s' + [c];
      CompactKeepsNonBlanks(p, s');
      CompactSnoc(p, s', c);
      StripSnoc(s', c);
      var r' := CompactFrom(p, s');
      if QuoteParity(p, s) || !IsSpace(c) {
        assert CompactFrom(p, s) == r' + [c];
        StripSnoc(r', c);
      } else {
        assert CompactFrom(p, s) == r' + [];
        assert r' + [] == r';
      }
    }
  }

  /** Every whitespace character left in the output sits inside a quoted span
      of the output (the bit is set when it is read). */
  lemma {:induction false} CompactLeavesOnlyQuotedBlanks(p: bool, s: string)
    ensures var r := CompactFrom(p, s);
      forall i :: 0 <= i < |r| && IsSpace(r[i]) ==> QuoteParity(p, r[..i + 1])
    decreases |s|
  {
    if s != [] {
      var s', c := s[..|s| - 1], s[|s| - 1];
      assert s == s' + [c];
      CompactLeavesOnlyQuotedBlanks(p, s');
      CompactSnoc(p, s', c);
      var r' := CompactFrom(p, s');
      var r := CompactFrom(p, s);
      forall i | 0 <= i < |r| && IsSpace(r[i]) ensures QuoteParity(p, r[..i + 1]) {
        if i < |r'| {
          assert r[..i + 1] == r'[..i + 1];
        } else {
          assert r[..i + 1] == r' + [c];
          ParitySnoc(p, r', c);
          ParitySnoc(p, s', c);
          CompactKeepsParity(p, s');
        }
      }
    }
  }

  /** A second pass removes nothing. */
  lemma {:induction false} CompactFromIdempotent(p: bool, s: string)
    ensures CompactFrom(p, CompactFrom(p, s)) == CompactFrom(p, s)
    decreases |s|
  {
    if s != [] {
      var s', c := s[..|s| - 1], s[|s| - 1];
      assert s == s' + [c];
      var r' := CompactFrom(p, s');
      CompactFromIdempotent(p, s');
      CompactSnoc(p, s', c);
      if QuoteParity(p, s) || !IsSpace(c) {
        assert CompactFrom(p, s) == r' + [c];
        CompactSnoc(p, r', c);
        ParitySnoc(p, r', c);
        ParitySnoc(p, s', c);
        CompactKeepsParity(p, s');
      } else {
        assert CompactFrom(p, s) == r' + [];
        assert r' + [] == r';
      }
    }
  }

  /** Compaction is idempotent. */
  lemma CompactIdempotent(s: string)
    ensures Compact(Compact(s)) == Compact(s)
  {
    CompactFromIdempotent(false, s);
  }

  /** Every quote toggles the span, whatever precedes it: after `"a"`, the
      text up to the next quote is outside any span and loses its blanks. */
  lemma {:induction false} SecondQuoteClosesSpan(a: string, b: string)
    requires '"' !in a && '"' !in b
    ensures Compact("\"" + a + "\"" + b + "\"") == "\"" + a + "\"" + StripBlanks(b) + "\""
  {
    var q := "\"";
    CompactQuote(false);
    CompactQuote(true);
    CompactInsideQuotes(a);
    QuoteFreeParity(true, a);
    CompactAppend(false, q, a);
    ParityAppend(false, q, a);
    var x := q + a;
    CompactAppend(false, x, q);
    ParityAppend(false, x, q);
    var y := x + q;
    CompactOutsideQuotes(b);
    QuoteFreeParity(false, b);
    CompactAppend(false, y, b);
    ParityAppend(false, y, b);
    var z := y + b;
    CompactAppend(false, z, q);
  }

  /** With no escape state, the quote after a backslash ends the span: the
      space after `\"` inside what JSON reads as one string value is dropped. */
  lemma EscapedQuoteEndsSpan()
    ensures Compact("\"a\\\" b\"") == "\"a\\\"b\""
  {
    var a, b := "a\\", " b";
    assert StripBlanks(b) == "b" by {
      StripSnoc([], ' ');
      StripSnoc(" ", 'b');
      assert [] + [' '] == " " && " " + ['b'] == b;
    }
    SecondQuoteClosesSpan(a, b);
    assert "\"a\\\" b\"" == "\"" + a + "\"" + b + "\"";
    assert "\"a\\\"b\"" == "\"" + a + "\"" + "b" + "\"";
  }
}
