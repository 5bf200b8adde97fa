/** The pieces of the C library that json_writer.c leans on, stated as values:
    NUL-terminated strings, C-locale isspace, the bounded write of snprintf
    and the decimal rendering of "%d". */
module CText {

  const NUL: char := '\0'

  /** A C string: a character sequence that cannot contain its own terminator. */
  type CString = s: string | NUL !in s witness ""

  const INT_MIN: int := -0x8000_0000
  const INT_MAX: int := 0x7FFF_FFFF

  /** The C `int` (32 bits on every platform the program targets). */
  type Int32 = n: int | INT_MIN <= n <= INT_MAX

  /** `isspace` in the C locale: space, \t, \n, \v, \f and \r. */
  predicate IsSpace(c: char) {
    c == ' ' || c == '\t' || c == '\n' || c == '\U{B}' || c == '\U{C}' || c == '\r'
  }

  /** `n` zero bytes, as memset(.., 0, n) leaves them. */
  function Zeros(n: nat): (z: seq<char>)
    ensures |z| == n
    ensures forall i :: 0 <= i < n ==> z[i] == NUL
  {
    seq(n, _ => NUL)
  }

  /** Offset of the first NUL in `s`, or |s| when there is none. */
  function NulIndex(s: seq<char>): (k: nat)
    ensures k <= |s|
    ensures forall i :: 0 <= i < k ==> s[i] != NUL
    ensures k < |s| ==> s[k] == NUL
    ensures k == |s| <==> NUL !in s
  {
    if s == [] then 0
    else if s[0] == NUL then 0
    else 1 + NulIndex(s[1..])
  }

  /** The C string that starts at the beginning of `s`: what a reader that
      stops at the first NUL sees (the text `char *` view of a buffer). */
  function CStr(s: seq<char>): (r: CString)
    ensures |r| <= |s| && r == s[..|r|]
    ensures |r| < |s| ==> s[|r|] == NUL
  {
    s[..NulIndex(s)]
  }

  /** A string with no NUL reads back unchanged, whatever follows its terminator. */
  lemma {:induction false} CStrOfTerminated(t: string, rest: seq<char>)
    requires NUL !in t
    requires rest != [] && rest[0] == NUL
    ensures CStr(t + rest) == t
  {
    assert (t + rest)[|t|] == NUL;
    assert forall i :: 0 <= i < |t| ==> (t + rest)[i] == t[i];
  }

  /** `snprintf(area + at, |area| - at, "%s", frag)` for an offset that is
      still inside the area or at its end: with room n = |area| - at > 0 it
      writes min(|frag|, n - 1) characters then a NUL; with no room it writes
      nothing. Bytes outside [at, |area|) are never touched. */
  function Snprintf(area: seq<char>, at: nat, frag: string): (r: seq<char>)
    requires at <= |area|
    ensures |r| == |area|
    ensures r[..at] == area[..at]
  {
    if at == |area| then area
    else
      var n := if |frag| < |area| - at then |frag| else |area| - at - 1;
      area[..at] + frag[..n] + [NUL] + area[at + n + 1..]
  }

  /** When the fragment fits with its terminator, the area holds the earlier
      bytes, exactly the fragment, then a NUL, and nothing else changes. */
  lemma SnprintfFits(area: seq<char>, at: nat, frag: string)
    requires at + |frag| < |area|
    ensures Snprintf(area, at, frag) == area[..at] + frag + [NUL] + area[at + |frag| + 1..]
  {
    assert frag[..|frag|] == frag;
  }

  /** When it does not fit, the write keeps |area| - at - 1 characters of it
      and puts the NUL in the last byte of the area. */
  lemma SnprintfTruncates(area: seq<char>, at: nat, frag: string)
    requires at < |area| <= at + |frag|
    ensures Snprintf(area, at, frag) == area[..at] + frag[..|area| - at - 1] + [NUL]
  {
    var r := Snprintf(area, at, frag);
    assert area[at + (|area| - at - 1) + 1..] == [];
  }

  /** What a zero-filled area of `len` bytes holds after bounded writes of a
      text of total would-be length |t|: the whole text and zeros when it
      fits, else its first len - 1 characters and a final NUL. */
  function Stored(t: string, len: nat): (a: seq<char>)
    ensures |a| == len
  {
    if |t| < len then t + Zeros(len - |t|)
    else if len == 0 then []
    else t[..len - 1] + [NUL]
  }

  /** One more bounded write at offset |t| turns the stored form of `t` into
      the stored form of `t + frag`, as long as the offset is within the area. */
  lemma SnprintfStored(t: string, len: nat, frag: string)
    requires |t| <= len
    ensures Snprintf(Stored(t, len), |t|, frag) == Stored(t + frag, len)
  {
    var area := Stored(t, len);
    var tf := t + frag;
    if |t| == len {
      if len > 0 {
        assert tf[..len - 1] == t[..len - 1];
      }
    } else if |tf| < len {
      SnprintfFits(area, |t|, frag);
      assert area[..|t|] == t;
      assert Snprintf(area, |t|, frag) == tf + Zeros(len - |tf|);
    } else {
      SnprintfTruncates(area, |t|, frag);
      assert area[..|t|] == t;
      assert tf[..len - 1] == t + frag[..len - |t| - 1];
    }
  }

  /** The string a reader sees in the stored form: the text itself when it
      fits, else the text cut to len - 1 characters. */
  lemma StoredString(t: string, len: nat)
    requires NUL !in t
    ensures len > 0 <==> NUL in Stored(t, len)
    ensures CStr(Stored(t, len)) == if |t| < len then t else if len == 0 then [] else t[..len - 1]
  {
    var a := Stored(t, len);
    if |t| < len {
      assert a[|t|] == NUL;
      CStrOfTerminated(t, Zeros(len - |t|));
    } else if len > 0 {
      assert a[len - 1] == NUL;
      assert NUL !in t[..len - 1] by {
        forall i | 0 <= i < len - 1 ensures t[i] != NUL {
          assert t[i] in t;
        }
      }
      CStrOfTerminated(t[..len - 1], [NUL]);
    }
  }

  /** `snprintf(dst, n, s)` into a zero-filled char[n], with a format `s`
      that holds no `%` and so prints as it is, read back as a C string: the
      value, cut to n - 1 characters. */
  lemma {:induction false} SnprintfString(n: nat, s: CString)
    requires n > 0 && '%' !in s
    ensures CStr(Snprintf(Zeros(n), 0, s)) == if |s| < n then s else s[..n - 1]
  {
    assert Stored([], n) == Zeros(n);
    SnprintfStored([], n, s);
    assert [] + s == s;
    StoredString(s, n);
  }

  /** Digit character for 0..9. */
  function DigitChar(d: nat): (c: char)
    requires d < 10
    ensures '0' <= c <= '9'
  {
    "0123456789"[d]
  }

  /** The decimal digits of a natural number, most significant first. */
  function Digits(n: nat): (s: string)
    ensures |s| > 0
    ensures forall i :: 0 <= i < |s| ==> '0' <= s[i] <= '9'
  {
    if n < 10 then [DigitChar(n)] else Digits(n / 10) + [DigitChar(n % 10)]
  }

  /** `printf("%d", n)`: an optional minus sign followed by the digits. */
  function Decimal(n: int): (s: CString)
    ensures forall i :: 0 <= i < |s| ==> s[i] == '-' || '0' <= s[i] <= '9'
  {
    if n < 0 then "-" + Digits(-n) else Digits(n)
  }

  /** The value of a string of decimal digits. */
  function DigitsValue(s: string): int
  {
    if s == [] then 0 else 10 * DigitsValue(s[..|s| - 1]) + (s[|s| - 1] as int - '0' as int)
  }

  /** Reads back what Decimal writes: an optional minus sign, then digits. */
  function ParseDecimal(s: string): int
  {
    if s != [] && s[0] == '-' then -DigitsValue(s[1..]) else DigitsValue(s)
  }

  lemma {:induction false} DigitsRoundTrip(n: nat)
    ensures DigitsValue(Digits(n)) == n
  {
    var s := Digits(n);
    if n >= 10 {
      DigitsRoundTrip(n / 10);
      assert s[..|s| - 1] == Digits(n / 10);
    }
  }

  /** Decimal output parses back to the integer it came from. */
  lemma DecimalRoundTrip(n: int)
    ensures ParseDecimal(Decimal(n)) == n
  {
    if n < 0 {
      DigitsRoundTrip(-n);
      assert Decimal(n)[1..] == Digits(-n);
    } else {
      DigitsRoundTrip(n);
    }
  }

  /** Only zero is written with a leading '0'. */
  lemma {:induction false} DigitsNoLeadingZero(n: nat)
    ensures Digits(n)[0] != '0' || n == 0
    ensures |Digits(n)| > 1 ==> n >= 10
  {
    if n >= 10 {
      DigitsNoLeadingZero(n / 10);
      assert Digits(n)[0] == Digits(n / 10)[0];
    }
  }

  /** Decimal writes the canonical form: a minus sign exactly for negative
      numbers, then the digits with no leading zero (0 itself is "0"). */
  lemma DecimalCanonical(n: int)
    ensures |Decimal(n)| > 0 && (Decimal(n)[0] == '-' <==> n < 0)
    ensures var d := if n < 0 then Decimal(n)[1..] else Decimal(n);
      && |d| > 0 && (forall i :: 0 <= i < |d| ==> '0' <= d[i] <= '9')
      && (|d| > 1 ==> d[0] != '0') && (d == "0" <==> n == 0)
  {
    if n < 0 {
      assert Decimal(n)[1..] == Digits(-n);
      DigitsNoLeadingZero(-n);
    } else {
      DigitsNoLeadingZero(n);
    }
  }

  /** The rendering of INT_MIN, the value an entry with no number shows. */
  lemma DecimalIntMin()
    ensures Decimal(INT_MIN) == "-2147483648"
  {
    assert -INT_MIN == 2147483648;
    assert Decimal(INT_MIN) == "-" + Digits(2147483648);
    DigitsOf2147483648();
  }

  lemma DigitsOf2147483648()
    ensures Digits(2147483648) == "2147483648"
  {
    DigitsOf21474836();
    assert Digits(214748364) == Digits(21474836) + [DigitChar(4)];
    assert Digits(2147483648) == Digits(214748364) + [DigitChar(8)];
  }

  lemma DigitsOf21474836()
    ensures Digits(21474836) == "21474836"
  {
    DigitsOf214748();
    assert Digits(2147483) == Digits(214748) + [DigitChar(3)];
    assert Digits(21474836) == Digits(2147483) + [DigitChar(6)];
  }

  lemma DigitsOf214748()
    ensures Digits(214748) == "214748"
  {
    DigitsOf2147();
    assert Digits(21474) == Digits(2147) + [DigitChar(4)];
    assert Digits(214748) == Digits(21474) + [DigitChar(8)];
  }

  lemma DigitsOf2147()
    ensures Digits(2147) == "2147"
  {
    assert Digits(21) == Digits(2) + [DigitChar(1)];
    assert Digits(214) == Digits(21) + [DigitChar(4)];
    assert Digits(2147) == Digits(214) + [DigitChar(7)];
  }
}
