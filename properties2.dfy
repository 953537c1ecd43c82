/**
 * What the readers and the dispatcher of yscanf2.h promise, stated over the
 * functions of Grammar2: printed numerals read back and the byte after them
 * is consumed, the saturating readers clamp, the overflow test has a blind
 * spot, and yscanf counts every conversion it recognises.
 */
module Properties2 {
  import opened Bytes
  import opened Numerals
  import opened Format
  import opened Grammar2

  /** Blanks, then a byte that is no blank: the skip stops at that byte, and no EOF mark is used up. */
  lemma SkipBlanks2(ws: seq<symbol>, t: seq<symbol>)
    requires AllBlank(ws) && t != [] && t[0] != EOF && !IsSpace(t[0])
    ensures AfterBlanks(ws + t) == t
  {
    SkipBlanks(ws, t);
  }

  /** The digit loop over a printed numeral: the checked accumulation, with the separator consumed. */
  lemma NumeralDigits(n: nat, sep: byte, rest: seq<symbol>, w: Width)
    requires !IsDigit(sep)
    ensures var c := Checked(Digits(n), 0, w); Numeral(Digits(n) + [sep] + rest, w) == Parsed(c.0, c.1, rest)
  {
    var ds := Digits(n);
    var u := ds + ([sep] + rest);
    assert ds + [sep] + rest == u;
    DigitsRun(ds, [sep] + rest);
    assert u[0] == ds[0];
    assert Drop(u, |ds| + 1) == rest;
  }

  /** How printf("%lld") begins: a '-' exactly for a negative value, then the digits of its magnitude. */
  lemma DecimalSign(v: int, sep: byte, rest: seq<symbol>)
    ensures var t := Decimal(v) + [sep] + rest; var p := if v < 0 then 1 else 0;
      t != [] && t[0] != EOF && !IsSpace(t[0]) && (IsSign(t[0]) <==> v < 0)
      && SignOf(t[0]) == (if v < 0 then -1 else 1) && t[p..] == Digits(if v < 0 then -v else v) + [sep] + rest
  {
    var t := Decimal(v) + [sep] + rest;
    if v < 0 {
      var d := Digits(-v) + [sep] + rest;
      assert t == [MINUS] + d;
      assert t[0] == MINUS && t[1..] == d;
    } else {
      assert t[0] == Digits(v)[0] && IsDigit(t[0]);
      assert t[0..] == t;
    }
  }

  /** The signed numeral of a printed value: the checked accumulation of its digits, with the sign applied. */
  lemma SignedNumeralDecimal(v: int, sep: byte, rest: seq<symbol>)
    requires !IsDigit(sep)
    ensures var c := Checked(Digits(if v < 0 then -v else v), 0, Int64);
      SignedNumeral(Decimal(v) + [sep] + rest) == Parsed(if v < 0 then -c.0 else c.0, c.1, rest)
  {
    DecimalSign(v, sep, rest);
    NumeralDigits(if v < 0 then -v else v, sep, rest, Int64);
  }

  /** yparse_int on a printed value after blanks. */
  lemma SignedDecimal(ws: seq<symbol>, v: int, sep: byte, rest: seq<symbol>)
    requires AllBlank(ws) && !IsDigit(sep)
    ensures var c := Checked(Digits(if v < 0 then -v else v), 0, Int64);
      ParsedSigned(ws + Decimal(v) + [sep] + rest) == Parsed(if v < 0 then -c.0 else c.0, c.1, rest)
  {
    var t := Decimal(v) + [sep] + rest;
    assert ws + Decimal(v) + [sep] + rest == ws + t;
    DecimalSign(v, sep, rest);
    SkipBlanks2(ws, t);
    SignedNumeralDecimal(v, sep, rest);
  }

  /** yparse_uint on a printed value: the checked accumulation of its digits. */
  lemma UnsignedDigits(ws: seq<symbol>, n: nat, sep: byte, rest: seq<symbol>)
    requires AllBlank(ws) && !IsDigit(sep)
    ensures var c := Checked(Digits(n), 0, UInt64);
      ParsedUnsigned(ws + Digits(n) + [sep] + rest) == Parsed(c.0, c.1, rest)
  {
    var t := Digits(n) + [sep] + rest;
    assert ws + Digits(n) + [sep] + rest == ws + t;
    assert t[0] == Digits(n)[0];
    SkipBlanks2(ws, t);
    NumeralDigits(n, sep, rest, UInt64);
  }

  /**
   * yparse_int and yread_ll read back every printed long long but LLONG_MIN,
   * with the flag down; the separator after the digits is consumed.
   */
  lemma SignedRoundTrip2(ws: seq<symbol>, v: int, sep: byte, rest: seq<symbol>)
    requires AllBlank(ws) && !IsDigit(sep) && INT64_MIN < v <= INT64_MAX
    ensures ParsedSigned(ws + Decimal(v) + [sep] + rest) == Parsed(v, false, rest)
    ensures SaturatedLong(ws + Decimal(v) + [sep] + rest) == Taken(v, rest)
  {
    var n := if v < 0 then -v else v;
    SignedDecimal(ws, v, sep, rest);
    CheckedExact(Digits(n), 0, Int64);
  }

  /** The check of yparse_int on the digits of `n`: exact up to INT32_MAX, and past it the flag is up or the kept value is too. */
  lemma CheckedAtIntBound(ds: seq<int>, n: nat)
    requires AllDigits(ds) && Horner(ds, 0) == n
    ensures n <= INT32_MAX ==> Checked(ds, 0, Int64) == (n, false)
    ensures n > INT32_MAX ==> Checked(ds, 0, Int64).0 > 0 && (Checked(ds, 0, Int64).1 || Checked(ds, 0, Int64).0 > INT32_MAX)
  {
    if n <= INT32_MAX {
      CheckedExact(ds, 0, Int64);
    } else {
      CheckedPasses(ds, 0, Int64, INT32_MAX);
      CheckedBounds(ds, 0, Int64);
    }
  }

  /** The saturation of yread_int on a checked magnitude `c` of `v`, as CheckedAtIntBound describes it, is `v` clamped into int. */
  lemma ClampedInt(v: int, c: (int, bool))
    requires var n := if v < 0 then -v else v;
      (n <= INT32_MAX ==> c == (n, false)) && (n > INT32_MAX ==> c.0 > 0 && (c.1 || c.0 > INT32_MAX))
    ensures var x := if v < 0 then -c.0 else c.0;
      (if c.1 || x > INT32_MAX || x < INT32_MIN then (if x > 0 then INT32_MAX else INT32_MIN) else x)
      == (if v > INT32_MAX then INT32_MAX else if v < INT32_MIN then INT32_MIN else v)
  {
  }

  /** yread_int on a printed value: the checked accumulation of its digits, clamped by the flag and the range of int. */
  lemma SaturatedDecimal(ws: seq<symbol>, v: int, sep: byte, rest: seq<symbol>)
    requires AllBlank(ws) && !IsDigit(sep)
    ensures var c := Checked(Digits(if v < 0 then -v else v), 0, Int64); var x := if v < 0 then -c.0 else c.0;
      SaturatedInt(ws + Decimal(v) + [sep] + rest)
      == Taken(if c.1 || x > INT32_MAX || x < INT32_MIN then (if x > 0 then INT32_MAX else INT32_MIN) else x, rest)
  {
    SignedDecimal(ws, v, sep, rest);
  }

  /** yread_int clamps every printed value, however long, into the range of int. */
  lemma IntClamps(ws: seq<symbol>, v: int, sep: byte, rest: seq<symbol>)
    requires AllBlank(ws) && !IsDigit(sep)
    ensures SaturatedInt(ws + Decimal(v) + [sep] + rest)
      == Taken(if v > INT32_MAX then INT32_MAX else if v < INT32_MIN then INT32_MIN else v, rest)
  {
    var n := if v < 0 then -v else v;
    var ds := Digits(n);
    assert Horner(ds, 0) == n;
    CheckedAtIntBound(ds, n);
    ClampedInt(v, Checked(ds, 0, Int64));
    SaturatedDecimal(ws, v, sep, rest);
  }

  /** yparse_uint and yread_ull read back every printed unsigned long long, with the flag down. */
  lemma UnsignedRoundTrip2(ws: seq<symbol>, n: nat, sep: byte, rest: seq<symbol>)
    requires AllBlank(ws) && !IsDigit(sep) && n <= UINT64_MAX
    ensures ParsedUnsigned(ws + Digits(n) + [sep] + rest) == Parsed(n, false, rest)
    ensures SaturatedULong(ws + Digits(n) + [sep] + rest) == Taken(n, rest)
  {
    UnsignedDigits(ws, n, sep, rest);
    CheckedExact(Digits(n), 0, UInt64);
  }

  /** yread_uint clamps every printed value, however long, to at most UINT32_MAX. */
  lemma UIntClamps(ws: seq<symbol>, n: nat, sep: byte, rest: seq<symbol>)
    requires AllBlank(ws) && !IsDigit(sep)
    ensures SaturatedUInt(ws + Digits(n) + [sep] + rest) == Taken(if n > UINT32_MAX then UINT32_MAX else n, rest)
  {
    UnsignedDigits(ws, n, sep, rest);
    if n <= UINT32_MAX {
      CheckedExact(Digits(n), 0, UInt64);
    } else {
      CheckedPasses(Digits(n), 0, UInt64, UINT32_MAX);
    }
  }

  /** A single '0' after the kept value `x`: the step wraps x*10 and the check passes when the wrap lands at `x` or above. */
  lemma CheckedZero(x: nat, w: Width)
    requires Wrap(x * 10, w) >= x
    ensures Checked([ZERO], x, w) == (Wrap(x * 10, w), false)
  {
    assert Push(x, ZERO, w) == Wrap(x * 10, w);
    assert [ZERO][1..] == [];
  }

  /** The numeral of x*10 is the numeral of x with a '0' appended. */
  lemma DigitsTimesTen(x: nat)
    requires 0 < x
    ensures Digits(x * 10) == Digits(x) + [ZERO]
  {
    var y := x * 10;
    TenfoldDivides(x);
    assert Digits(y) == Digits(y / 10) + [ZERO + y % 10];
  }

  /** x*10 divided by 10 is x, with no remainder. */
  lemma TenfoldDivides(x: nat)
    ensures (x * 10) / 10 == x && (x * 10) % 10 == 0
  {
  }

  /** The check on the digits of `x`, then a '0': the wrap of x*10 is not caught when it lands at `x` or above. */
  lemma ZeroAfterDigits(x: nat, w: Width)
    requires 0 < x <= Max(w) && Wrap(x * 10, w) >= x
    ensures Checked(Digits(x * 10), 0, w) == (Wrap(x * 10, w), false)
  {
    var ds := Digits(x);
    DigitsTimesTen(x);
    assert Horner(ds, 0) == x;
    CheckedAppend(ds, [ZERO], 0, w);
    CheckedZero(x, w);
  }

  /**
   * The test `next < x` misses a wrap that lands above `x`: when `x*10`
   * passes ULLONG_MAX but wraps to no less than `x` (x = 2500000000000000000
   * is one), yread_ull returns the wrapped value with the flag down.
   */
  lemma MissedOverflow(ws: seq<symbol>, x: nat, sep: byte, rest: seq<symbol>)
    requires AllBlank(ws) && !IsDigit(sep) && x <= UINT64_MAX < x * 10 && Wrap(x * 10, UInt64) >= x
    ensures SaturatedULong(ws + Digits(x * 10) + [sep] + rest) == Taken(Wrap(x * 10, UInt64), rest)
    ensures Wrap(x * 10, UInt64) != x * 10
  {
    UnsignedDigits(ws, x * 10, sep, rest);
    ZeroAfterDigits(x, UInt64);
  }

  /**
   * The same miss on the signed path: when `x*10` passes LLONG_MAX but wraps
   * to no less than `x`, yparse_int keeps the wrapped value with the flag
   * down and yread_ll returns it. x = 2500000000000000000 is one:
   * "25000000000000000000" is read as 6553255926290448384.
   */
  lemma MissedOverflowSigned(ws: seq<symbol>, x: nat, sep: byte, rest: seq<symbol>)
    requires AllBlank(ws) && !IsDigit(sep) && 0 < x <= INT64_MAX < x * 10 && Wrap(x * 10, Int64) >= x
    ensures ParsedSigned(ws + Decimal(x * 10) + [sep] + rest) == Parsed(Wrap(x * 10, Int64), false, rest)
    ensures SaturatedLong(ws + Decimal(x * 10) + [sep] + rest) == Taken(Wrap(x * 10, Int64), rest)
    ensures Wrap(x * 10, Int64) != x * 10
  {
    SignedDecimal(ws, x * 10, sep, rest);
    ZeroAfterDigits(x, Int64);
  }

  /** The check on the digits of 9223372036854775808: the last step wraps below the kept value. */
  lemma LongMinDigits(x: nat)
    requires x * 10 + 8 == -INT64_MIN
    ensures Checked(Digits(x * 10 + 8), 0, Int64) == (x, true)
  {
    DigitsSnoc(x, 8);
    CheckedAppend(Digits(x), [ZERO + 8], 0, Int64);
  }

  /**
   * "-9223372036854775808", LLONG_MIN printed, overflows on its last digit;
   * yread_ll still returns LLONG_MIN, because the kept value is negative.
   */
  lemma LongMinViaOverflow(ws: seq<symbol>, x: nat, sep: byte, rest: seq<symbol>, s: seq<symbol>)
    requires AllBlank(ws) && !IsDigit(sep) && s == ws + Decimal(-(x * 10 + 8)) + [sep] + rest
    requires -(x * 10 + 8) == INT64_MIN
    ensures ParsedSigned(s).overflow
    ensures SaturatedLong(s) == Taken(INT64_MIN, rest)
  {
    SignedDecimal(ws, -(x * 10 + 8), sep, rest);
    LongMinDigits(x);
  }

  /**
   * A byte that starts no numeral, after the blanks: yparse_int consumes it
   * and raises the flag; yread_int stores INT32_MIN.
   */
  lemma SignedMalformed(ws: seq<symbol>, c: byte, rest: seq<symbol>)
    requires AllBlank(ws) && !IsDigit(c) && !IsSign(c) && !IsSpace(c)
    ensures ParsedSigned(ws + [c] + rest) == Parsed(0, true, rest)
    ensures SaturatedInt(ws + [c] + rest) == Taken(INT32_MIN, rest)
  {
    assert ws + [c] + rest == ws + ([c] + rest);
    SkipBlanks2(ws, [c] + rest);
    assert ([c] + rest)[0..] == [c] + rest;
    assert Drop([c] + rest, 1) == rest;
  }

  /**
   * yparse_uint takes no sign: after the blanks a sign, like any byte that is
   * no digit, is consumed with the flag up, and yread_uint stores UINT32_MAX.
   */
  lemma UnsignedMalformed(ws: seq<symbol>, c: byte, rest: seq<symbol>)
    requires AllBlank(ws) && !IsDigit(c) && !IsSpace(c)
    ensures ParsedUnsigned(ws + [c] + rest) == Parsed(0, true, rest)
    ensures SaturatedUInt(ws + [c] + rest) == Taken(UINT32_MAX, rest)
  {
    assert ws + [c] + rest == ws + ([c] + rest);
    SkipBlanks2(ws, [c] + rest);
    assert Drop([c] + rest, 1) == rest;
  }

  /** A sign with no digit after it: the sign and the byte after it are consumed, with the flag up. */
  lemma SignWithoutDigit2(ws: seq<symbol>, sign: byte, c: byte, rest: seq<symbol>)
    requires AllBlank(ws) && IsSign(sign) && !IsDigit(c)
    ensures ParsedSigned(ws + [sign, c] + rest) == Parsed(0, true, rest)
  {
    assert ws + [sign, c] + rest == ws + ([sign, c] + rest);
    SkipBlanks2(ws, [sign, c] + rest);
    assert ([sign, c] + rest)[1..] == [c] + rest;
    assert Drop([c] + rest, 1) == rest;
  }

  /** Nothing but blanks left: the number readers store their "malformed" value and consume nothing more. */
  lemma NumbersAtEnd(ws: seq<symbol>)
    requires AllBlank(ws)
    ensures AfterBlanks(ws) == []
    ensures SaturatedInt(ws) == Taken(INT32_MIN, []) && SaturatedUInt(ws) == Taken(UINT32_MAX, [])
  {
    RunUnique(ws, Blank, |ws|);
  }

  /** Symbols a %s word is made of: bytes that are no blanks. */
  predicate WordBytes(word: seq<symbol>) {
    forall i :: 0 <= i < |word| ==> word[i] != EOF && !IsSpace(word[i])
  }

  /** The peek that ends the blank skip uses up an EOF mark it sees; the reader then reads on. */
  lemma PeekUsesMark(ws: seq<symbol>, rest: seq<symbol>)
    requires AllBlank(ws)
    ensures AfterBlanks(ws + [EOF] + rest) == rest
  {
    assert ws + [EOF] + rest == ws + ([EOF] + rest);
    SkipBlanks(ws, [EOF] + rest);
    assert Drop([EOF] + rest, 1) == rest;
  }

  /** A word of non-blank bytes, from its first byte on: the reader stores it and consumes the symbol that ends it. */
  lemma WordToken(word: seq<symbol>, end: seq<symbol>)
    requires WordBytes(word) && (end == [] || end[0] == EOF || IsSpace(end[0]))
    ensures var t := word + end; var m := Run(t, NonBlank); t[..m] == word && Drop(t, m + 1) == Drop(end, 1)
  {
    var t := word + end;
    RunUnique(t, NonBlank, |word|);
    assert t[..|word|] == word;
  }

  /**
   * A word after blanks, ended by a blank, by an EOF mark or by the end of
   * the input: yread_string stores the word and consumes what ended it.
   */
  lemma WordRoundTrip2(ws: seq<symbol>, word: seq<symbol>, end: seq<symbol>)
    requires AllBlank(ws) && word != [] && WordBytes(word)
    requires end == [] || end[0] == EOF || IsSpace(end[0])
    ensures StringToken(ws + word + end) == Taken(word, Drop(end, 1))
  {
    assert ws + word + end == ws + (word + end);
    SkipBlanks2(ws, word + end);
    WordToken(word, end);
  }

  /**
   * Without an end-of-file latch, an EOF mark met by the blank skip does not
   * end %s: the word after it is read as if the mark were not there.
   */
  lemma WordAfterMark(ws: seq<symbol>, word: seq<symbol>, end: seq<symbol>)
    requires AllBlank(ws) && WordBytes(word)
    requires end == [] || end[0] == EOF || IsSpace(end[0])
    ensures StringToken(ws + [EOF] + word + end) == Taken(word, Drop(end, 1))
  {
    assert ws + [EOF] + word + end == ws + [EOF] + (word + end);
    PeekUsesMark(ws, word + end);
    WordToken(word, end);
  }

  /** Only blanks left: %s stores the empty word. */
  lemma WordAtEnd2(ws: seq<symbol>)
    requires AllBlank(ws)
    ensures StringToken(ws) == Taken([], [])
  {
    RunUnique(ws, Blank, |ws|);
  }

  /** Digits ended by a symbol that is neither a digit nor a '.': the integer loop takes the digits and consumes that symbol. */
  lemma IntegerMantissa(ds: seq<symbol>, g: symbol, rest: seq<symbol>)
    requires AllDigits(ds) && !IsDigit(g) && g != DOT
    ensures Mantissa(ds + [g] + rest) == Taken(ds, rest)
  {
    var u := ds + ([g] + rest);
    assert ds + [g] + rest == u;
    DigitsRun(ds, [g] + rest);
    assert Drop(u, |ds| + 1) == rest;
  }

  /** Digits, a '.', digits, and a symbol that ends them: both loops run, and the last symbol is consumed. */
  lemma FractionMantissa(ds: seq<symbol>, fs: seq<symbol>, g: symbol, rest: seq<symbol>)
    requires AllDigits(ds) && AllDigits(fs) && !IsDigit(g)
    ensures Mantissa(ds + [DOT] + fs + [g] + rest) == Taken(ds + [DOT] + fs, rest)
  {
    var v := fs + ([g] + rest);
    var u := ds + ([DOT] + v);
    assert ds + [DOT] + fs + [g] + rest == u;
    DigitsRun(ds, [DOT] + v);
    assert u[|ds| + 1..] == v;
    DigitsRun(fs, [g] + rest);
    assert Drop(v, |fs| + 1) == rest;
  }

  /** Blanks, an optional sign, then a symbol that starts the mantissa: %lf reads the sign and the mantissa from there. */
  lemma SignedMantissa(ws: seq<symbol>, sign: seq<symbol>, m: seq<symbol>)
    requires AllBlank(ws) && OptionalSign(sign) && m != [] && m[0] != EOF && !IsSpace(m[0]) && !IsSign(m[0])
    ensures DoubleToken(ws + sign + m) == Taken(sign + Mantissa(m).value, Mantissa(m).rest)
  {
    var t := sign + m;
    assert ws + sign + m == ws + t;
    assert t[0] == (if sign == [] then m[0] else sign[0]);
    SkipBlanks2(ws, t);
    assert IsSign(At(t, 0)) <==> sign != [];
    assert t[..|sign|] == sign && t[|sign|..] == m;
  }

  /**
   * A real number as printf("%f") writes it, after blanks and before a symbol
   * that continues no numeral: yread_double takes its sign, digits and '.',
   * and consumes the symbol after it.
   */
  lemma RealRoundTrip2(ws: seq<symbol>, sign: seq<symbol>, ds: seq<symbol>, fs: seq<symbol>, g: symbol, rest: seq<symbol>)
    requires AllBlank(ws) && OptionalSign(sign) && AllDigits(ds) && AllDigits(fs) && !IsDigit(g)
    ensures DoubleToken(ws + sign + ds + [DOT] + fs + [g] + rest) == Taken(sign + ds + [DOT] + fs, rest)
  {
    assert sign + (ds + [DOT]) == sign + ds + [DOT];
    assert sign + (ds + [DOT] + fs) == sign + ds + [DOT] + fs;
    var m := ds + [DOT] + fs + [g] + rest;
    assert ws + sign + ds + [DOT] + fs + [g] + rest == ws + sign + m;
    assert m[0] == (if ds == [] then DOT else ds[0]);
    SignedMantissa(ws, sign, m);
    FractionMantissa(ds, fs, g, rest);
  }

  /** After the exponent mark: an optional sign and digits, ended by a symbol that continues no numeral, which is consumed. */
  lemma ExponentDigits(esign: seq<symbol>, es: seq<symbol>, h: symbol, rest: seq<symbol>)
    requires OptionalSign(esign) && es != [] && AllDigits(es) && !IsDigit(h)
    ensures ExponentPart(esign + es + [h] + rest) == Taken(esign + es, rest)
  {
    var v := es + ([h] + rest);
    assert esign + es + [h] + rest == esign + v;
    assert v[0] == es[0];
    AfterOptionalSign(esign, v);
    DigitsRun(es, [h] + rest);
    assert Drop(v, |es| + 1) == rest;
  }

  /** An optional sign in front of a symbol that is no sign: the sign is exactly what the exponent's sign test takes. */
  lemma AfterOptionalSign(sign: seq<symbol>, v: seq<symbol>)
    requires OptionalSign(sign) && v != [] && !IsSign(v[0])
    ensures var u := sign + v; var q := if IsSign(At(u, 0)) then 1 else 0;
      q == |sign| && u[..q] == sign && u[q..] == v
  {
    var u := sign + v;
    assert u[0] == (if sign != [] then sign[0] else v[0]);
  }

  /**
   * An exponent written right after the mantissa is lost: the mantissa's
   * loop consumes the 'e' that ends it, the peek of yread_double_exp sees the
   * first exponent digit, and the digits stay in the input. This is how
   * "1.23e4" is read, by %lf and by %e alike.
   */
  lemma ExponentLost(ws: seq<symbol>, sign: seq<symbol>, ds: seq<symbol>, fs: seq<symbol>, mark: symbol, es: seq<symbol>, rest: seq<symbol>)
    requires AllBlank(ws) && OptionalSign(sign) && AllDigits(ds) && AllDigits(fs)
    requires IsExponentMark(mark) && es != [] && AllDigits(es)
    ensures DoubleToken(ws + sign + ds + [DOT] + fs + [mark] + es + rest) == Taken(sign + ds + [DOT] + fs, es + rest)
    ensures DoubleExpToken(ws + sign + ds + [DOT] + fs + [mark] + es + rest) == Taken(sign + ds + [DOT] + fs, es + rest)
  {
    assert ws + sign + ds + [DOT] + fs + [mark] + (es + rest) == ws + sign + ds + [DOT] + fs + [mark] + es + rest;
    RealRoundTrip2(ws, sign, ds, fs, mark, es + rest);
    assert (es + rest)[0] == es[0];
    assert !IsExponentMark(At(es + rest, 0)) && AfterPeek(es + rest) == es + rest;
  }

  /**
   * One symbol between the mantissa and the exponent mark, such as a blank:
   * that symbol is the one the mantissa's loop consumes, the peek sees the
   * mark, and the exponent is read.
   */
  lemma GapBeforeExponent(ws: seq<symbol>, sign: seq<symbol>, ds: seq<symbol>, fs: seq<symbol>, g: symbol,
                          mark: symbol, esign: seq<symbol>, es: seq<symbol>, h: symbol, rest: seq<symbol>)
    requires AllBlank(ws) && OptionalSign(sign) && AllDigits(ds) && AllDigits(fs) && !IsDigit(g)
    requires IsExponentMark(mark) && OptionalSign(esign) && es != [] && AllDigits(es) && !IsDigit(h)
    ensures DoubleExpToken(ws + sign + ds + [DOT] + fs + [g] + [mark] + esign + es + [h] + rest)
         == Taken(sign + ds + [DOT] + fs + [mark] + esign + es, rest)
  {
    var number := sign + ds + [DOT] + fs;
    assert number + [mark] + (esign + es) == number + [mark] + esign + es;
    var r := [mark] + (esign + es + [h] + rest);
    assert ws + sign + ds + [DOT] + fs + [g] + [mark] + esign + es + [h] + rest
        == ws + sign + ds + [DOT] + fs + [g] + r;
    RealRoundTrip2(ws, sign, ds, fs, g, r);
    assert r[0] == mark && r[1..] == esign + es + [h] + rest;
    ExponentDigits(esign, es, h, rest);
  }

  /**
   * The conversions a format names from position `i` on, in order, up to the
   * first specifier yscanf2.h rejects: the types of the output arguments.
   */
  function Convs2(fmt: string, i: nat): seq<Conv>
    requires i <= |fmt|
    decreases |fmt| - i
  {
    var c := FmtAt(fmt, i);
    if c == '\0' then []
    else if c != '%' then Convs2(fmt, i + 1)
    else
      match Directive2(fmt, i + 1)
      case None => []
      case Some((conv, j)) => [conv] + Convs2(fmt, j)
  }

  /** Every '%' from position `i` on names a conversion yscanf2.h knows. */
  predicate Recognised2(fmt: string, i: nat)
    requires i <= |fmt|
    decreases |fmt| - i
  {
    var c := FmtAt(fmt, i);
    if c == '\0' then true
    else if c != '%' then Recognised2(fmt, i + 1)
    else
      match Directive2(fmt, i + 1)
      case None => false
      case Some((_, j)) => Recognised2(fmt, j)
  }

  /**
   * An outcome that began with `slots` follows the conversions `cs`: the
   * slots after them have the types `cs` names, in order; without %c there is
   * one per conversion; and when the format is fully recognised, the count
   * returned is the number of slots.
   */
  predicate Follows(o: Outcome<symbol>, slots: seq<Slot>, cs: seq<Conv>, recognised: bool) {
    && |slots| <= |o.slots| <= |slots| + |cs|
    && (forall k :: 0 <= k < |o.slots| - |slots| ==> Stores(cs[k], o.slots[|slots| + k]))
    && (CharConv !in cs ==> |o.slots| == |slots| + |cs|)
    && (CharConv !in cs && recognised ==> o.ret == |slots| + |cs|)
  }

  /** One stored slot of the type `conv` names, before an outcome that follows `cs`. */
  lemma FollowsStep(o: Outcome<symbol>, slots: seq<Slot>, v: Slot, conv: Conv, cs: seq<Conv>, recognised: bool)
    requires Follows(o, slots + [v], cs, recognised) && Stores(conv, v)
    requires o.slots[..|slots| + 1] == slots + [v]
    ensures Follows(o, slots, [conv] + cs, recognised)
  {
    forall k | 0 <= k < |o.slots| - |slots|
      ensures Stores(([conv] + cs)[k], o.slots[|slots| + k])
    {
      if k == 0 {
        assert o.slots[|slots|] == (slots + [v])[|slots|];
      } else {
        assert o.slots[|slots| + 1 + (k - 1)] == o.slots[|slots| + k];
      }
    }
  }

  /**
   * yscanf stores into the arguments in order, each slot of the type its
   * directive names. Since the readers never fail, only %c at an EOF mark
   * stops it early: without %c every directive stores, and with a format it
   * fully recognises, yscanf returns the number of directives.
   */
  lemma {:induction false} SlotsFollowFormat2(fmt: string, i: nat, s: seq<symbol>, skip: bool, slots: seq<Slot>)
    requires i <= |fmt|
    ensures Follows(Dispatch2(fmt, i, s, skip, slots), slots, Convs2(fmt, i), Recognised2(fmt, i))
    decreases |fmt| - i
  {
    var c := FmtAt(fmt, i);
    if c == '\0' {
    } else if IsFmtSpace(c) {
      SlotsFollowFormat2(fmt, i + 1, s, true, slots);
    } else if c != '%' {
      SlotsFollowFormat2(fmt, i + 1, s, false, slots);
    } else {
      match Directive2(fmt, i + 1)
      case None =>
      case Some((conv, j)) =>
        var t := if skip then AfterBlanks(s) else s;
        if conv == CharConv {
          if At(t, 0) != EOF {
            var v := CharSlot(t[0]);
            SlotsFollowFormat2(fmt, j, t[1..], false, slots + [v]);
            FollowsStep(Dispatch2(fmt, j, t[1..], false, slots + [v]), slots, v, conv, Convs2(fmt, j), Recognised2(fmt, j));
          }
        } else {
          var r := Convert2(conv, t);
          SlotsFollowFormat2(fmt, j, r.rest, false, slots + [r.value]);
          FollowsStep(Dispatch2(fmt, j, r.rest, false, slots + [r.value]), slots, r.value, conv, Convs2(fmt, j), Recognised2(fmt, j));
        }
    }
  }

  /**
   * No end-of-file latch: %c at an EOF mark makes yscanf return EOF and uses
   * the mark up, and the next call reads the byte after it.
   */
  lemma CharAfterMark(c: byte, rest: seq<symbol>)
    ensures Scan2("%c", [EOF] + [c] + rest) == Outcome(EOF, [], [c] + rest)
    ensures Scan2("%c", [c] + rest) == Outcome(1, [CharSlot(c)], rest)
  {
    assert Drop([EOF] + [c] + rest, 1) == [c] + rest;
    assert ([c] + rest)[1..] == rest;
  }

  /**
   * A literal in the format consumes no input and cancels a blank before it:
   * after " x", %c takes the very next byte, a blank included.
   */
  lemma LiteralClearsSkip(b: byte, rest: seq<symbol>)
    ensures Scan2(" x%c", [b] + rest) == Outcome(1, [CharSlot(b)], rest)
  {
    assert ([b] + rest)[1..] == rest;
  }

  /** A blank before %c skips the input's blanks, and %c takes the byte after them. */
  lemma BlankBeforeChar(ws: seq<symbol>, c: byte, rest: seq<symbol>)
    requires AllBlank(ws) && !IsSpace(c)
    ensures Scan2(" %c", ws + [c] + rest) == Outcome(1, [CharSlot(c)], rest)
  {
    assert ws + [c] + rest == ws + ([c] + rest);
    SkipBlanks2(ws, [c] + rest);
    assert ([c] + rest)[1..] == rest;
  }

  /**
   * At the end of the input %d still stores INT32_MIN and counts it: yscanf
   * returns 1, never EOF, and leaves the input as it was, so a loop that
   * reads numbers while yscanf returns 1 does not end.
   */
  lemma IntAtEndCounts(ws: seq<symbol>)
    requires AllBlank(ws)
    ensures Scan2("%d", ws) == Outcome(1, [IntSlot(INT32_MIN)], [])
    ensures Scan2("%d", []) == Outcome(1, [IntSlot(INT32_MIN)], [])
  {
    IntConvAtEnd(ws);
    IntConvAtEnd([]);
  }

  /** "%d" on nothing but blanks: the conversion stores INT32_MIN, consumes everything, and the format ends. */
  lemma IntConvAtEnd(ws: seq<symbol>)
    requires AllBlank(ws)
    ensures Scan2("%d", ws) == Outcome(1, [IntSlot(INT32_MIN)], [])
  {
    var fmt := "%d";
    NumbersAtEnd(ws);
    assert Directive2(fmt, 1) == Some((IntConv, 2));
    ConversionStores2(fmt, 0, ws, false, [], IntConv, 2);
    assert Dispatch2(fmt, 2, [], false, [IntSlot(INT32_MIN)]) == Outcome(1, [IntSlot(INT32_MIN)], []);
  }

  /**
   * An unrecognised specifier returns -1 even after a conversion has stored
   * and counted a value, and leaves the input where that conversion stopped.
   */
  lemma UnknownAfterCount2(s: seq<symbol>)
    ensures var r := SaturatedInt(s); Scan2("%d%q", s) == Outcome(EOF, [IntSlot(r.value)], r.rest)
  {
    var fmt := "%d%q";
    var r := SaturatedInt(s);
    assert Directive2(fmt, 1) == Some((IntConv, 2));
    ConversionStores2(fmt, 0, s, false, [], IntConv, 2);
    assert Directive2(fmt, 3) == None;
    UnknownStops2(fmt, 2, r.rest, false, [IntSlot(r.value)]);
  }

  /** A conversion other than %c stores its slot, clears skip_space, and yscanf goes on after the specifier. */
  lemma ConversionStores2(fmt: string, i: nat, s: seq<symbol>, skip: bool, slots: seq<Slot>, conv: Conv, j: nat)
    requires i < |fmt| && fmt[i] == '%' && Directive2(fmt, i + 1) == Some((conv, j)) && conv != CharConv
    ensures var r := Convert2(conv, if skip then AfterBlanks(s) else s);
      Dispatch2(fmt, i, s, skip, slots) == Dispatch2(fmt, j, r.rest, false, slots + [r.value])
  {
  }

  /** An unknown specifier returns -1 with the slots stored so far, and reads nothing. */
  lemma UnknownStops2(fmt: string, i: nat, s: seq<symbol>, skip: bool, slots: seq<Slot>)
    requires i < |fmt| && fmt[i] == '%' && Directive2(fmt, i + 1) == None
    ensures Dispatch2(fmt, i, s, skip, slots) == Outcome(EOF, slots, s)
  {
  }
}
