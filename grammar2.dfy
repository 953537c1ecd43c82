/**
 * What the readers and the dispatcher of yscanf2.h compute, as functions of
 * the symbols the stream still has to deliver. yscanf2.h has no end-of-file
 * latch: every access to an empty buffer calls fread again, and a zero-length
 * read (an EOF mark in the stream) is used up by the access that saw it, by a
 * ypeek_char as much as by a ynext_char. The readers never fail; they consume
 * the byte after their token.
 */
module Grammar2 {
  import opened Bytes
  import opened Numerals
  import opened Format

  /** What the stream still holds after ypeek_char: a zero-length read it saw is used up. */
  function AfterPeek(s: seq<symbol>): (r: seq<symbol>)
    ensures r == s <==> s == [] || s[0] != EOF
    ensures r != s ==> r == s[1..]
  {
    if At(s, 0) == EOF then Drop(s, 1) else s
  }

  /**
   * yskip_space_input: consumes the blanks ahead; the peek that ends the
   * loop uses up a zero-length read when it sees one.
   */
  function AfterBlanks(s: seq<symbol>): (r: seq<symbol>)
    ensures var n := Run(s, Blank); n <= |s| - |r| <= n + 1 && r == s[|s| - |r|..]
    ensures var n := Run(s, Blank); |s| - |r| == n + 1 ==> s[n] == EOF
  {
    AfterPeek(s[Run(s, Blank)..])
  }

  /** What yparse_int and yparse_uint return: the value, the overflow flag, and the rest of the stream. */
  datatype Parsed = Parsed(value: int, overflow: bool, rest: seq<symbol>)

  /**
   * The digit loop of yparse_int and yparse_uint, from the first symbol after
   * the sign: no digit there sets the flag and yields 0 with that symbol
   * consumed; otherwise the checked accumulation of the digit run, which
   * consumes the whole run and the symbol after it.
   */
  function Numeral(u: seq<symbol>, w: Width): (r: Parsed)
    ensures !IsDigit(At(u, 0)) ==> r == Parsed(0, true, Drop(u, 1))
    ensures IsDigit(At(u, 0)) ==> r.rest == Drop(u, Run(u, Digit) + 1)
    ensures 0 <= r.value <= Max(w)
  {
    if !IsDigit(At(u, 0)) then Parsed(0, true, Drop(u, 1))
    else
      var d := Run(u, Digit);
      var (x, overflow) := Checked(u[..d], 0, w);
      Parsed(x, overflow, Drop(u, d + 1))
  }

  /** An optional sign, then the digits; the value is sign * x. */
  function SignedNumeral(t: seq<symbol>): (r: Parsed)
    ensures -INT64_MAX <= r.value <= INT64_MAX
    ensures r.value < 0 ==> At(t, 0) == MINUS
    ensures |r.rest| < |t| || t == []
  {
    var c := At(t, 0);
    var p := if IsSign(c) then 1 else 0;
    var r := Numeral(t[p..], Int64);
    r.(value := SignOf(c) * r.value)
  }

  /** yparse_int: blanks, then the signed numeral. */
  function ParsedSigned(s: seq<symbol>): (r: Parsed)
    ensures -INT64_MAX <= r.value <= INT64_MAX
    ensures |r.rest| < |s| || s == []
  {
    SignedNumeral(AfterBlanks(s))
  }

  /** yparse_uint: blanks, then the digits; no sign is accepted. */
  function ParsedUnsigned(s: seq<symbol>): (r: Parsed)
    ensures 0 <= r.value <= UINT64_MAX
    ensures |r.rest| < |s| || s == []
  {
    Numeral(AfterBlanks(s), UInt64)
  }

  /** A reader's stored value and the rest of the stream. */
  datatype Taken<T> = Taken(value: T, rest: seq<symbol>)

  /** yread_int: the flag, or a value outside int, saturates by the sign of the value. */
  function SaturatedInt(s: seq<symbol>): (r: Taken<int>)
    ensures INT32_MIN <= r.value <= INT32_MAX
    ensures r.rest == ParsedSigned(s).rest
  {
    var r := ParsedSigned(s);
    if r.overflow || r.value > INT32_MAX || r.value < INT32_MIN then
      Taken(if r.value > 0 then INT32_MAX else INT32_MIN, r.rest)
    else Taken(r.value, r.rest)
  }

  /** yread_ll: only the flag saturates. */
  function SaturatedLong(s: seq<symbol>): (r: Taken<int>)
    ensures INT64_MIN <= r.value <= INT64_MAX
    ensures r.value == INT64_MIN ==> ParsedSigned(s).overflow
    ensures r.rest == ParsedSigned(s).rest
  {
    var r := ParsedSigned(s);
    if r.overflow then Taken(if r.value > 0 then INT64_MAX else INT64_MIN, r.rest)
    else Taken(r.value, r.rest)
  }

  /** yread_uint: the flag, or a value above UINT32_MAX, gives UINT32_MAX. */
  function SaturatedUInt(s: seq<symbol>): (r: Taken<int>)
    ensures 0 <= r.value <= UINT32_MAX
    ensures r.rest == ParsedUnsigned(s).rest
  {
    var r := ParsedUnsigned(s);
    if r.overflow || r.value > UINT32_MAX then Taken(UINT32_MAX, r.rest) else Taken(r.value, r.rest)
  }

  /** yread_ull: the flag gives ULLONG_MAX. */
  function SaturatedULong(s: seq<symbol>): (r: Taken<int>)
    ensures 0 <= r.value <= UINT64_MAX
    ensures r.rest == ParsedUnsigned(s).rest
  {
    var r := ParsedUnsigned(s);
    if r.overflow then Taken(UINT64_MAX, r.rest) else Taken(r.value, r.rest)
  }

  /**
   * yread_string: the run of non-blank bytes after the blanks, possibly
   * empty; the symbol that ends it (a blank, or EOF) is consumed too.
   */
  function StringToken(s: seq<symbol>): (r: Taken<seq<int>>)
    ensures forall i :: 0 <= i < |r.value| ==> r.value[i] != EOF && !IsSpace(r.value[i])
    ensures |r.rest| < |s| || s == []
  {
    var t := AfterBlanks(s);
    var m := Run(t, NonBlank);
    RunMaximal(t, NonBlank);
    Taken(t[..m], Drop(t, m + 1))
  }

  /**
   * The two digit loops of yread_double, from the first symbol after the
   * sign: the integer digits, then, when a '.' ends them, the fraction
   * digits. Each loop consumes the symbol that ends it.
   */
  function Mantissa(u: seq<symbol>): (r: Taken<seq<int>>)
    ensures forall i :: 0 <= i < |r.value| ==> IsDigit(r.value[i]) || r.value[i] == DOT
    ensures |r.rest| < |u| || u == []
  {
    var d := Run(u, Digit);
    RunMaximal(u, Digit);
    if At(u, d) == DOT then
      var v := u[d + 1..];
      var f := Run(v, Digit);
      RunMaximal(v, Digit);
      Taken(u[..d] + [DOT] + v[..f], Drop(v, f + 1))
    else Taken(u[..d], Drop(u, d + 1))
  }

  /**
   * yread_double, at the level of consumed symbols: blanks, an optional sign,
   * then the mantissa. The stored text is the sign, the digits and the '.',
   * from which the value is computed.
   */
  function DoubleToken(s: seq<symbol>): (r: Taken<seq<int>>)
    ensures forall i :: 0 <= i < |r.value| ==> IsDigit(r.value[i]) || r.value[i] == DOT || (i == 0 && IsSign(r.value[i]))
    ensures |r.rest| < |s| || s == []
  {
    var t := AfterBlanks(s);
    var p := if IsSign(At(t, 0)) then 1 else 0;
    var m := Mantissa(t[p..]);
    Taken(t[..p] + m.value, m.rest)
  }

  /** After an 'e' of yread_double_exp: an optional sign and the digits; the symbol that ends them is consumed. */
  function ExponentPart(u: seq<symbol>): (r: Taken<seq<int>>)
    ensures forall i :: 0 <= i < |r.value| ==> IsDigit(r.value[i]) || (i == 0 && IsSign(r.value[i]))
    ensures |r.rest| < |u| || u == []
  {
    var q := if IsSign(At(u, 0)) then 1 else 0;
    var v := u[q..];
    var e := Run(v, Digit);
    RunMaximal(v, Digit);
    Taken(u[..q] + v[..e], Drop(v, e + 1))
  }

  /**
   * yread_double_exp: yread_double, then a peek for 'e' or 'E', and the
   * exponent after it. The byte that ended the mantissa is already gone, so
   * the peek sees the byte after it.
   */
  function DoubleExpToken(s: seq<symbol>): (r: Taken<seq<int>>)
    ensures DoubleToken(s).value <= r.value
    ensures |r.rest| < |s| || s == []
  {
    var m := DoubleToken(s);
    var t := m.rest;
    if !IsExponentMark(At(t, 0)) then Taken(m.value, AfterPeek(t))
    else
      var x := ExponentPart(t[1..]);
      Taken(m.value + [t[0]] + x.value, x.rest)
  }

  /** The conversion named from position `j` (just after a '%') and the position after it. */
  function Directive2(fmt: string, j: nat): (r: Option<(Conv, nat)>)
    ensures r.Some? ==> j < r.value.1 <= |fmt|
  {
    var c := FmtAt(fmt, j);
    if c == 'd' then Some((IntConv, j + 1))
    else if c == 'u' then Some((UIntConv, j + 1))
    else if c == 's' then Some((WordConv, j + 1))
    else if c == 'c' then Some((CharConv, j + 1))
    else if c == 'l' then
      if FmtAt(fmt, j + 1) == 'l' then
        if FmtAt(fmt, j + 2) == 'd' then Some((LongConv, j + 3))
        else if FmtAt(fmt, j + 2) == 'u' then Some((ULongConv, j + 3))
        else None
      else if FmtAt(fmt, j + 1) == 'f' then Some((RealConv(false), j + 2))
      else None
    else if c == 'g' || c == 'e' || c == 'f' then Some((RealConv(true), j + 1))
    else None
  }

  /** The reader each conversion other than %c runs; none of them fails. */
  function Convert2(conv: Conv, s: seq<symbol>): (r: Taken<Slot>)
    requires conv != CharConv
    ensures Stores(conv, r.value)
  {
    match conv
    case IntConv => var r := SaturatedInt(s); Taken(IntSlot(r.value), r.rest)
    case UIntConv => var r := SaturatedUInt(s); Taken(UIntSlot(r.value), r.rest)
    case LongConv => var r := SaturatedLong(s); Taken(LongSlot(r.value), r.rest)
    case ULongConv => var r := SaturatedULong(s); Taken(ULongSlot(r.value), r.rest)
    case RealConv(exponent) =>
      var r := if exponent then DoubleExpToken(s) else DoubleToken(s);
      Taken(RealSlot(r.value), r.rest)
    case WordConv => var r := StringToken(s); Taken(WordSlot(r.value), r.rest)
  }

  /**
   * yscanf from format position `i` with the `skip_space` flag `skip`: a
   * blank in the format sets the flag, a literal clears it, and a conversion
   * applies it before its reader. Every recognised conversion counts; only %c
   * at EOF stops early.
   */
  function Dispatch2(fmt: string, i: nat, s: seq<symbol>, skip: bool, slots: seq<Slot>): (o: Outcome<symbol>)
    requires i <= |fmt|
    ensures o.ret == EOF || o.ret == |o.slots|
    ensures |slots| <= |o.slots| && o.slots[..|slots|] == slots
    decreases |fmt| - i
  {
    var c := FmtAt(fmt, i);
    if c == '\0' then Outcome(|slots|, slots, s)
    else if IsFmtSpace(c) then Dispatch2(fmt, i + 1, s, true, slots)
    else if c != '%' then Dispatch2(fmt, i + 1, s, false, slots)
    else
      match Directive2(fmt, i + 1)
      case None => Outcome(EOF, slots, s)
      case Some((conv, j)) =>
        var t := if skip then AfterBlanks(s) else s;
        if conv == CharConv then
          if At(t, 0) == EOF then Outcome(if |slots| == 0 then EOF else |slots|, slots, Drop(t, 1))
          else Dispatch2(fmt, j, t[1..], false, slots + [CharSlot(t[0])])
        else
          var r := Convert2(conv, t);
          Dispatch2(fmt, j, r.rest, false, slots + [r.value])
  }

  /** yscanf(fmt, ...) on the stream still to come. */
  function Scan2(fmt: string, s: seq<symbol>): (o: Outcome<symbol>)
    ensures o.ret == EOF || o.ret == |o.slots|
  {
    Dispatch2(fmt, 0, s, false, [])
  }
}
