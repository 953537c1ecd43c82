/**
 * What the readers and the dispatcher of yscanf3.h compute, as functions of
 * the bytes the stream still has to deliver (everything up to its first
 * zero-length read). A reader's result says what it stores and how many bytes
 * it consumes; the class in scanner3.dfy is proved to behave accordingly.
 */
module Grammar3 {
  import opened Bytes
  import opened Numerals
  import opened Format

  /**
   * A signed numeral after the blanks: an optional sign, then at least one
   * digit. The sign is consumed even when no digit follows. The value is the
   * numeral reduced into `w`: the source wraps silently.
   */
  function SignedToken(t: seq<byte>, w: Width): (r: Read<int>)
    ensures r.used <= |t|
    ensures r.Got? ==> 0 < r.used && IsDigit(t[r.used - 1]) && !IsDigit(At(t, r.used))
    ensures r.Fail? ==> r.used <= 1 && !IsDigit(At(t, r.used))
  {
    if t == [] then Fail(0)
    else
      var p := if IsSign(t[0]) then 1 else 0;
      var d := Run(t[p..], Digit);
      RunMaximal(t[p..], Digit);
      if d == 0 then Fail(p)
      else
        assert p + d < |t| ==> t[p + d] == t[p..][d];
        Got(Wrap(Value(t[p..p + d]) * SignOf(t[0]), w), p + d)
  }

  /** yread_int_ok (w = Int32) and yread_ll_ok (w = Int64). */
  function ReadSigned(s: seq<byte>, w: Width): (r: Read<int>)
    ensures Run(s, Blank) <= r.used <= |s|
    ensures r.Got? ==> Run(s, Blank) < r.used && Min(w) <= r.value <= Max(w) && IsDigit(s[r.used - 1]) && !IsDigit(At(s, r.used))
    ensures r.Fail? ==> r.used <= Run(s, Blank) + 1
  {
    var n := Run(s, Blank);
    Shift(SignedToken(s[n..], w), n)
  }

  /**
   * The digit loop of yread_ll_ok, wrapping at every step, followed by the
   * multiplication by the sign, stores the value SignedToken states.
   */
  lemma SignedAccumulated(t: seq<byte>, w: Width)
    requires t != []
    requires var p := if IsSign(t[0]) then 1 else 0; Run(t[p..], Digit) > 0
    ensures var p := if IsSign(t[0]) then 1 else 0;
      var d := Run(t[p..], Digit);
      SignedToken(t, w) == Got(Wrap(Accumulated(t[p..], d, w) * SignOf(t[0]), w), p + d)
  {
    var p := if IsSign(t[0]) then 1 else 0;
    var u := t[p..];
    var d := Run(u, Digit);
    RunMaximal(u, Digit);
    AccumulatedWraps(u, d, w);
    assert u[..d] == t[p..p + d];
    WrapSign(Value(u[..d]), SignOf(t[0]), w);
  }

  /** yread_int_ok is yread_ll_ok with the stored value cast to int. */
  lemma ReadSignedNarrows(s: seq<byte>)
    ensures var wide, r := ReadSigned(s, Int64), ReadSigned(s, Int32);
      r.Got? == wide.Got? && r.used == wide.used && (r.Got? ==> r.value == Wrap(wide.value, Int32))
  {
    var t := s[Run(s, Blank)..];
    if t != [] {
      var p := if IsSign(t[0]) then 1 else 0;
      var d := Run(t[p..], Digit);
      RunMaximal(t[p..], Digit);
      if d > 0 {
        NarrowAfterWrap(Value(t[p..p + d]) * SignOf(t[0]), Int64, Int32);
      }
    }
  }

  /** An unsigned numeral after the blanks: at least one digit, no sign. */
  function UnsignedToken(t: seq<byte>, w: Width): (r: Read<int>)
    ensures r.Got? ==> 0 < r.used <= |t| && IsDigit(t[r.used - 1]) && !IsDigit(At(t, r.used))
    ensures r.Fail? ==> r.used == 0 && !IsDigit(At(t, 0))
  {
    var d := Run(t, Digit);
    RunMaximal(t, Digit);
    if d == 0 then Fail(0) else Got(Wrap(Value(t[..d]), w), d)
  }

  /** yread_uint_ok (w = UInt32) and yread_ull_ok (w = UInt64). */
  function ReadUnsigned(s: seq<byte>, w: Width): (r: Read<int>)
    ensures Run(s, Blank) <= r.used <= |s|
    ensures r.Got? ==> Run(s, Blank) < r.used && Min(w) <= r.value <= Max(w) && IsDigit(s[r.used - 1]) && !IsDigit(At(s, r.used))
    ensures r.Fail? ==> r.used == Run(s, Blank)
  {
    var n := Run(s, Blank);
    Shift(UnsignedToken(s[n..], w), n)
  }

  /** The digit loop of yread_ull_ok stores the value UnsignedToken states. */
  lemma UnsignedAccumulated(t: seq<byte>, w: Width)
    requires Run(t, Digit) > 0
    ensures UnsignedToken(t, w) == Got(Accumulated(t, Run(t, Digit), w), Run(t, Digit))
  {
    RunMaximal(t, Digit);
    AccumulatedWraps(t, Run(t, Digit), w);
  }

  /** yread_uint_ok is yread_ull_ok with the stored value cast to unsigned. */
  lemma ReadUnsignedNarrows(s: seq<byte>)
    ensures var wide, r := ReadUnsigned(s, UInt64), ReadUnsigned(s, UInt32);
      r.Got? == wide.Got? && r.used == wide.used && (r.Got? ==> r.value == Wrap(wide.value, UInt32))
  {
    var t := s[Run(s, Blank)..];
    var d := Run(t, Digit);
    RunMaximal(t, Digit);
    if d > 0 {
      NarrowAfterWrap(Value(t[..d]), UInt64, UInt32);
    }
  }

  /** The fraction after the integer digits: a '.' and the digits after it, or nothing. */
  function Fraction(u: seq<byte>): (n: nat)
    ensures n <= |u|
  {
    if At(u, 0) == DOT then 1 + Run(u[1..], Digit) else 0
  }

  /** An optional sign and the digits after it (possibly none). */
  function SignedLength(v: seq<byte>): (n: nat)
    ensures n <= |v|
  {
    var p := if IsSign(At(v, 0)) then 1 else 0;
    p + Run(v[p..], Digit)
  }

  /** The exponent after the fraction: 'e' or 'E', an optional sign and any digits, or nothing. */
  function Exponent(u: seq<byte>): (n: nat)
    ensures n <= |u|
  {
    if IsExponentMark(At(u, 0)) then 1 + SignedLength(u[1..]) else 0
  }

  /** What follows the sign of a floating-point token: the digits, the fraction and the exponent. */
  function RealLength(u: seq<byte>): (n: nat)
    ensures n <= |u|
  {
    var q := Run(u, Digit);
    q + FractionExponent(u[q..])
  }

  /** The fraction, then the exponent. */
  function FractionExponent(v: seq<byte>): (n: nat)
    ensures n <= |v|
  {
    var f := Fraction(v);
    f + Exponent(v[f..])
  }

  /**
   * The floating-point token of yread_double_ok after the blanks: an optional
   * sign, then a digit or a '.', then digits, the fraction and the exponent.
   * The slot records the token.
   */
  function RealToken(t: seq<byte>): (r: Read<seq<int>>)
    ensures r.used <= |t|
    ensures r.Got? ==> r.value == t[..r.used]
  {
    if t == [] then Fail(0)
    else
      var p := if IsSign(t[0]) then 1 else 0;
      if !IsDigit(At(t, p)) && At(t, p) != DOT then Fail(p)
      else
        var e := p + RealLength(t[p..]);
        Got(t[..e], e)
  }

  /** A floating-point token whose first byte after the sign is a digit or a '.' runs for RealLength more bytes. */
  lemma RealTokenGot(t: seq<byte>, p: nat)
    requires t != [] && p == (if IsSign(t[0]) then 1 else 0) && (IsDigit(At(t, p)) || At(t, p) == DOT)
    ensures var n := RealLength(t[p..]); RealToken(t) == Got(t[..p + n], p + n)
  {
  }

  /** yread_double_ok, token grammar and success only. */
  function ReadReal(s: seq<byte>): (r: Read<seq<int>>)
    ensures Run(s, Blank) <= r.used <= |s|
    ensures r.Got? ==> r.value == s[Run(s, Blank)..r.used]
  {
    var n := Run(s, Blank);
    Shift(RealToken(s[n..]), n)
  }

  /** A word after the blanks: the maximal run of non-blank bytes, at least one. */
  function WordToken(t: seq<byte>): (r: Read<seq<int>>)
    requires t == [] || !IsSpace(t[0])
    ensures r.Fail? <==> t == []
    ensures r.Got? ==> 0 < r.used <= |t| && r.value == t[..r.used]
    ensures r.Got? ==> (forall i :: 0 <= i < r.used ==> !IsSpace(t[i])) && !In(At(t, r.used), NonBlank)
  {
    if t == [] then Fail(0)
    else
      var m := Run(t, NonBlank);
      RunMaximal(t, NonBlank);
      Got(t[..m], m)
  }

  /** yread_str_ok. */
  function ReadWord(s: seq<byte>): (r: Read<seq<int>>)
    ensures Run(s, Blank) <= r.used <= |s|
    ensures r.Got? ==> Run(s, Blank) < r.used && r.value == s[Run(s, Blank)..r.used]
  {
    var n := Run(s, Blank);
    RunMaximal(s, Blank);
    Shift(WordToken(s[n..]), n)
  }

  /** How many bytes of a line a buffer of `maxlen` bytes keeps: at most maxlen-1, plus the NUL. */
  function Kept(n: nat, maxlen: int): (k: nat)
    ensures k <= n && (k < maxlen || k == 0)
    ensures n < maxlen ==> k == n
  {
    if maxlen - 1 <= 0 then 0 else if n < maxlen - 1 then n else maxlen - 1
  }

  /** Where a line whose bytes end at `n` stops: after its terminator, "\r\n" counting as one. */
  function LineEnd(s: seq<byte>, n: nat): (e: nat)
    requires n <= |s|
    ensures n <= e <= |s|
    ensures e == n <==> n == |s|
    ensures e == n + 2 ==> s[n] == CR && s[n + 1] == LF
  {
    if n == |s| then n else if s[n] == CR && At(s, n + 1) == LF then n + 2 else n + 1
  }

  /**
   * ygetline_ok: fails only on an empty stream; otherwise consumes the line
   * and its terminator ("\n", "\r" or "\r\n") and keeps what fits.
   */
  function FirstLine(s: seq<byte>, maxlen: int): (r: Read<seq<int>>)
    ensures r.Fail? <==> s == []
    ensures r.Fail? ==> r.used == 0
    ensures r.used <= |s|
  {
    if s == [] then Fail(0)
    else
      var n := Run(s, LineChar);
      Got(s[..Kept(n, maxlen)], LineEnd(s, n))
  }

  /** yread_line_ok: first consumes every '\n' and '\r', then reads a line. */
  function NextLine(s: seq<byte>, maxlen: int): (r: Read<seq<int>>)
    ensures r.used <= |s|
    ensures r.Fail? <==> Run(s, LineBreak) == |s|
    ensures Run(s, LineBreak) <= r.used
  {
    var k := Run(s, LineBreak);
    if k == |s| then Fail(k)
    else Shift(FirstLine(s[k..], maxlen), k)
  }

  /** %c: one byte, blanks included. */
  function ReadChar(s: seq<byte>): (r: Read<int>)
    ensures r.Fail? <==> s == []
    ensures r.Got? ==> r.used == 1 && r.value == s[0]
  {
    if s == [] then Fail(0) else Got(s[0], 1)
  }

  /** The reader each conversion runs. */
  function Convert(conv: Conv, s: seq<byte>): (r: Read<Slot>)
    ensures r.used <= |s|
    ensures r.Got? ==> Stores(conv, r.value)
  {
    match conv
    case IntConv => Store(ReadSigned(s, Int32), v => IntSlot(v))
    case UIntConv => Store(ReadUnsigned(s, UInt32), v => UIntSlot(v))
    case LongConv => Store(ReadSigned(s, Int64), v => LongSlot(v))
    case ULongConv => Store(ReadUnsigned(s, UInt64), v => ULongSlot(v))
    case RealConv(_) => Store(ReadReal(s), v => RealSlot(v))
    case WordConv => Store(ReadWord(s), v => WordSlot(v))
    case CharConv => Store(ReadChar(s), v => CharSlot(v))
  }

  /**
   * The conversion named by the format from position `j` (just after a '%')
   * and the position after it; None for a specifier yscanf3.h rejects.
   */
  function Directive(fmt: string, j: nat): (r: Option<(Conv, nat)>)
    ensures r.Some? ==> j < r.value.1 <= |fmt|
  {
    var c := FmtAt(fmt, j);
    if c == 'd' then Some((IntConv, j + 1))
    else if c == 'u' then Some((UIntConv, j + 1))
    else if c == 'l' then
      if FmtAt(fmt, j + 1) != 'l' then None
      else if FmtAt(fmt, j + 2) == 'd' then Some((LongConv, j + 3))
      else if FmtAt(fmt, j + 2) == 'u' then Some((ULongConv, j + 3))
      else None
    else if c == 'f' || c == 'e' || c == 'g' then Some((RealConv(true), j + 1))
    else if c == 's' then Some((WordConv, j + 1))
    else if c == 'c' then Some((CharConv, j + 1))
    else None
  }

  /**
   * yscanf from format position `i` on input `s`, with `slots` stored so far
   * (the count `cnt` of the source is |slots|).
   */
  function Dispatch(fmt: string, i: nat, s: seq<byte>, slots: seq<Slot>): (o: Outcome<byte>)
    requires i <= |fmt|
    ensures o.ret == EOF || o.ret == |o.slots|
    ensures |slots| <= |o.slots| && o.slots[..|slots|] == slots
    decreases |fmt| - i
  {
    var c := FmtAt(fmt, i);
    if c == '\0' then Outcome(|slots|, slots, s)
    else if IsFmtSpace(c) then Dispatch(fmt, i + 1, s[Run(s, Blank)..], slots)
    else if c != '%' then Dispatch(fmt, i + 1, s, slots)
    else
      match Directive(fmt, i + 1)
      case None => Outcome(EOF, slots, s)
      case Some((conv, j)) =>
        match Convert(conv, s)
        case Fail(u) => Outcome(if |slots| == 0 then EOF else |slots|, slots, s[u..])
        case Got(v, u) => Dispatch(fmt, j, s[u..], slots + [v])
  }

  /** yscanf(fmt, ...) on the input still to come. */
  function Scan(fmt: string, s: seq<byte>): (o: Outcome<byte>)
    ensures o.ret == EOF || o.ret == |o.slots|
  {
    Dispatch(fmt, 0, s, [])
  }
}
