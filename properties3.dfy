/**
 * What the readers and the dispatcher of yscanf3.h promise, stated over the
 * functions of Grammar3: printed numerals read back, blanks are skipped and
 * the delimiter is left unread, lines are truncated but consumed whole, and
 * yscanf stores its slots in the order and of the types the format names.
 */
module Properties3 {
  import opened Bytes
  import opened Numerals
  import opened Format
  import opened Grammar3

  /**
   * printf("%lld") then the signed token: the value comes back, wrapped into
   * the width (so exactly whenever it fits), and the delimiter stays unread.
   */
  lemma SignedTokenDecimal(v: int, rest: seq<byte>, w: Width)
    requires !IsDigit(At(rest, 0))
    ensures SignedToken(Decimal(v) + rest, w) == Got(Wrap(v, w), |Decimal(v)|)
  {
    var t := Decimal(v) + rest;
    if v < 0 {
      var ds := Digits(-v);
      assert t == [MINUS] + (ds + rest);
      DigitsToken(t, 1, ds, rest, w);
    } else {
      var ds := Digits(v);
      assert t == ds + rest;
      assert t[0] == ds[0];
      DigitsToken(t, 0, ds, rest, w);
    }
  }

  /** A token whose optional sign takes `p` bytes and whose digits are `ds`, then a non-digit. */
  lemma DigitsToken(t: seq<byte>, p: nat, ds: seq<byte>, rest: seq<byte>, w: Width)
    requires p <= 1 && p <= |t| && t[p..] == ds + rest
    requires ds != [] && AllDigits(ds) && !IsDigit(At(rest, 0))
    requires IsSign(t[0]) <==> p == 1
    ensures SignedToken(t, w) == Got(Wrap(Value(ds) * SignOf(t[0]), w), p + |ds|)
  {
    DigitsRun(ds, rest);
    assert t[p..p + |ds|] == t[p..][..|ds|];
  }

  /** yread_int_ok and yread_ll_ok read back any printed value after blanks. */
  lemma SignedRoundTrip(ws: seq<byte>, v: int, rest: seq<byte>, w: Width)
    requires AllBlank(ws) && !IsDigit(At(rest, 0))
    ensures ReadSigned(ws + Decimal(v) + rest, w) == Got(Wrap(v, w), |ws| + |Decimal(v)|)
    ensures Min(w) <= v <= Max(w) ==> ReadSigned(ws + Decimal(v) + rest, w).value == v
  {
    var t := Decimal(v) + rest;
    assert ws + Decimal(v) + rest == ws + t;
    assert !IsSpace(At(t, 0)) by {
      assert t[0] == Decimal(v)[0];
    }
    SignedAfterBlanks(ws, t, w);
    SignedTokenDecimal(v, rest, w);
  }

  /** Blanks in front of a byte that is no blank only shift the signed reader. */
  lemma SignedAfterBlanks(ws: seq<byte>, t: seq<byte>, w: Width)
    requires AllBlank(ws) && !IsSpace(At(t, 0))
    ensures ReadSigned(ws + t, w) == Shift(SignedToken(t, w), |ws|)
  {
    SkipBlanks(ws, t);
  }

  /** printf("%llu") then the unsigned token: the value comes back, wrapped into the width. */
  lemma UnsignedTokenDigits(n: nat, rest: seq<byte>, w: Width)
    requires !IsDigit(At(rest, 0))
    ensures UnsignedToken(Digits(n) + rest, w) == Got(Wrap(n, w), |Digits(n)|)
  {
    DigitsRun(Digits(n), rest);
  }

  /** yread_uint_ok and yread_ull_ok read back any printed value after blanks. */
  lemma UnsignedRoundTrip(ws: seq<byte>, n: nat, rest: seq<byte>, w: Width)
    requires AllBlank(ws) && !IsDigit(At(rest, 0))
    ensures ReadUnsigned(ws + Digits(n) + rest, w) == Got(Wrap(n, w), |ws| + |Digits(n)|)
    ensures n <= Max(w) ==> ReadUnsigned(ws + Digits(n) + rest, w).value == n
  {
    var t := Digits(n) + rest;
    assert ws + Digits(n) + rest == ws + t;
    assert t[0] == Digits(n)[0];
    UnsignedAfterBlanks(ws, t, w);
    UnsignedTokenDigits(n, rest, w);
  }

  /** Blanks in front of a byte that is no blank only shift the unsigned reader. */
  lemma UnsignedAfterBlanks(ws: seq<byte>, t: seq<byte>, w: Width)
    requires AllBlank(ws) && !IsSpace(At(t, 0))
    ensures ReadUnsigned(ws + t, w) == Shift(UnsignedToken(t, w), |ws|)
  {
    SkipBlanks(ws, t);
  }

  /** %d silently wraps: 2147483648 is stored as INT32_MIN. */
  lemma IntWraps(rest: seq<byte>)
    requires !IsDigit(At(rest, 0))
    ensures ReadSigned(Digits(INT32_MAX + 1) + rest, Int32) == Got(INT32_MIN, |Digits(INT32_MAX + 1)|)
  {
    SignedRoundTrip([], INT32_MAX + 1, rest, Int32);
    assert [] + Decimal(INT32_MAX + 1) + rest == Digits(INT32_MAX + 1) + rest;
    assert Wrap(INT32_MAX + 1 - TWO32, Int32) == INT32_MIN;
  }

  /** The decimal form of n with no blanks in front is read back as n wrapped. */
  lemma UnsignedTokenRead(n: nat, rest: seq<byte>, w: Width)
    requires !IsDigit(At(rest, 0))
    ensures ReadUnsigned(Digits(n) + rest, w) == Got(Wrap(n, w), |Digits(n)|)
  {
    var t := Digits(n) + rest;
    assert t[0] == Digits(n)[0];
    UnsignedAfterBlanks([], t, w);
    assert [] + t == t;
    UnsignedTokenDigits(n, rest, w);
  }

  /** %u silently wraps: 4294967296 is stored as 0. */
  lemma UIntWraps(rest: seq<byte>)
    requires !IsDigit(At(rest, 0))
    ensures ReadUnsigned(Digits(UINT32_MAX + 1) + rest, UInt32) == Got(0, |Digits(UINT32_MAX + 1)|)
  {
    UnsignedTokenRead(UINT32_MAX + 1, rest, UInt32);
    assert Wrap(UINT32_MAX + 1, UInt32) == 0;
  }

  /** A sign with no digit after it fails, and the sign is consumed. */
  lemma SignWithoutDigit(ws: seq<byte>, c: byte, rest: seq<byte>, w: Width)
    requires AllBlank(ws) && IsSign(c) && !IsDigit(At(rest, 0))
    ensures ReadSigned(ws + [c] + rest, w) == Fail(|ws| + 1)
  {
    var t := [c] + rest;
    assert ws + [c] + rest == ws + t;
    SkipBlanks(ws, t);
    assert t[1..] == rest;
    RunMaximal(rest, Digit);
  }

  /** The unsigned readers take no sign: they fail before it, consuming only the blanks. */
  lemma UnsignedRejectsSign(ws: seq<byte>, c: byte, rest: seq<byte>, w: Width)
    requires AllBlank(ws) && IsSign(c)
    ensures ReadUnsigned(ws + [c] + rest, w) == Fail(|ws|)
  {
    var t := [c] + rest;
    assert ws + [c] + rest == ws + t;
    SkipBlanks(ws, t);
  }

  /** A '.' and digits after it, or nothing. */
  predicate FractionText(fr: seq<int>) {
    fr == [] || (fr[0] == DOT && AllDigits(fr[1..]))
  }

  /** An optional sign, then digits (possibly none). */
  predicate SignedDigitsText(x: seq<int>) {
    AllDigits(x) || (x != [] && IsSign(x[0]) && AllDigits(x[1..]))
  }

  /** 'e' or 'E', an optional sign and digits (possibly none), or nothing. */
  predicate ExponentText(ex: seq<int>) {
    ex == [] || (IsExponentMark(ex[0]) && SignedDigitsText(ex[1..]))
  }

  /** A symbol that continues no part of a floating-point token: no digit, '.', 'e', 'E' or sign, or the end. */
  predicate EndsReal(c: int) {
    !IsDigit(c) && c != DOT && !IsExponentMark(c) && !IsSign(c)
  }

  /** The exponent's sign and digits run to their end. */
  lemma SignedDigitsLength(x: seq<byte>, rest: seq<byte>)
    requires SignedDigitsText(x) && EndsReal(At(rest, 0))
    ensures SignedLength(x + rest) == |x|
  {
    var t := x + rest;
    var p := if x != [] && IsSign(x[0]) then 1 else 0;
    assert At(t, 0) == (if x == [] then At(rest, 0) else x[0]);
    assert t[p..] == x[p..] + rest;
    DigitsRun(x[p..], rest);
  }

  /** An exponent, or nothing, runs to its end. */
  lemma ExponentLength(ex: seq<byte>, rest: seq<byte>)
    requires ExponentText(ex) && EndsReal(At(rest, 0))
    ensures Exponent(ex + rest) == |ex|
  {
    if ex != [] {
      assert (ex + rest)[1..] == ex[1..] + rest;
      SignedDigitsLength(ex[1..], rest);
    }
  }

  /** A fraction, or nothing, runs to its end when a byte that is no digit follows and, without a fraction, no '.'. */
  lemma FractionLength(fr: seq<byte>, rest: seq<byte>)
    requires FractionText(fr) && !IsDigit(At(rest, 0)) && (fr == [] ==> At(rest, 0) != DOT)
    ensures Fraction(fr + rest) == |fr|
  {
    if fr != [] {
      assert (fr + rest)[1..] == fr[1..] + rest;
      DigitsRun(fr[1..], rest);
    }
  }

  /** The first byte after digits, a fraction and an exponent: what would continue one of them is excluded. */
  lemma AfterFraction(fr: seq<byte>, ex: seq<byte>, rest: seq<byte>)
    requires FractionText(fr) && ExponentText(ex) && EndsReal(At(rest, 0))
    ensures var c := At(fr + ex + rest, 0); !IsDigit(c) && (fr == [] ==> c != DOT)
    ensures var c := At(ex + rest, 0); !IsDigit(c) && c != DOT
  {
  }

  /** After the digits, a fraction and an exponent make up FractionExponent. */
  lemma FractionExponentText(fr: seq<byte>, ex: seq<byte>, rest: seq<byte>)
    requires FractionText(fr) && ExponentText(ex) && EndsReal(At(rest, 0))
    ensures FractionExponent(fr + ex + rest) == |fr| + |ex|
  {
    var v := fr + ex + rest;
    AfterFraction(fr, ex, rest);
    assert v == fr + (ex + rest);
    FractionLength(fr, ex + rest);
    assert v[|fr|..] == ex + rest;
    ExponentLength(ex, rest);
  }

  /** After the sign, digits, a fraction and an exponent make up RealLength. */
  lemma RealLengthText(ds: seq<byte>, fr: seq<byte>, ex: seq<byte>, rest: seq<byte>)
    requires AllDigits(ds) && FractionText(fr) && ExponentText(ex) && EndsReal(At(rest, 0))
    ensures RealLength(ds + fr + ex + rest) == |ds| + |fr| + |ex|
  {
    var v := fr + ex + rest;
    assert ds + fr + ex + rest == ds + v;
    AfterFraction(fr, ex, rest);
    DigitsRun(ds, v);
    FractionExponentText(fr, ex, rest);
  }

  /** An optional sign in front of a byte that is no sign: the sign is exactly what RealToken takes as one. */
  lemma SignPrefix(sg: seq<byte>, u: seq<byte>)
    requires OptionalSign(sg) && u != [] && !IsSign(u[0])
    ensures var t := sg + u; t != [] && (if IsSign(t[0]) then 1 else 0) == |sg| && t[|sg|..] == u && At(t, |sg|) == u[0]
  {
    var t := sg + u;
    assert t[0] == (if sg != [] then sg[0] else u[0]);
  }

  /** The floating-point token, from its first byte: it is read whole and the byte after it stays unread. */
  lemma RealTokenText(sg: seq<byte>, ds: seq<byte>, fr: seq<byte>, ex: seq<byte>, rest: seq<byte>)
    requires OptionalSign(sg) && AllDigits(ds) && FractionText(fr) && ExponentText(ex) && EndsReal(At(rest, 0))
    requires ds != [] || fr != []
    ensures var tok := sg + ds + fr + ex; RealToken(tok + rest) == Got(tok, |tok|)
  {
    var tok := sg + ds + fr + ex;
    var u := ds + fr + ex + rest;
    var t := tok + rest;
    assert t == sg + u;
    assert u[0] == (if ds != [] then ds[0] else DOT);
    SignPrefix(sg, u);
    RealTokenGot(t, |sg|);
    RealLengthText(ds, fr, ex, rest);
    assert t[..|tok|] == tok;
  }

  /**
   * printf("%f"), "%e" or "%g" then yread_double_ok: after the blanks, the
   * sign, the digits, the fraction and the exponent are read as one token and
   * recorded, and the byte after it stays unread. "1.23e4" is read whole.
   */
  lemma RealRoundTrip(ws: seq<byte>, sg: seq<byte>, ds: seq<byte>, fr: seq<byte>, ex: seq<byte>, rest: seq<byte>)
    requires AllBlank(ws) && OptionalSign(sg) && AllDigits(ds) && FractionText(fr) && ExponentText(ex)
    requires ds != [] || fr != []
    requires EndsReal(At(rest, 0))
    ensures var tok := sg + ds + fr + ex; ReadReal(ws + tok + rest) == Got(tok, |ws| + |tok|)
  {
    var tok := sg + ds + fr + ex;
    var t := tok + rest;
    assert ws + tok + rest == ws + t;
    RealTokenText(sg, ds, fr, ex, rest);
    assert t[0] == (if sg != [] then sg[0] else if ds != [] then ds[0] else DOT);
    assert Run(t, Blank) == 0 && t[0..] == t;
    RealShifts(ws, t);
  }

  /**
   * yread_double_ok fails exactly when only blanks are left, or when after the
   * blanks and an optional sign comes neither a digit nor a '.'; the blanks
   * and the sign stay consumed.
   */
  lemma RealFails(s: seq<byte>)
    ensures var n := Run(s, Blank); var t := s[n..]; var p := if t != [] && IsSign(t[0]) then 1 else 0;
      ReadReal(s).Fail? <==> t == [] || (!IsDigit(At(t, p)) && At(t, p) != DOT)
    ensures var n := Run(s, Blank); var t := s[n..]; var p := if t != [] && IsSign(t[0]) then 1 else 0;
      ReadReal(s).Fail? ==> ReadReal(s).used == n + p
  {
  }

  /** yread_str_ok fails exactly when nothing but blanks is left. */
  lemma WordFailsOnlyAtEnd(s: seq<byte>)
    ensures ReadWord(s).Fail? <==> AllBlank(s)
  {
    RunMaximal(s, Blank);
    if AllBlank(s) {
      RunUnique(s, Blank, |s|);
    }
  }

  /** A printed word comes back; the blank after it stays unread. */
  lemma WordRoundTrip(ws: seq<byte>, word: seq<byte>, rest: seq<byte>)
    requires AllBlank(ws) && word != [] && forall i :: 0 <= i < |word| ==> !IsSpace(word[i])
    requires rest == [] || IsSpace(rest[0])
    ensures ReadWord(ws + word + rest) == Got(word, |ws| + |word|)
  {
    var t := word + rest;
    assert ws + word + rest == ws + t;
    assert t[0] == word[0];
    SkipBlanks(ws, t);
    assert forall i :: 0 <= i < |word| ==> t[i] == word[i];
    if |word| < |t| {
      assert t[|word|] == rest[0];
    }
    RunUnique(t, NonBlank, |word|);
    assert t[..|word|] == word;
  }

  /** Blanks in front lengthen the blank run and leave the same bytes after it. */
  lemma BlanksInFront(ws: seq<byte>, s: seq<byte>)
    requires AllBlank(ws)
    ensures Run(ws + s, Blank) == |ws| + Run(s, Blank)
    ensures (ws + s)[Run(ws + s, Blank)..] == s[Run(s, Blank)..]
  {
    RunBlankPrefix(ws, s);
    assert (ws + s)[|ws| + Run(s, Blank)..] == s[Run(s, Blank)..];
  }

  lemma StoreShift<T>(r: Read<T>, k: nat, slot: T -> Slot)
    ensures Store(Shift(r, k), slot) == Shift(Store(r, slot), k)
  {
  }

  /** Every reader but %c first skips the blanks: blanks in front only shift its result. */
  lemma ConvertAfterBlanks(conv: Conv, ws: seq<byte>, s: seq<byte>)
    requires conv != CharConv && AllBlank(ws)
    ensures Convert(conv, ws + s) == Shift(Convert(conv, s), |ws|)
  {
    match conv
    case IntConv =>
      SignedShifts(ws, s, Int32);
      StoreShift(ReadSigned(s, Int32), |ws|, v => IntSlot(v));
    case UIntConv =>
      UnsignedShifts(ws, s, UInt32);
      StoreShift(ReadUnsigned(s, UInt32), |ws|, v => UIntSlot(v));
    case LongConv =>
      SignedShifts(ws, s, Int64);
      StoreShift(ReadSigned(s, Int64), |ws|, v => LongSlot(v));
    case ULongConv =>
      UnsignedShifts(ws, s, UInt64);
      StoreShift(ReadUnsigned(s, UInt64), |ws|, v => ULongSlot(v));
    case RealConv(_) =>
      RealShifts(ws, s);
      StoreShift(ReadReal(s), |ws|, v => RealSlot(v));
    case WordConv =>
      WordShifts(ws, s);
      StoreShift(ReadWord(s), |ws|, v => WordSlot(v));
  }

  /** Extra blanks in front of the signed readers are consumed too, and change nothing else. */
  lemma SignedShifts(ws: seq<byte>, s: seq<byte>, w: Width)
    requires AllBlank(ws)
    ensures ReadSigned(ws + s, w) == Shift(ReadSigned(s, w), |ws|)
  {
    BlanksInFront(ws, s);
  }

  /** Extra blanks in front of the unsigned readers are consumed too, and change nothing else. */
  lemma UnsignedShifts(ws: seq<byte>, s: seq<byte>, w: Width)
    requires AllBlank(ws)
    ensures ReadUnsigned(ws + s, w) == Shift(ReadUnsigned(s, w), |ws|)
  {
    BlanksInFront(ws, s);
  }

  /** Extra blanks in front of yread_double_ok are consumed too, and change nothing else. */
  lemma RealShifts(ws: seq<byte>, s: seq<byte>)
    requires AllBlank(ws)
    ensures ReadReal(ws + s) == Shift(ReadReal(s), |ws|)
  {
    BlanksInFront(ws, s);
  }

  /** Extra blanks in front of yread_str_ok are consumed too, and change nothing else. */
  lemma WordShifts(ws: seq<byte>, s: seq<byte>)
    requires AllBlank(ws)
    ensures ReadWord(ws + s) == Shift(ReadWord(s), |ws|)
  {
    BlanksInFront(ws, s);
    RunMaximal(s, Blank);
  }

  /**
   * ygetline_ok keeps at most maxlen-1 bytes, all of them from the front of
   * the line and none of them a line break.
   */
  lemma LineTruncates(s: seq<byte>, maxlen: int)
    requires FirstLine(s, maxlen).Got?
    ensures var line := FirstLine(s, maxlen).value;
      |line| <= (if maxlen <= 1 then 0 else maxlen - 1) && line == s[..|line|]
      && forall i :: 0 <= i < |line| ==> !IsLineBreak(line[i])
  {
    RunMaximal(s, LineChar);
  }

  /**
   * A line that fits comes back whole, and its terminator is consumed: "\n",
   * "\r", "\r\n" as one, or the end of the input.
   */
  lemma LineRoundTrip(line: seq<byte>, term: seq<byte>, rest: seq<byte>, maxlen: int)
    requires forall i :: 0 <= i < |line| ==> !IsLineBreak(line[i])
    requires term == [] || term == [LF] || term == [CR] || term == [CR, LF]
    requires term == [] ==> rest == [] && line != []
    requires term == [CR] ==> At(rest, 0) != LF
    requires |line| < maxlen
    ensures FirstLine(line + term + rest, maxlen) == Got(line, |line| + |term|)
  {
    var s := line + term + rest;
    assert forall i :: 0 <= i < |line| ==> s[i] == line[i];
    if |line| < |s| {
      assert s[|line|] == term[0];
    }
    RunUnique(s, LineChar, |line|);
    assert s[..|line|] == line;
    if term == [CR] {
      assert At(s, |line| + 1) == At(rest, 0);
    }
  }

  /** yread_line_ok skips the line breaks ahead, then reads the line that follows them. */
  lemma NextLineSkipsBreaks(bs: seq<byte>, s: seq<byte>, maxlen: int)
    requires forall i :: 0 <= i < |bs| ==> IsLineBreak(bs[i])
    requires !IsLineBreak(At(s, 0))
    ensures NextLine(bs + s, maxlen) == Shift(FirstLine(s, maxlen), |bs|)
  {
    var t := bs + s;
    assert forall i :: 0 <= i < |bs| ==> t[i] == bs[i];
    if |bs| < |t| {
      assert t[|bs|] == s[0];
    }
    RunUnique(t, LineBreak, |bs|);
    assert t[|bs|..] == s;
  }

  /**
   * The conversions a format names from position `i` on, in order, up to the
   * first specifier yscanf3.h rejects: the types of the output arguments.
   */
  function Convs(fmt: string, i: nat): seq<Conv>
    requires i <= |fmt|
    decreases |fmt| - i
  {
    var c := FmtAt(fmt, i);
    if c == '\0' then []
    else if c != '%' then Convs(fmt, i + 1)
    else
      match Directive(fmt, i + 1)
      case None => []
      case Some((conv, j)) => [conv] + Convs(fmt, j)
  }

  /**
   * yscanf stores into the arguments in order, each slot of the type its
   * directive names, and never more slots than the format has directives.
   */
  lemma {:induction false} SlotsFollowFormat(fmt: string, i: nat, s: seq<byte>, slots: seq<Slot>)
    requires i <= |fmt|
    ensures var o := Dispatch(fmt, i, s, slots); var cs := Convs(fmt, i);
      |o.slots| <= |slots| + |cs| && forall k :: 0 <= k < |o.slots| - |slots| ==> Stores(cs[k], o.slots[|slots| + k])
    decreases |fmt| - i
  {
    var c := FmtAt(fmt, i);
    if c == '\0' {
    } else if IsFmtSpace(c) {
      SlotsFollowFormat(fmt, i + 1, s[Run(s, Blank)..], slots);
    } else if c != '%' {
      SlotsFollowFormat(fmt, i + 1, s, slots);
    } else {
      match Directive(fmt, i + 1)
      case None =>
      case Some((conv, j)) =>
        match Convert(conv, s)
        case Fail(u) =>
        case Got(v, u) =>
          SlotsFollowFormat(fmt, j, s[u..], slots + [v]);
          var o := Dispatch(fmt, j, s[u..], slots + [v]);
          var cs := Convs(fmt, j);
          forall k | 0 <= k < |o.slots| - |slots|
            ensures Stores(([conv] + cs)[k], o.slots[|slots| + k])
          {
            if k == 0 {
              assert o.slots[..|slots| + 1] == slots + [v];
              assert o.slots[|slots|] == v;
            } else {
              assert o.slots[|slots| + 1 + (k - 1)] == o.slots[|slots| + k];
            }
          }
    }
  }

  /** Every '%' from position `i` on names a conversion yscanf3.h knows. */
  predicate Recognised(fmt: string, i: nat)
    requires i <= |fmt|
    decreases |fmt| - i
  {
    var c := FmtAt(fmt, i);
    if c == '\0' then true
    else if c != '%' then Recognised(fmt, i + 1)
    else
      match Directive(fmt, i + 1)
      case None => false
      case Some((_, j)) => Recognised(fmt, j)
  }

  /**
   * What yscanf returns over a whole format. With every '%' recognised it
   * returns the count, or EOF when a conversion failed before any stored.
   * When every conversion before the first unknown specifier stored its
   * slot, it returns -1 exactly when there is such a specifier. So -1 after
   * a stored slot comes only from an unknown specifier.
   */
  lemma {:induction false} ReturnFollowsFormat(fmt: string, i: nat, s: seq<byte>, slots: seq<Slot>)
    requires i <= |fmt|
    ensures var o := Dispatch(fmt, i, s, slots);
      Recognised(fmt, i) ==> o.ret == |o.slots| || (o.ret == EOF && o.slots == [])
    ensures var o := Dispatch(fmt, i, s, slots);
      |o.slots| == |slots| + |Convs(fmt, i)| ==> (o.ret == EOF <==> !Recognised(fmt, i))
    ensures var o := Dispatch(fmt, i, s, slots); o.ret == EOF && o.slots != [] ==> !Recognised(fmt, i)
    decreases |fmt| - i
  {
    var c := FmtAt(fmt, i);
    if c == '\0' {
    } else if IsFmtSpace(c) {
      ReturnFollowsFormat(fmt, i + 1, s[Run(s, Blank)..], slots);
    } else if c != '%' {
      ReturnFollowsFormat(fmt, i + 1, s, slots);
    } else {
      match Directive(fmt, i + 1)
      case None =>
      case Some((conv, j)) =>
        match Convert(conv, s)
        case Fail(u) =>
        case Got(v, u) =>
          ReturnFollowsFormat(fmt, j, s[u..], slots + [v]);
    }
  }

  predicate IsSuffix(r: seq<byte>, s: seq<byte>) {
    |r| <= |s| && r == s[|s| - |r|..]
  }

  /** A suffix of what is left after the first `k` bytes is a suffix of the whole. */
  lemma SuffixOfRest(s: seq<byte>, k: nat, r: seq<byte>)
    requires k <= |s| && IsSuffix(r, s[k..])
    ensures IsSuffix(r, s)
  {
    assert s[k..][|s| - k - |r|..] == s[|s| - |r|..];
  }

  /** What yscanf leaves unread is a suffix of its input. */
  lemma {:induction false} DispatchLeavesSuffix(fmt: string, i: nat, s: seq<byte>, slots: seq<Slot>)
    requires i <= |fmt|
    ensures IsSuffix(Dispatch(fmt, i, s, slots).rest, s)
    decreases |fmt| - i
  {
    var c := FmtAt(fmt, i);
    if c == '\0' {
    } else if IsFmtSpace(c) {
      var k := Run(s, Blank);
      DispatchLeavesSuffix(fmt, i + 1, s[k..], slots);
      SuffixOfRest(s, k, Dispatch(fmt, i + 1, s[k..], slots).rest);
    } else if c != '%' {
      DispatchLeavesSuffix(fmt, i + 1, s, slots);
    } else {
      match Directive(fmt, i + 1)
      case None =>
      case Some((conv, j)) =>
        match Convert(conv, s)
        case Fail(u) =>
        case Got(v, u) =>
          DispatchLeavesSuffix(fmt, j, s[u..], slots + [v]);
          SuffixOfRest(s, u, Dispatch(fmt, j, s[u..], slots + [v]).rest);
    }
  }

  /** A format without '%' stores nothing and returns 0, whatever the input. */
  lemma {:induction false} NoDirectives(fmt: string, i: nat, s: seq<byte>)
    requires i <= |fmt| && forall k :: i <= k < |fmt| ==> fmt[k] != '%'
    ensures var o := Dispatch(fmt, i, s, []); o.ret == 0 && o.slots == []
    decreases |fmt| - i
  {
    var c := FmtAt(fmt, i);
    if c == '\0' {
    } else if IsFmtSpace(c) {
      NoDirectives(fmt, i + 1, s[Run(s, Blank)..]);
    } else {
      NoDirectives(fmt, i + 1, s);
    }
  }

  /** %c takes the next byte as it is, a blank included. */
  lemma CharTakesBlank(c: byte, rest: seq<byte>)
    ensures Scan("%c", [c] + rest) == Outcome(1, [CharSlot(c)], rest)
  {
    assert ([c] + rest)[1..] == rest;
  }

  /** A blank in the format skips the blanks of the input at once. */
  lemma FormatBlankSkips(ws: seq<byte>, rest: seq<byte>)
    requires AllBlank(ws) && !IsSpace(At(rest, 0))
    ensures Scan(" ", ws + rest) == Outcome(0, [], rest)
  {
    SkipBlanks(ws, rest);
  }

  /** %d on a byte that cannot start a numeral fails without consuming it. */
  lemma IntRejects(c: byte, rest: seq<byte>)
    requires !IsDigit(c) && !IsSign(c) && !IsSpace(c)
    ensures Convert(IntConv, [c] + rest) == Fail(0)
  {
    var t := [c] + rest;
    assert Run(t, Blank) == 0 && t[0..] == t;
    assert Run(t, Digit) == 0;
  }

  /** %d reading a printed value. */
  lemma IntReads(v: int, c: byte, rest: seq<byte>)
    requires !IsDigit(c)
    ensures Convert(IntConv, Decimal(v) + [c] + rest) == Got(IntSlot(Wrap(v, Int32)), |Decimal(v)|)
  {
    assert [] + Decimal(v) + ([c] + rest) == Decimal(v) + [c] + rest;
    SignedRoundTrip([], v, [c] + rest, Int32);
  }

  /** What follows a prefix that has been read. */
  lemma AfterPrefix(a: seq<byte>, b: seq<byte>, rest: seq<byte>)
    ensures (a + b + rest)[|a|..] == b + rest
  {
  }

  /** A conversion that reads stores its slot, and yscanf goes on after the specifier with the rest of the input. */
  lemma ConversionStores(fmt: string, i: nat, s: seq<byte>, slots: seq<Slot>, conv: Conv, j: nat)
    requires i < |fmt| && fmt[i] == '%' && Directive(fmt, i + 1) == Some((conv, j)) && Convert(conv, s).Got?
    ensures var r := Convert(conv, s); Dispatch(fmt, i, s, slots) == Dispatch(fmt, j, s[r.used..], slots + [r.value])
  {
  }

  /** A conversion that fails ends yscanf with the count so far, EOF when it is 0; what the reader consumed stays consumed. */
  lemma ConversionFails(fmt: string, i: nat, s: seq<byte>, slots: seq<Slot>, conv: Conv, j: nat)
    requires i < |fmt| && fmt[i] == '%' && Directive(fmt, i + 1) == Some((conv, j)) && Convert(conv, s).Fail?
    ensures Dispatch(fmt, i, s, slots) == Outcome(if |slots| == 0 then EOF else |slots|, slots, s[Convert(conv, s).used..])
  {
  }

  /** %d at position `i` reads a printed value, stores it and goes on after the specifier. */
  lemma IntStoresAt(fmt: string, i: nat, v: int, c: byte, rest: seq<byte>, slots: seq<Slot>)
    requires i + 1 < |fmt| && fmt[i] == '%' && fmt[i + 1] == 'd' && !IsDigit(c)
    ensures Dispatch(fmt, i, Decimal(v) + [c] + rest, slots) == Dispatch(fmt, i + 2, [c] + rest, slots + [IntSlot(Wrap(v, Int32))])
  {
    IntReads(v, c, rest);
    AfterPrefix(Decimal(v), [c], rest);
    assert Directive(fmt, i + 1) == Some((IntConv, i + 2));
    ConversionStores(fmt, i, Decimal(v) + [c] + rest, slots, IntConv, i + 2);
  }

  /** %d at position `i` on a byte that starts no numeral ends yscanf, consuming nothing. */
  lemma IntFailsAt(fmt: string, i: nat, c: byte, rest: seq<byte>, slots: seq<Slot>)
    requires i + 1 < |fmt| && fmt[i] == '%' && fmt[i + 1] == 'd' && !IsDigit(c) && !IsSign(c) && !IsSpace(c)
    ensures Dispatch(fmt, i, [c] + rest, slots) == Outcome(if |slots| == 0 then EOF else |slots|, slots, [c] + rest)
  {
    assert Directive(fmt, i + 1) == Some((IntConv, i + 2));
    IntRejects(c, rest);
    ConversionFails(fmt, i, [c] + rest, slots, IntConv, i + 2);
    assert ([c] + rest)[0..] == [c] + rest;
  }

  /** A failed conversion after a stored one returns the count, 1, not EOF. */
  lemma FailureAfterStore(s: seq<byte>)
    requires Convert(IntConv, s).Got?
    requires Convert(IntConv, s[Convert(IntConv, s).used..]).Fail?
    ensures var r := Convert(IntConv, s); var t := s[r.used..];
      Scan("%d%d", s) == Outcome(1, [r.value], t[Convert(IntConv, t).used..])
  {
    var fmt := "%d%d";
    var r := Convert(IntConv, s);
    assert Directive(fmt, 1) == Some((IntConv, 2));
    ConversionStores(fmt, 0, s, [], IntConv, 2);
    assert Directive(fmt, 3) == Some((IntConv, 4));
    ConversionFails(fmt, 2, s[r.used..], [] + [r.value], IntConv, 4);
  }

  /** "%lf" is rejected with -1, even after a stored conversion, and reads nothing more. */
  lemma LongRealRejected(s: seq<byte>)
    requires Convert(IntConv, s).Got?
    ensures var r := Convert(IntConv, s); Scan("%d%lf", s) == Outcome(-1, [r.value], s[r.used..])
  {
    var fmt := "%d%lf";
    var r := Convert(IntConv, s);
    assert Directive(fmt, 1) == Some((IntConv, 2));
    ConversionStores(fmt, 0, s, [], IntConv, 2);
    assert Directive(fmt, 3) == None;
    UnknownStops(fmt, 2, s[r.used..], [r.value]);
  }

  /** An unrecognised specifier returns -1 with the slots stored so far, and reads nothing. */
  lemma UnknownStops(fmt: string, i: nat, s: seq<byte>, slots: seq<Slot>)
    requires i < |fmt| && fmt[i] == '%' && Directive(fmt, i + 1) == None
    ensures Dispatch(fmt, i, s, slots) == Outcome(EOF, slots, s)
  {
  }

  /** The first conversion failing on an input of blanks returns EOF. */
  lemma BlanksGiveEOF(ws: seq<byte>)
    requires AllBlank(ws)
    ensures Scan("%d", ws).ret == EOF
  {
    RunUnique(ws, Blank, |ws|);
  }
}
