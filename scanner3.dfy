/**
 * yscanf3.h, the "EOF-correct" scanner: a buffer over stdin with an
 * end-of-file latch, its byte primitives, the token readers and the
 * format-driven dispatcher. The source's globals `ybuf`, `yptr`, `yend` and
 * `yeof` become the fields of one Scanner object.
 */
module Scanner3 {
  import opened Bytes
  import opened Numerals
  import opened Stream
  import opened Format
  import opened Grammar3

  /** Taking the first of the buffered bytes leaves the rest of the buffer, then the stream. */
  lemma TakeFirst(buf: seq<byte>, i: nat, j: nat, input: seq<byte>)
    requires i < j <= |buf|
    ensures (buf[i..j] + input)[0] == buf[i]
    ensures (buf[i..j] + input)[1..] == buf[i + 1..j] + input
  {
    assert buf[i..j] == [buf[i]] + buf[i + 1..j];
  }

  /** Within a maximal run, the symbol at `k` is in the class exactly when the run goes on past `k`. */
  lemma RunAt(s: seq<byte>, k: nat, cls: Class)
    requires k <= Run(s, cls)
    ensures In(At(s, k), cls) <==> k < Run(s, cls)
  {
    RunMaximal(s, cls);
    if k < Run(s, cls) {
      assert In(s[k], cls);
    }
  }

  /** Consuming the symbol at `k`: what the next read sees before and after, and what was read. */
  lemma Advance(s: seq<byte>, k: nat)
    requires k < |s|
    ensures At(s[k..], 0) == s[k] && Drop(s[k..], 1) == s[k + 1..] && At(s[k + 1..], 0) == At(s, k + 1)
    ensures s[..k] + [s[k]] == s[..k + 1]
  {
  }

  /** Reading `b` more bytes after the first `a`. */
  lemma Split(t: seq<byte>, a: nat, b: nat)
    requires a + b <= |t|
    ensures t[..a] + t[a..][..b] == t[..a + b] && t[a..][b..] == t[a + b..]
  {
  }

  /** A reader run after `n` skipped bytes leaves what the shifted result says. */
  lemma AfterSkip<T>(s: seq<byte>, n: nat, r: Read<T>)
    requires n <= |s| && r.used <= |s| - n
    ensures s[n..][r.used..] == s[Shift(r, n).used..]
  {
  }

  /** Reading on from position `j` when what is left is `Drop(s, j)`. */
  lemma AdvanceDrop(s: seq<byte>, j: nat)
    ensures At(Drop(s, j), 0) == At(s, j) && Drop(Drop(s, j), 1) == Drop(s, j + 1)
  {
  }

  /** One step of the line loop: the byte at `i` is kept exactly when the line buffer has room. */
  lemma KeptStep(s: seq<byte>, i: nat, maxlen: int)
    requires i < |s|
    ensures s[..Kept(i + 1, maxlen)]
      == if Kept(i, maxlen) < maxlen - 1 then s[..Kept(i, maxlen)] + [s[i]] else s[..Kept(i, maxlen)]
  {
    if Kept(i, maxlen) < maxlen - 1 {
      assert s[..i + 1] == s[..i] + [s[i]];
    }
  }

  /** One step of the digit loop. */
  lemma DigitStep(s: seq<byte>, k: nat, w: Width)
    requires k < Run(s, Digit)
    ensures Accumulated(s, k + 1, w) == Push(Accumulated(s, k, w), s[k], w)
  {
  }

  /** A '.' and the digits after it: the fraction's length, and the bytes read in two parts. */
  lemma DotDigits(u: seq<byte>)
    requires u != [] && u[0] == DOT
    ensures var d := Run(u[1..], Digit);
      Fraction(u) == 1 + d && At(u, 0) == u[0] && Drop(u, 1) == u[1..]
      && [u[0]] + u[1..][..d] == u[..1 + d] && u[1..][d..] == u[1 + d..]
  {
    var d := Run(u[1..], Digit);
    assert u[..1 + d] == [u[0]] + u[1..][..d];
  }

  /** Without a digit or a '.' after the sign there is no floating-point token; the sign stays read. */
  lemma RealTokenFail(t: seq<byte>, p: nat)
    requires t != [] && p == (if IsSign(t[0]) then 1 else 0) && !IsDigit(At(t, p)) && At(t, p) != DOT
    ensures RealToken(t) == Fail(p)
  {
  }

  /**
   * The floating-point token read in two parts: the sign `p`, then, when a digit
   * or a '.' follows, RealLength more bytes; otherwise the sign alone is consumed.
   */
  lemma RealTokenParts(t: seq<byte>, p: nat, ok: bool)
    requires t != [] && p == (if IsSign(t[0]) then 1 else 0) && ok == (IsDigit(At(t[p..], 0)) || At(t[p..], 0) == DOT)
    ensures var n := RealLength(t[p..]); var r := RealToken(t);
      ok == r.Got? && (ok ==> r.value == t[..p] + t[p..][..n] && t[r.used..] == t[p..][n..]) && (!ok ==> t[r.used..] == t[p..])
  {
    assert At(t[p..], 0) == At(t, p);
    if ok {
      RealTokenGot(t, p);
      Split(t, p, RealLength(t[p..]));
    } else {
      RealTokenFail(t, p);
    }
  }

  class Scanner {
    /** ybuf, and its size */
    var buf: seq<byte>
    const capacity: nat
    /** yptr and yend, as offsets into ybuf */
    var ptr: nat
    var end: nat
    /** yeof: set by the first zero-length fread, never cleared */
    var eof: bool
    /** the bytes stdin has not handed to fread yet, up to its first zero-length read */
    var input: seq<byte>

    /** how many times fread has been called */
    ghost var freads: nat
    /** the bytes the next yget calls return, in order, before EOF */
    ghost var avail: seq<byte>

    /**
     * The cursors stay inside the buffer, a latched EOF leaves it empty, and
     * the bytes still to come are the rest of the buffer followed by what
     * stdin has not delivered yet.
     */
    ghost predicate Valid()
      reads this
    {
      && 0 < capacity == |buf|
      && ptr <= end <= |buf|
      && (eof ==> ptr == end)
      && (eof ==> avail == [])
      && (!eof ==> avail == buf[ptr..end] + input)
    }

    constructor (size: nat, data: seq<byte>)
      requires size > 0
      ensures Valid() && capacity == size
      ensures ptr == end == 0 && !eof && freads == 0
      ensures avail == data
    {
      capacity := size;
      buf := seq(size, i => 0);
      ptr, end, eof := 0, 0, false;
      input := data;
      freads := 0;
      avail := data;
    }

    /** fread(ybuf, 1, sizeof(ybuf), stdin). */
    method ReadStream() returns (n: nat)
      requires 0 < capacity == |buf|
      modifies this`input, this`freads, this`buf
      ensures var r := Fread(old(input), capacity); n == |r.0| && |buf| == capacity && buf[..n] == r.0 && input == r.1
      ensures freads == old(freads) + 1
    {
      var r := Fread(input, capacity);
      n := |r.0|;
      buf := r.0 + buf[n..];
      input := r.1;
      freads := freads + 1;
    }

    /**
     * The refill yget and ypeek both start with: only on an empty buffer,
     * and never again once yeof is set; a zero-length read sets yeof.
     * Afterwards the buffer holds a byte exactly when the stream has not ended.
     */
    method Fill() returns (ready: bool)
      requires Valid()
      modifies this
      ensures Valid() && avail == old(avail)
      ensures ready == !eof && ready == (ptr < end) && ready == (avail != [])
      ensures old(eof) ==> eof && freads == old(freads) && input == old(input)
      ensures old(ptr) < old(end) ==> ptr == old(ptr) && end == old(end) && freads == old(freads)
      ensures old(ptr) >= old(end) && !old(eof) ==> freads == old(freads) + 1 && (ready ==> ptr == 0)
    {
      if ptr >= end {
        if eof {
          return false;
        }
        ghost var before := input;
        assert buf[ptr..end] == [];
        var n := ReadStream();
        if n == 0 {
          eof := true;
          return false;
        }
        ptr, end := 0, n;
        assert buf[ptr..end] + input == before;
      }
      ready := true;
    }

    /** yget: the next byte, consumed; EOF when the stream has ended. */
    method Get() returns (c: int)
      requires Valid()
      modifies this
      ensures Valid()
      ensures c == At(old(avail), 0) && avail == Drop(old(avail), 1)
      ensures c == EOF ==> eof
      ensures old(eof) ==> freads == old(freads)
    {
      var ready := Fill();
      if !ready {
        return EOF;
      }
      TakeFirst(buf, ptr, end, input);
      c := buf[ptr];
      ptr := ptr + 1;
      avail := avail[1..];
    }

    /** ypeek: the byte the next yget returns, not consumed. */
    method Peek() returns (c: int)
      requires Valid()
      modifies this
      ensures Valid() && avail == old(avail)
      ensures c == At(avail, 0)
      ensures c == EOF ==> eof
      ensures old(eof) ==> freads == old(freads)
    {
      var ready := Fill();
      if !ready {
        return EOF;
      }
      c := buf[ptr];
    }

    /** yskip_space: consumes the blanks ahead, and nothing else. */
    method SkipSpace()
      requires Valid()
      modifies this
      ensures Valid()
      ensures avail == old(avail)[Run(old(avail), Blank)..]
    {
      ghost var s := avail;
      ghost var k := 0;
      var c := Peek();
      while c != EOF && IsSpace(c)
        invariant Valid()
        invariant 0 <= k <= Run(s, Blank) && avail == s[k..] && c == At(s, k)
        decreases |s| - k
      {
        RunAt(s, k, Blank);
        Advance(s, k);
        c := Get();
        c := Peek();
        k := k + 1;
      }
      RunAt(s, k, Blank);
    }

    /**
     * The digits of the signed and unsigned readers: at least one digit must
     * come, and the loop accumulates into a 64-bit variable that wraps.
     */
    method ReadDigits(w: Width) returns (ok: bool, x: int)
      requires Valid() && (w == Int64 || w == UInt64)
      modifies this
      ensures Valid()
      ensures var d := Run(old(avail), Digit);
        ok == (d > 0) && (ok ==> x == Accumulated(old(avail), d, w)) && avail == old(avail)[d..]
    {
      ghost var s := avail;
      ghost var d := Run(s, Digit);
      ghost var k := 0;
      var c := Peek();
      RunAt(s, 0, Digit);
      if c < ZERO || c > NINE {
        return false, 0;
      }
      x := 0;
      while ZERO <= c <= NINE
        invariant Valid()
        invariant 0 <= k <= d && avail == s[k..] && c == At(s, k)
        invariant x == Accumulated(s, k, w)
        decreases d - k
      {
        RunAt(s, k, Digit);
        Advance(s, k);
        DigitStep(s, k, w);
        var g := Get();
        x := Push(x, g, w);
        c := Peek();
        k := k + 1;
      }
      RunAt(s, k, Digit);
      ok := true;
    }

    /** The optional sign, already peeked as `c`: consumed, and its factor and bytes returned. */
    method TakeSign(c: int) returns (sign: int, text: seq<byte>)
      requires Valid() && c == At(avail, 0)
      modifies this
      ensures Valid()
      ensures var p := if IsSign(c) then 1 else 0;
        sign == SignOf(c) && text == old(avail)[..p] && avail == old(avail)[p..]
    {
      sign := 1;
      text := [];
      if c == PLUS || c == MINUS {
        sign := if c == MINUS then -1 else 1;
        ghost var s := avail;
        Advance(s, 0);
        var g := Get();
        text := [g];
      }
    }

    /** The part of yread_ll_ok after the blanks: the sign, then the digits. */
    method SignedLong() returns (ok: bool, x: int)
      requires Valid()
      modifies this
      ensures Valid()
      ensures var r := SignedToken(old(avail), Int64);
        ok == r.Got? && (ok ==> x == r.value) && avail == old(avail)[r.used..]
    {
      ghost var t := avail;
      var c := Peek();
      if c == EOF {
        return false, 0;
      }
      var sign, _ := TakeSign(c);
      ghost var p := if IsSign(c) then 1 else 0;
      ok, x := ReadDigits(Int64);
      if ok {
        SignedAccumulated(t, Int64);
        x := Wrap(x * sign, Int64);
      }
      assert t[p..][Run(t[p..], Digit)..] == t[p + Run(t[p..], Digit)..];
    }

    /** yread_ll_ok. */
    method ReadLong() returns (ok: bool, x: int)
      requires Valid()
      modifies this
      ensures Valid()
      ensures var r := ReadSigned(old(avail), Int64);
        ok == r.Got? && (ok ==> x == r.value) && avail == old(avail)[r.used..]
    {
      ghost var s := avail;
      SkipSpace();
      ok, x := SignedLong();
      AfterSkip(s, Run(s, Blank), SignedToken(s[Run(s, Blank)..], Int64));
    }

    /** yread_int_ok: the same reader, with the result cast to int. */
    method ReadInt() returns (ok: bool, v: int)
      requires Valid()
      modifies this
      ensures Valid()
      ensures var r := ReadSigned(old(avail), Int32);
        ok == r.Got? && (ok ==> v == r.value) && avail == old(avail)[r.used..]
    {
      ghost var s := avail;
      var x;
      ok, x := ReadLong();
      v := Wrap(x, Int32);
      ReadSignedNarrows(s);
    }

    /** The part of yread_ull_ok after the blanks: the digits. */
    method UnsignedLong() returns (ok: bool, x: int)
      requires Valid()
      modifies this
      ensures Valid()
      ensures var r := UnsignedToken(old(avail), UInt64);
        ok == r.Got? && (ok ==> x == r.value) && avail == old(avail)[r.used..]
    {
      ghost var t := avail;
      ok, x := ReadDigits(UInt64);
      if ok {
        UnsignedAccumulated(t, UInt64);
      }
    }

    /** yread_ull_ok. */
    method ReadULong() returns (ok: bool, x: int)
      requires Valid()
      modifies this
      ensures Valid()
      ensures var r := ReadUnsigned(old(avail), UInt64);
        ok == r.Got? && (ok ==> x == r.value) && avail == old(avail)[r.used..]
    {
      ghost var s := avail;
      SkipSpace();
      ok, x := UnsignedLong();
      AfterSkip(s, Run(s, Blank), UnsignedToken(s[Run(s, Blank)..], UInt64));
    }

    /** yread_uint_ok: the same reader, with the result cast to unsigned. */
    method ReadUInt() returns (ok: bool, v: int)
      requires Valid()
      modifies this
      ensures Valid()
      ensures var r := ReadUnsigned(old(avail), UInt32);
        ok == r.Got? && (ok ==> v == r.value) && avail == old(avail)[r.used..]
    {
      ghost var s := avail;
      var x;
      ok, x := ReadULong();
      v := Wrap(x, UInt32);
      ReadUnsignedNarrows(s);
    }

    /** A digit loop of yread_double_ok: consumes the digits ahead and returns them. */
    method TakeDigits() returns (ds: seq<byte>)
      requires Valid()
      modifies this
      ensures Valid()
      ensures var d := Run(old(avail), Digit); ds == old(avail)[..d] && avail == old(avail)[d..]
    {
      ghost var s := avail;
      ghost var d := Run(s, Digit);
      ghost var k := 0;
      ds := [];
      var c := Peek();
      while ZERO <= c <= NINE
        invariant Valid()
        invariant 0 <= k <= d && avail == s[k..] && c == At(s, k) && ds == s[..k]
        decreases d - k
      {
        RunAt(s, k, Digit);
        Advance(s, k);
        var g := Get();
        ds := ds + [g];
        c := Peek();
        k := k + 1;
      }
      RunAt(s, k, Digit);
    }

    /** The fraction of yread_double_ok: a '.' and its digits, when a '.' comes. */
    method TakeFraction() returns (text: seq<byte>)
      requires Valid()
      modifies this
      ensures Valid()
      ensures var n := Fraction(old(avail)); text == old(avail)[..n] && avail == old(avail)[n..]
    {
      ghost var u := avail;
      var c := Peek();
      if c == DOT {
        DotDigits(u);
        var g := Get();
        var ds := TakeDigits();
        text := [g] + ds;
      } else {
        text := [];
      }
    }

    /** The exponent's sign and digits. */
    method TakeSigned() returns (text: seq<byte>)
      requires Valid()
      modifies this
      ensures Valid()
      ensures var n := SignedLength(old(avail)); text == old(avail)[..n] && avail == old(avail)[n..]
    {
      ghost var v := avail;
      var c := Peek();
      var _, sg := TakeSign(c);
      ghost var p := if IsSign(c) then 1 else 0;
      var ds := TakeDigits();
      Split(v, p, Run(v[p..], Digit));
      text := sg + ds;
    }

    /** The exponent of yread_double_ok: 'e' or 'E', an optional sign and digits, when an 'e' comes. */
    method TakeExponent() returns (text: seq<byte>)
      requires Valid()
      modifies this
      ensures Valid()
      ensures var n := Exponent(old(avail)); text == old(avail)[..n] && avail == old(avail)[n..]
    {
      var c := Peek();
      if c == LOWER_E || c == UPPER_E {
        text := MarkedExponent();
      } else {
        text := [];
      }
    }

    /** The exponent once its 'e' or 'E' is next: the mark, then the sign and digits. */
    method MarkedExponent() returns (text: seq<byte>)
      requires Valid() && avail != [] && IsExponentMark(avail[0])
      modifies this
      ensures Valid()
      ensures var n := Exponent(old(avail)); text == old(avail)[..n] && avail == old(avail)[n..]
    {
      ghost var u := avail;
      ghost var m := SignedLength(u[1..]);
      assert Exponent(u) == 1 + m;
      Advance(u, 0);
      var g := Get();
      var mark: byte := g;
      var rest := TakeSigned();
      Split(u, 1, m);
      assert [mark] == u[..1];
      text := [mark] + rest;
    }

    /** The fraction and the exponent of yread_double_ok. */
    method TakeFractionExponent() returns (text: seq<byte>)
      requires Valid()
      modifies this
      ensures Valid()
      ensures var n := FractionExponent(old(avail)); text == old(avail)[..n] && avail == old(avail)[n..]
    {
      ghost var v := avail;
      var fr := TakeFraction();
      var ex := TakeExponent();
      Split(v, Fraction(v), Exponent(v[Fraction(v)..]));
      text := fr + ex;
    }

    /** What follows the sign in yread_double_ok: the digits, the fraction and the exponent. */
    method RealRest() returns (text: seq<byte>)
      requires Valid()
      modifies this
      ensures Valid()
      ensures var n := RealLength(old(avail)); text == old(avail)[..n] && avail == old(avail)[n..]
    {
      ghost var u := avail;
      var ds := TakeDigits();
      var fe := TakeFractionExponent();
      Split(u, Run(u, Digit), FractionExponent(u[Run(u, Digit)..]));
      text := ds + fe;
    }

    /** The part of yread_double_ok after the blanks: the token, recorded. */
    method RealNumber() returns (ok: bool, text: seq<byte>)
      requires Valid()
      modifies this
      ensures Valid()
      ensures var r := RealToken(old(avail));
        ok == r.Got? && (ok ==> text == r.value) && avail == old(avail)[r.used..]
    {
      ghost var t := avail;
      var c := Peek();
      if c == EOF {
        return false, [];
      }
      var _, sg := TakeSign(c);
      ghost var p := if IsSign(c) then 1 else 0;
      var rest;
      ok, rest := RealAfterSign();
      RealTokenParts(t, p, ok);
      text := if ok then sg + rest else [];
    }

    /** The part of yread_double_ok after the sign: a digit or a '.' must come, then the rest of the token. */
    method RealAfterSign() returns (ok: bool, text: seq<byte>)
      requires Valid()
      modifies this
      ensures Valid()
      ensures var c := At(old(avail), 0); ok == (IsDigit(c) || c == DOT)
      ensures ok ==> var n := RealLength(old(avail)); text == old(avail)[..n] && avail == old(avail)[n..]
      ensures !ok ==> avail == old(avail)
    {
      var c := Peek();
      if (c < ZERO || c > NINE) && c != DOT {
        return false, [];
      }
      text := RealRest();
      ok := true;
    }

    /** yread_double_ok: the token after the blanks. */
    method ReadDouble() returns (ok: bool, text: seq<byte>)
      requires Valid()
      modifies this
      ensures Valid()
      ensures var r := ReadReal(old(avail));
        ok == r.Got? && (ok ==> text == r.value) && avail == old(avail)[r.used..]
    {
      ghost var s := avail;
      SkipSpace();
      ok, text := RealNumber();
      AfterSkip(s, Run(s, Blank), RealToken(s[Run(s, Blank)..]));
    }

    /** The part of yread_str_ok after the blanks: the bytes up to the next blank or the end. */
    method Word() returns (ok: bool, word: seq<byte>)
      requires Valid() && (avail == [] || !IsSpace(avail[0]))
      modifies this
      ensures Valid()
      ensures var r := WordToken(old(avail));
        ok == r.Got? && (ok ==> word == r.value) && avail == old(avail)[r.used..]
    {
      var c := Peek();
      if c == EOF {
        return false, [];
      }
      word := TakeNonBlank();
      ok := true;
    }

    /** The loop of yread_str_ok: the bytes up to the next blank or the end, consumed. */
    method TakeNonBlank() returns (word: seq<byte>)
      requires Valid()
      modifies this
      ensures Valid()
      ensures var m := Run(old(avail), NonBlank); word == old(avail)[..m] && avail == old(avail)[m..]
    {
      ghost var t := avail;
      ghost var m := Run(t, NonBlank);
      ghost var k := 0;
      word := [];
      var c := Peek();
      while c != EOF && !IsSpace(c)
        invariant Valid()
        invariant 0 <= k <= m && avail == t[k..] && c == At(t, k) && word == t[..k]
        decreases m - k
      {
        RunAt(t, k, NonBlank);
        Advance(t, k);
        var g := Get();
        word := word + [g];
        c := Peek();
        k := k + 1;
      }
      RunAt(t, k, NonBlank);
    }

    /** yread_str_ok. */
    method ReadStr() returns (ok: bool, word: seq<byte>)
      requires Valid()
      modifies this
      ensures Valid()
      ensures var r := ReadWord(old(avail));
        ok == r.Got? && (ok ==> word == r.value) && avail == old(avail)[r.used..]
    {
      ghost var s := avail;
      SkipSpace();
      RunMaximal(s, Blank);
      ok, word := Word();
      AfterSkip(s, Run(s, Blank), WordToken(s[Run(s, Blank)..]));
    }

    /**
     * The line loop shared by ygetline_ok and yread_line_ok, once the first
     * byte `c` of `s` has been consumed: keeps what fits in `maxlen` bytes
     * and consumes the terminator, "\r\n" counting as one.
     */
    method FinishLine(c: int, ghost s: seq<byte>, maxlen: int) returns (line: seq<byte>)
      requires Valid() && s != [] && c == s[0] && avail == s[1..]
      modifies this
      ensures Valid()
      ensures var r := FirstLine(s, maxlen); r.Got? && line == r.value && avail == s[r.used..]
    {
      ghost var n := Run(s, LineChar);
      ghost var i := 0;
      var b := c;
      line := [];
      while b != EOF && b != LF && b != CR
        invariant Valid()
        invariant 0 <= i <= n && b == At(s, i) && avail == Drop(s, i + 1) && line == s[..Kept(i, maxlen)]
        decreases n - i
      {
        RunAt(s, i, LineChar);
        KeptStep(s, i, maxlen);
        if |line| < maxlen - 1 {
          line := line + [b];
        }
        AdvanceDrop(s, i + 1);
        b := Get();
        i := i + 1;
      }
      RunAt(s, i, LineChar);
      EndLine(b, s, n);
    }

    /** The end of the line loop: a '\r' consumes the '\n' right after it. */
    method EndLine(b: int, ghost s: seq<byte>, ghost n: nat)
      requires Valid() && n == Run(s, LineChar) && b == At(s, n) && avail == Drop(s, n + 1)
      modifies this
      ensures Valid() && avail == s[LineEnd(s, n)..]
    {
      if b == CR {
        AdvanceDrop(s, n + 1);
        var d := Peek();
        if d == LF {
          d := Get();
        }
      }
    }

    /** ygetline_ok: the line at the front of the input, possibly empty. */
    method GetLine(maxlen: int) returns (ok: bool, line: seq<byte>)
      requires Valid()
      modifies this
      ensures Valid()
      ensures var r := FirstLine(old(avail), maxlen);
        ok == r.Got? && (ok ==> line == r.value) && avail == old(avail)[r.used..]
    {
      ghost var s := avail;
      var c := Get();
      if c == EOF {
        return false, [];
      }
      line := FinishLine(c, s, maxlen);
      ok := true;
    }

    /** The first loop of yread_line_ok: consumes every '\n' and '\r' ahead and the byte after them. */
    method SkipBreaks() returns (c: int)
      requires Valid()
      modifies this
      ensures Valid()
      ensures var k := Run(old(avail), LineBreak); c == At(old(avail), k) && avail == Drop(old(avail), k + 1)
    {
      ghost var s := avail;
      ghost var k := 0;
      c := Get();
      while c == LF || c == CR
        invariant Valid()
        invariant 0 <= k <= Run(s, LineBreak) && c == At(s, k) && avail == Drop(s, k + 1)
        decreases Run(s, LineBreak) - k
      {
        RunAt(s, k, LineBreak);
        AdvanceDrop(s, k + 1);
        c := Get();
        k := k + 1;
      }
      RunAt(s, k, LineBreak);
    }

    /** yread_line_ok: every '\n' and '\r' ahead is consumed first, then a line is read. */
    method ReadLine(maxlen: int) returns (ok: bool, line: seq<byte>)
      requires Valid()
      modifies this
      ensures Valid()
      ensures var r := NextLine(old(avail), maxlen);
        ok == r.Got? && (ok ==> line == r.value) && avail == old(avail)[r.used..]
    {
      ghost var s := avail;
      var c := SkipBreaks();
      ghost var k := Run(s, LineBreak);
      if c == EOF {
        return false, [];
      }
      Advance(s, k);
      line := FinishLine(c, s[k..], maxlen);
      AfterSkip(s, k, FirstLine(s[k..], maxlen));
      ok := true;
    }

    /** The reader one conversion of yscanf runs, and the slot it stores. */
    method ReadSlot(conv: Conv) returns (ok: bool, slot: Slot)
      requires Valid()
      modifies this
      ensures Valid()
      ensures var r := Convert(conv, old(avail));
        ok == r.Got? && (ok ==> slot == r.value) && avail == old(avail)[r.used..]
    {
      match conv
      case IntConv =>
        var v;
        ok, v := ReadInt();
        slot := IntSlot(v);
      case UIntConv =>
        var v;
        ok, v := ReadUInt();
        slot := UIntSlot(v);
      case LongConv =>
        var v;
        ok, v := ReadLong();
        slot := LongSlot(v);
      case ULongConv =>
        var v;
        ok, v := ReadULong();
        slot := ULongSlot(v);
      case RealConv(_) =>
        var t;
        ok, t := ReadDouble();
        slot := RealSlot(t);
      case WordConv =>
        var w;
        ok, w := ReadStr();
        slot := WordSlot(w);
      case CharConv =>
        var c := Get();
        ok := c != EOF;
        slot := CharSlot(if ok then c else 0);
    }

    /**
     * yscanf: walks the format, skipping the blanks of the input at every
     * blank of the format, ignoring other literal characters, and running
     * the reader of each directive; stops at the first reader that fails.
     */
    method Scanf(fmt: string) returns (ret: int, slots: seq<Slot>)
      requires Valid()
      modifies this
      ensures Valid()
      ensures var o := Scan(fmt, old(avail)); ret == o.ret && slots == o.slots && avail == o.rest
    {
      ghost var s := avail;
      var i := 0;
      slots := [];
      while FmtAt(fmt, i) != '\0'
        invariant Valid() && i <= |fmt|
        invariant Dispatch(fmt, i, avail, slots) == Scan(fmt, s)
        decreases |fmt| - i
      {
        var c := fmt[i];
        if IsFmtSpace(c) {
          SkipSpace();
          i := i + 1;
        } else if c != '%' {
          i := i + 1;
        } else {
          var stop;
          stop, ret, i, slots := Conversion(fmt, i, slots);
          if stop {
            return;
          }
        }
      }
      ret := |slots|;
    }

    /**
     * One '%' directive of yscanf: an unknown specifier returns -1, a failed
     * reader returns the count so far (EOF when it is 0), and a successful
     * one stores its slot and moves past the specifier.
     */
    method Conversion(fmt: string, i: nat, slots: seq<Slot>) returns (stop: bool, ret: int, j: nat, stored: seq<Slot>)
      requires Valid() && i < |fmt| && fmt[i] == '%'
      modifies this
      ensures Valid() && j <= |fmt| && (!stop ==> i < j)
      ensures var o := Dispatch(fmt, i, old(avail), slots);
        if stop then o == Outcome(ret, stored, avail) else o == Dispatch(fmt, j, avail, stored)
    {
      match Directive(fmt, i + 1)
      case None =>
        return true, EOF, i, slots;
      case Some((conv, next)) =>
        var ok, v := ReadSlot(conv);
        if !ok {
          return true, if |slots| == 0 then EOF else |slots|, i, slots;
        }
        return false, 0, next, slots + [v];
    }
  }
}
