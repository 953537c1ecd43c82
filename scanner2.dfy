/**
 * yscanf2.h: a buffer over stdin without an end-of-file latch, its byte
 * primitives, the saturating integer readers, the string and floating-point
 * readers and the format-driven dispatcher. The globals `ybuf`, `yptr` and
 * `yend` become the fields of one Scanner2 object.
 */
module Scanner2 {
  import opened Bytes
  import opened Numerals
  import opened Stream
  import opened Format
  import opened Grammar2

  /** Taking the first of the buffered bytes leaves the rest of the buffer, then the stream. */
  lemma TakeFirst2(buf: seq<byte>, i: nat, j: nat, input: seq<symbol>)
    requires i < j <= |buf|
    ensures (buf[i..j] + input)[0] == buf[i]
    ensures (buf[i..j] + input)[1..] == buf[i + 1..j] + input
  {
    assert buf[i..j] == [buf[i]] + buf[i + 1..j];
  }

  /** A symbol of the class at `k` extends the run, and the next read returns the symbol after it. */
  lemma RunStep(s: seq<symbol>, k: nat, cls: Class)
    requires k <= Run(s, cls) && In(At(s, k), cls)
    ensures k < Run(s, cls) && s[..k + 1] == s[..k] + [s[k]]
    ensures At(Drop(s, k + 1), 0) == At(s, k + 1) && Drop(Drop(s, k + 1), 1) == Drop(s, k + 2)
  {
    RunMaximal(s, cls);
  }

  /** Reading on from position `j` when what is left is `Drop(s, j)`. */
  lemma Advance2(s: seq<symbol>, j: nat)
    ensures At(Drop(s, j), 0) == At(s, j) && Drop(Drop(s, j), 1) == Drop(s, j + 1)
  {
  }

  /** The first symbol outside the class ends the run. */
  lemma RunEnd(s: seq<symbol>, k: nat, cls: Class)
    requires k <= Run(s, cls) && !In(At(s, k), cls)
    ensures k == Run(s, cls)
  {
    RunMaximal(s, cls);
  }

  /** A blank ahead: the peek leaves it, the next read takes it. */
  lemma BlankStep(s: seq<symbol>, k: nat)
    requires k <= Run(s, Blank) && At(s, k) != EOF && IsSpace(At(s, k))
    ensures k < Run(s, Blank) && AfterPeek(s[k..]) == s[k..]
    ensures Drop(s[k..], 1) == s[k + 1..] && At(s[k + 1..], 0) == At(s, k + 1)
  {
    RunStep(s, k, Blank);
  }

  /** Reading on past a sign: what follows it, seen from the suffix after it. */
  lemma SignNext(t: seq<symbol>, p: nat)
    requires p <= 1 && (p == 1 ==> t != [])
    ensures At(t[p..], 0) == At(Drop(t, p), 0) && Drop(t[p..], 1) == Drop(Drop(t, p), 1)
  {
  }

  /** One step of the checked accumulation over the digits `u[k..d]`. */
  lemma CheckedStep(u: seq<symbol>, k: nat, d: nat, x: int, w: Width)
    requires k < d <= |u|
    ensures Checked(u[k..d], x, w)
      == var next := Push(x, u[k], w); if next < x then (x, true) else Checked(u[k + 1..d], next, w)
  {
    assert u[k..d][0] == u[k] && u[k..d][1..] == u[k + 1..d];
  }

  class Scanner2 {
    /** ybuf, and its size */
    var buf: seq<byte>
    const capacity: nat
    /** yptr and yend, as offsets into ybuf */
    var ptr: nat
    var end: nat
    /** the symbols stdin has not handed to fread yet; EOF marks a zero-length read */
    var input: seq<symbol>

    /** how many times fread has been called */
    ghost var freads: nat
    /** what the next accesses see, in order: the rest of the buffer, then the stream */
    ghost var avail: seq<symbol>

    ghost predicate Valid()
      reads this
    {
      && 0 < capacity == |buf|
      && ptr <= end <= |buf|
      && avail == buf[ptr..end] + input
    }

    constructor (size: nat, data: seq<symbol>)
      requires size > 0
      ensures Valid() && capacity == size
      ensures ptr == end == 0 && freads == 0
      ensures avail == data
    {
      capacity := size;
      buf := seq(size, i => 0);
      ptr, end := 0, 0;
      input := data;
      freads := 0;
      avail := data;
    }

    /** yrefill: one fread into the whole buffer; the cursors cover what it read. */
    method Refill()
      requires 0 < capacity == |buf|
      modifies this`input, this`freads, this`buf, this`ptr, this`end
      ensures var r := FreadSymbols(old(input), capacity);
        ptr == 0 && end == |r.0| && |buf| == capacity && buf[..end] == r.0 && input == r.1
      ensures freads == old(freads) + 1
    {
      var r := FreadSymbols(input, capacity);
      var n := |r.0|;
      buf := r.0 + buf[n..];
      input := r.1;
      freads := freads + 1;
      ptr := 0;
      end := n;
    }

    /**
     * The refill ynext_char and ypeek_char both start with: on an empty
     * buffer, always, since nothing remembers an earlier zero-length read.
     * Afterwards the buffer is empty exactly when that read returned nothing,
     * which used up the EOF mark at the front of the stream, if any.
     */
    method Fill() returns (ready: bool)
      requires Valid()
      modifies this
      ensures Valid()
      ensures ready == (ptr < end) && ready == (At(old(avail), 0) != EOF)
      ensures avail == if ready then old(avail) else Drop(old(avail), 1)
      ensures !ready ==> ptr == end == 0
      ensures old(ptr) < old(end) ==> ptr == old(ptr) && end == old(end) && freads == old(freads)
      ensures old(ptr) >= old(end) ==> ptr == 0 && freads == old(freads) + 1
    {
      if ptr >= end {
        ghost var before := input;
        assert buf[ptr..end] == [];
        Refill();
        if ptr >= end {
          avail := input;
          return false;
        }
        assert buf[ptr..end] + input == before;
      }
      ready := true;
    }

    /** ynext_char: the next symbol, consumed. */
    method Get() returns (c: int)
      requires Valid()
      modifies this
      ensures Valid()
      ensures c == At(old(avail), 0) && avail == Drop(old(avail), 1)
      ensures c == EOF ==> ptr == end == 0
      ensures freads == if old(ptr) < old(end) then old(freads) else old(freads) + 1
    {
      var ready := Fill();
      if !ready {
        return EOF;
      }
      TakeFirst2(buf, ptr, end, input);
      c := buf[ptr];
      ptr := ptr + 1;
      avail := avail[1..];
    }

    /** ypeek_char: the symbol the next ynext_char returns, unless it is EOF, which is used up. */
    method Peek() returns (c: int)
      requires Valid()
      modifies this
      ensures Valid()
      ensures c == At(old(avail), 0) && avail == AfterPeek(old(avail))
      ensures c != EOF ==> ptr == old(ptr) || (old(ptr) >= old(end) && ptr == 0)
      ensures c == EOF ==> ptr == end == 0
      ensures freads == if old(ptr) < old(end) then old(freads) else old(freads) + 1
    {
      var ready := Fill();
      if !ready {
        return EOF;
      }
      c := buf[ptr];
    }

    /** yskip_space_input. */
    method SkipSpace()
      requires Valid()
      modifies this
      ensures Valid()
      ensures avail == AfterBlanks(old(avail))
    {
      ghost var s := avail;
      ghost var k := 0;
      var c := Peek();
      while c != EOF && IsSpace(c)
        invariant Valid()
        invariant 0 <= k <= Run(s, Blank) && c == At(s, k) && avail == AfterPeek(s[k..])
        decreases Run(s, Blank) - k
      {
        BlankStep(s, k);
        var _ := Get();
        c := Peek();
        k := k + 1;
      }
      RunEnd(s, k, Blank);
    }

    /**
     * The inner loop of yparse_int and yparse_uint after an overflow: the
     * remaining digits and the symbol after them are consumed.
     */
    method DrainDigits(ghost u: seq<symbol>, ghost k: nat)
      requires Valid() && k < Run(u, Digit) && avail == Drop(u, k + 1)
      modifies this
      ensures Valid() && avail == Drop(u, Run(u, Digit) + 1)
    {
      ghost var j := k + 1;
      Advance2(u, j);
      var c := Get();
      while IsDigit(c)
        invariant Valid() && j <= Run(u, Digit) && c == At(u, j) && avail == Drop(u, j + 1)
        decreases Run(u, Digit) - j
      {
        RunStep(u, j, Digit);
        c := Get();
        j := j + 1;
      }
      RunEnd(u, j, Digit);
    }

    /**
     * The digit loop of yparse_int and yparse_uint, once `c`, the first
     * symbol of `u`, has been read: no digit there is malformed input.
     */
    method ReadNumeral(c: int, ghost u: seq<symbol>, w: Width) returns (x: int, overflow: bool)
      requires Valid() && c == At(u, 0) && avail == Drop(u, 1)
      modifies this
      ensures Valid()
      ensures var r := Numeral(u, w); x == r.value && overflow == r.overflow && avail == r.rest
    {
      if c < ZERO || c > NINE {
        return 0, true;
      }
      x, overflow := Accumulate(c, u, w);
    }

    /**
     * The digits of `u`, from its first, `c`, already read: each step computes
     * the wrapped `next = x*10 + d` and stops with the flag up when `next < x`.
     */
    method Accumulate(c: int, ghost u: seq<symbol>, w: Width) returns (x: int, overflow: bool)
      requires Valid() && c == At(u, 0) && avail == Drop(u, 1) && IsDigit(c)
      modifies this
      ensures Valid() && avail == Drop(u, Run(u, Digit) + 1)
      ensures (x, overflow) == Checked(u[..Run(u, Digit)], 0, w)
    {
      ghost var d := Run(u, Digit);
      ghost var k := 0;
      assert u[0..d] == u[..d];
      var b := c;
      x, overflow := 0, false;
      while IsDigit(b)
        invariant Valid()
        invariant 0 <= k <= d && b == At(u, k) && avail == Drop(u, k + 1) && !overflow
        invariant Checked(u[k..d], x, w) == Checked(u[..d], 0, w)
        decreases d - k
      {
        RunStep(u, k, Digit);
        CheckedStep(u, k, d, x, w);
        var next := Push(x, b, w);
        if next < x {
          overflow := true;
          DrainDigits(u, k);
          return;
        }
        x := next;
        b := Get();
        k := k + 1;
      }
      RunEnd(u, k, Digit);
      assert u[k..d] == [];
    }

    /** yparse_int: blanks, an optional sign, then the digit loop; the value is sign * x. */
    method ParseInt() returns (v: int, overflow: bool)
      requires Valid()
      modifies this
      ensures Valid()
      ensures var r := ParsedSigned(old(avail)); v == r.value && overflow == r.overflow && avail == r.rest
    {
      SkipSpace();
      ghost var t := avail;
      var sign := 1;
      var c := Get();
      ghost var p := 0;
      if c == MINUS {
        sign := -1;
        c := Get();
        p := 1;
      } else if c == PLUS {
        c := Get();
        p := 1;
      }
      SignNext(t, p);
      var x;
      x, overflow := ReadNumeral(c, t[p..], Int64);
      v := sign * x;
    }

    /** yparse_uint: blanks, then the digit loop; no sign is accepted. */
    method ParseUInt() returns (v: int, overflow: bool)
      requires Valid()
      modifies this
      ensures Valid()
      ensures var r := ParsedUnsigned(old(avail)); v == r.value && overflow == r.overflow && avail == r.rest
    {
      SkipSpace();
      ghost var t := avail;
      var c := Get();
      v, overflow := ReadNumeral(c, t, UInt64);
    }

    /** yread_int */
    method ReadInt() returns (v: int)
      requires Valid()
      modifies this
      ensures Valid()
      ensures var r := SaturatedInt(old(avail)); v == r.value && avail == r.rest
    {
      var val, overflow := ParseInt();
      if overflow || val > INT32_MAX || val < INT32_MIN {
        return if val > 0 then INT32_MAX else INT32_MIN;
      }
      v := val;
    }

    /** yread_ll */
    method ReadLong() returns (v: int)
      requires Valid()
      modifies this
      ensures Valid()
      ensures var r := SaturatedLong(old(avail)); v == r.value && avail == r.rest
    {
      var val, overflow := ParseInt();
      if overflow {
        return if val > 0 then INT64_MAX else INT64_MIN;
      }
      v := val;
    }

    /** yread_uint */
    method ReadUInt() returns (v: int)
      requires Valid()
      modifies this
      ensures Valid()
      ensures var r := SaturatedUInt(old(avail)); v == r.value && avail == r.rest
    {
      var val, overflow := ParseUInt();
      if overflow || val > UINT32_MAX {
        return UINT32_MAX;
      }
      v := val;
    }

    /** yread_ull */
    method ReadULong() returns (v: int)
      requires Valid()
      modifies this
      ensures Valid()
      ensures var r := SaturatedULong(old(avail)); v == r.value && avail == r.rest
    {
      var val, overflow := ParseUInt();
      if overflow {
        return UINT64_MAX;
      }
      v := val;
    }

    /**
     * A loop that reads on while the symbol read is in the class, keeping the
     * symbols of the run; `c`, the first symbol of `u`, has been read. The
     * symbol that ends the run is returned and is consumed.
     */
    method TakeRun(c: int, ghost u: seq<symbol>, cls: Class) returns (text: seq<int>, b: int)
      requires Valid() && c == At(u, 0) && avail == Drop(u, 1)
      modifies this
      ensures Valid()
      ensures var n := Run(u, cls); text == u[..n] && b == At(u, n) && avail == Drop(u, n + 1)
    {
      text, b := [], c;
      while In(b, cls)
        invariant Valid()
        invariant |text| <= Run(u, cls) && text == u[..|text|] && b == At(u, |text|) && avail == Drop(u, |text| + 1)
        decreases Run(u, cls) - |text|
      {
        RunStep(u, |text|, cls);
        text := text + [b];
        b := Get();
      }
      RunEnd(u, |text|, cls);
    }

    /** yread_string: blanks, then the bytes up to a blank or EOF, which is consumed too. */
    method ReadString() returns (word: seq<int>)
      requires Valid()
      modifies this
      ensures Valid()
      ensures var r := StringToken(old(avail)); word == r.value && avail == r.rest
    {
      SkipSpace();
      ghost var t := avail;
      var c := Get();
      word, c := TakeRun(c, t, NonBlank);
    }

    /** The digit loops of yread_double, once `c`, the first symbol of `u`, has been read. */
    method ReadMantissa(c: int, ghost u: seq<symbol>) returns (text: seq<int>)
      requires Valid() && c == At(u, 0) && avail == Drop(u, 1)
      modifies this
      ensures Valid()
      ensures var r := Mantissa(u); text == r.value && avail == r.rest
    {
      var b;
      text, b := TakeRun(c, u, Digit);
      if b == DOT {
        ghost var d := Run(u, Digit);
        ghost var v := u[d + 1..];
        assert Drop(u, d + 1) == v && At(v, 0) == At(Drop(u, d + 1), 0) && Drop(v, 1) == Drop(Drop(u, d + 1), 1);
        b := Get();
        var fraction;
        fraction, b := TakeRun(b, v, Digit);
        text := text + [DOT] + fraction;
      }
    }

    /**
     * yread_double, on the symbols it consumes: blanks, an optional sign and
     * the mantissa. The text returned is what the value is computed from.
     */
    method ReadDouble() returns (text: seq<int>)
      requires Valid()
      modifies this
      ensures Valid()
      ensures var r := DoubleToken(old(avail)); text == r.value && avail == r.rest
    {
      SkipSpace();
      ghost var t := avail;
      var c := Get();
      ghost var p := 0;
      var sign := [];
      if c == MINUS || c == PLUS {
        sign := [c];
        c := Get();
        p := 1;
      }
      SignNext(t, p);
      assert sign == t[..p];
      var m := ReadMantissa(c, t[p..]);
      text := sign + m;
    }

    /** The exponent of yread_double_exp, once `c`, the first symbol after the 'e', has been read. */
    method ReadExponentPart(c: int, ghost u: seq<symbol>) returns (text: seq<int>)
      requires Valid() && c == At(u, 0) && avail == Drop(u, 1)
      modifies this
      ensures Valid()
      ensures var r := ExponentPart(u); text == r.value && avail == r.rest
    {
      var b := c;
      ghost var q := 0;
      var sign := [];
      if b == MINUS || b == PLUS {
        sign := [b];
        b := Get();
        q := 1;
      }
      SignNext(u, q);
      assert sign == u[..q];
      var digits;
      digits, b := TakeRun(b, u[q..], Digit);
      text := sign + digits;
    }

    /** yread_double_exp: yread_double, a peek, and after an 'e' or 'E' the exponent. */
    method ReadDoubleExp() returns (text: seq<int>)
      requires Valid()
      modifies this
      ensures Valid()
      ensures var r := DoubleExpToken(old(avail)); text == r.value && avail == r.rest
    {
      text := ReadDouble();
      ghost var t := avail;
      var c := Peek();
      if c == LOWER_E || c == UPPER_E {
        var mark := Get();
        c := Get();
        var exponent := ReadExponentPart(c, t[1..]);
        text := text + [mark] + exponent;
      }
    }

    /** The reader a conversion other than %c runs, and the slot it fills. */
    method ReadSlot2(conv: Conv) returns (slot: Slot)
      requires Valid() && conv != CharConv
      modifies this
      ensures Valid()
      ensures var r := Convert2(conv, old(avail)); slot == r.value && avail == r.rest
    {
      match conv
      case IntConv =>
        var v := ReadInt();
        slot := IntSlot(v);
      case UIntConv =>
        var v := ReadUInt();
        slot := UIntSlot(v);
      case LongConv =>
        var v := ReadLong();
        slot := LongSlot(v);
      case ULongConv =>
        var v := ReadULong();
        slot := ULongSlot(v);
      case RealConv(exponent) =>
        var text;
        if exponent {
          text := ReadDoubleExp();
        } else {
          text := ReadDouble();
        }
        slot := RealSlot(text);
      case WordConv =>
        var word := ReadString();
        slot := WordSlot(word);
    }

    /** yscanf: the format loop, with `skip` as its skip_space flag. */
    method Scanf2(fmt: string) returns (ret: int, slots: seq<Slot>)
      requires Valid()
      modifies this
      ensures Valid()
      ensures var o := Scan2(fmt, old(avail)); ret == o.ret && slots == o.slots && avail == o.rest
    {
      ghost var s := avail;
      var i := 0;
      var skip := false;
      slots := [];
      while FmtAt(fmt, i) != '\0'
        invariant Valid() && i <= |fmt|
        invariant Dispatch2(fmt, i, avail, skip, slots) == Scan2(fmt, s)
        decreases |fmt| - i
      {
        var c := fmt[i];
        if IsFmtSpace(c) {
          skip := true;
          i := i + 1;
        } else if c != '%' {
          skip := false;
          i := i + 1;
        } else {
          var stop;
          stop, ret, i, slots := Conversion2(fmt, i, skip, slots);
          if stop {
            return;
          }
          skip := false;
        }
      }
      ret := |slots|;
    }

    /**
     * One '%' directive of yscanf: an unknown specifier returns -1; %c at EOF
     * returns the count so far (EOF when it is 0); any other conversion
     * applies the skip flag, runs its reader and counts.
     */
    method Conversion2(fmt: string, i: nat, skip: bool, slots: seq<Slot>) returns (stop: bool, ret: int, j: nat, stored: seq<Slot>)
      requires Valid() && i < |fmt| && fmt[i] == '%'
      modifies this
      ensures Valid() && j <= |fmt| && (!stop ==> i < j)
      ensures var o := Dispatch2(fmt, i, old(avail), skip, slots);
        if stop then o == Outcome(ret, stored, avail) else o == Dispatch2(fmt, j, avail, false, stored)
    {
      match Directive2(fmt, i + 1)
      case None =>
        return true, EOF, i, slots;
      case Some((conv, next)) =>
        if skip {
          SkipSpace();
        }
        if conv == CharConv {
          var c := Get();
          if c == EOF {
            return true, if |slots| == 0 then EOF else |slots|, i, slots;
          }
          return false, 0, next, slots + [CharSlot(c)];
        }
        var v := ReadSlot2(conv);
        return false, 0, next, slots + [v];
    }
  }
}
