/** The typed interface of yscanf: conversions, output slots and outcomes. */
module Format {
  import opened Bytes

  datatype Option<T> = None | Some(value: T)

  /** The conversion a `%` directive selects. */
  datatype Conv =
    | IntConv            // %d
    | UIntConv           // %u
    | LongConv           // %lld
    | ULongConv          // %llu
    | RealConv(exponent: bool)  // %f %e %g (and %lf in yscanf2.h, which reads no exponent)
    | WordConv           // %s
    | CharConv           // %c

  /**
   * What a conversion stores through its output pointer. A floating-point
   * slot records the bytes its value is computed from; the arithmetic itself
   * is not modelled.
   */
  datatype Slot =
    | IntSlot(i: int)
    | UIntSlot(u: int)
    | LongSlot(l: int)
    | ULongSlot(ul: int)
    | RealSlot(text: seq<int>)
    | WordSlot(word: seq<int>)
    | CharSlot(c: int)

  /** The conversion that stores a slot of this kind. */
  predicate Stores(conv: Conv, slot: Slot) {
    match conv
    case IntConv => slot.IntSlot?
    case UIntConv => slot.UIntSlot?
    case LongConv => slot.LongSlot?
    case ULongConv => slot.ULongSlot?
    case RealConv(_) => slot.RealSlot?
    case WordConv => slot.WordSlot?
    case CharConv => slot.CharSlot?
  }

  /** A reader's result: nothing stored, or a value; and how many input bytes it consumed. */
  datatype Read<T> = Fail(used: nat) | Got(value: T, used: nat)

  /** The same result after `k` more bytes were consumed before the reader began. */
  function Shift<T>(r: Read<T>, k: nat): (r': Read<T>)
    ensures r'.Got? == r.Got? && r'.used == r.used + k
    ensures r.Got? ==> r'.value == r.value
  {
    match r
    case Fail(u) => Fail(u + k)
    case Got(v, u) => Got(v, u + k)
  }

  /** A reader's result seen as a slot. */
  function Store<T>(r: Read<T>, slot: T -> Slot): (r': Read<Slot>)
    ensures r'.Got? == r.Got? && r'.used == r.used
    ensures r.Got? ==> r'.value == slot(r.value)
  {
    match r
    case Fail(u) => Fail(u)
    case Got(v, u) => Got(slot(v), u)
  }

  /**
   * What one call of yscanf returns, the slots it stored in argument order,
   * and the input it leaves unread.
   */
  datatype Outcome<S> = Outcome(ret: int, slots: seq<Slot>, rest: seq<S>)

  /** The format character at `i`; a C string reads as NUL from its end on. */
  function FmtAt(fmt: string, i: nat): char {
    if i < |fmt| then fmt[i] else '\0'
  }

  predicate IsFmtSpace(c: char) {
    IsSpace(c as int)
  }
}
