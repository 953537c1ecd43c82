/** Bytes and character classes shared by both scanner versions. */
module Bytes {

  /** A byte of input, as `(unsigned char)` makes it: 0..255. */
  type byte = b: int | 0 <= b < 256

  /** What the byte primitives return: a byte, or EOF. */
  type symbol = c: int | -1 <= c < 256

  const EOF: int := -1

  const TAB: byte := 9
  const LF: byte := 10
  const CR: byte := 13
  const SPACE: byte := 32
  const PLUS: byte := 43
  const MINUS: byte := 45
  const DOT: byte := 46
  const ZERO: byte := 48
  const NINE: byte := 57
  const UPPER_E: byte := 69
  const LOWER_E: byte := 101

  /** `isspace` in the C locale: space, \t, \n, \v, \f, \r. */
  predicate IsSpace(c: int) {
    c == SPACE || TAB <= c <= CR
  }

  predicate IsDigit(c: int) {
    ZERO <= c <= NINE
  }

  predicate IsLineBreak(c: int) {
    c == LF || c == CR
  }

  predicate IsSign(c: int) {
    c == PLUS || c == MINUS
  }

  predicate IsExponentMark(c: int) {
    c == LOWER_E || c == UPPER_E
  }

  /** The classes of bytes whose maximal runs the readers consume. */
  datatype Class = Blank | Digit | NonBlank | LineBreak | LineChar | Byte

  predicate In(c: int, k: Class) {
    match k
    case Blank => IsSpace(c)
    case Digit => IsDigit(c)
    case NonBlank => c != EOF && !IsSpace(c)
    case LineBreak => IsLineBreak(c)
    case LineChar => c != EOF && !IsLineBreak(c)
    case Byte => 0 <= c < 256
  }

  /** Length of the longest prefix of `s` whose symbols are all in class `k`. */
  function Run(s: seq<int>, k: Class): (n: nat)
    ensures n <= |s|
  {
    if s == [] || !In(s[0], k) then 0 else 1 + Run(s[1..], k)
  }

  /** The run is in the class throughout, and the symbol after it is not. */
  lemma {:induction false} RunMaximal(s: seq<int>, k: Class)
    ensures forall i :: 0 <= i < Run(s, k) ==> In(s[i], k)
    ensures Run(s, k) < |s| ==> !In(s[Run(s, k)], k)
  {
    if s != [] && In(s[0], k) {
      RunMaximal(s[1..], k);
      forall i | 0 < i < Run(s, k)
        ensures In(s[i], k)
      {
        assert s[i] == s[1..][i - 1];
      }
    }
  }

  /** The symbol at position `i`, or EOF past the end. */
  function At(s: seq<int>, i: nat): int {
    if i < |s| then s[i] else EOF
  }

  /** What is left after consuming `k` symbols; reading past the end consumes nothing. */
  function Drop<T>(s: seq<T>, k: nat): (r: seq<T>)
    ensures |r| == if k <= |s| then |s| - k else 0
  {
    if k <= |s| then s[k..] else []
  }

  /** A maximal run is determined by its two defining properties. */
  lemma {:induction false} RunUnique(s: seq<int>, k: Class, n: nat)
    requires n <= |s|
    requires forall i :: 0 <= i < n ==> In(s[i], k)
    requires n < |s| ==> !In(s[n], k)
    ensures Run(s, k) == n
  {
    if n > 0 {
      assert In(s[0], k);
      assert forall i :: 0 <= i < n - 1 ==> s[1..][i] == s[i + 1];
      RunUnique(s[1..], k, n - 1);
    }
  }

  /** A blank prefix adds its length to the blank run. */
  lemma RunBlankPrefix(ws: seq<int>, s: seq<int>)
    requires forall i :: 0 <= i < |ws| ==> IsSpace(ws[i])
    ensures Run(ws + s, Blank) == |ws| + Run(s, Blank)
  {
    RunMaximal(s, Blank);
    var n := |ws| + Run(s, Blank);
    var t := ws + s;
    forall i | 0 <= i < n
      ensures In(t[i], Blank)
    {
      if i >= |ws| {
        assert t[i] == s[i - |ws|];
      }
    }
    if n < |t| {
      assert t[n] == s[Run(s, Blank)];
    }
    RunUnique(t, Blank, n);
  }

  /** No sign, or one '+' or '-'. */
  predicate OptionalSign(sign: seq<int>) {
    sign == [] || (|sign| == 1 && IsSign(sign[0]))
  }

  predicate AllBlank(ws: seq<int>) {
    forall i :: 0 <= i < |ws| ==> IsSpace(ws[i])
  }

  /** Blanks before a non-blank are exactly what the blank run covers. */
  lemma SkipBlanks(ws: seq<int>, t: seq<int>)
    requires AllBlank(ws) && !IsSpace(At(t, 0))
    ensures Run(ws + t, Blank) == |ws| && (ws + t)[|ws|..] == t
  {
    RunBlankPrefix(ws, t);
    assert Run(t, Blank) == 0;
  }

  /** ASCII text as bytes, for stating examples. */
  function Ascii(text: string): (r: seq<byte>)
    requires forall i :: 0 <= i < |text| ==> text[i] < 256 as char
    ensures |r| == |text|
    ensures forall i :: 0 <= i < |text| ==> r[i] == text[i] as int
  {
    if text == [] then [] else [text[0] as int] + Ascii(text[1..])
  }
}
