/** Java's primitive text: 64-bit `long`, 16-bit `char` (a UTF-16 code unit),
    the `(byte)` narrowing cast, and `Long.toString`. */
module JavaText {
  import opened Wrappers
  import opened Resp

  type Long = x: int | -0x8000_0000_0000_0000 <= x < 0x8000_0000_0000_0000
  type JChar = c: int | 0 <= c < 0x1_0000
  type JString = seq<JChar>

  const Minus: JChar := 45   // '-'

  /** `(byte) c` keeps the low eight bits of the code unit; read unsigned. */
  function NarrowChar(c: JChar): byte {
    c % 256
  }

  /** One narrowed byte per character. */
  function Narrow(s: JString): Bytes {
    seq(|s|, i requires 0 <= i < |s| => NarrowChar(s[i]))
  }

  /** Bytes read as characters (ISO-8859-1). */
  function Widen(bs: Bytes): JString {
    seq(|bs|, i requires 0 <= i < |bs| => bs[i] as JChar)
  }

  /** Narrowing undoes widening, and keeps the length of the text. */
  lemma NarrowWiden(bs: Bytes)
    ensures Narrow(Widen(bs)) == bs
  {
    assert forall i :: 0 <= i < |bs| ==> Narrow(Widen(bs))[i] == bs[i];
  }

  /** Narrowing loses information outside Latin-1: the code unit U+0141 and
      'A' (U+0041) go out as the same byte. */
  lemma NarrowingIsLossy()
    ensures Narrow([0x141]) == Narrow([0x41]) == [0x41]
  {
    assert Narrow([0x141])[0] == 0x41;
  }

  /** The decimal text of a non-negative number, as characters. */
  function DecimalText(n: nat): JString {
    Widen(DecimalDigits(n))
  }

  /** `Long.toString(v)`: an optional '-' and the decimal digits of |v|. */
  function LongToString(v: Long): JString {
    if v < 0 then [Minus] + DecimalText(-(v as int)) else DecimalText(v)
  }

  predicate IsDigitText(s: JString) {
    |s| >= 1 && forall i :: 0 <= i < |s| ==> Zero as JChar <= s[i] <= Zero as JChar + 9
  }

  /** `Long.parseLong` without the range check: the partner of LongToString. */
  function ParseLong(s: JString): Option<int> {
    if |s| >= 2 && s[0] == Minus && IsDigitText(s[1..]) then Some(-(ParseDecimal(Narrow(s[1..])) as int))
    else if IsDigitText(s) then Some(ParseDecimal(Narrow(s)))
    else None
  }

  /** The decimal text of a number is all digits, starts with no '-', and
      reads back as the number. */
  lemma DecimalTextRoundTrip(n: nat)
    ensures IsDigitText(DecimalText(n)) && DecimalText(n)[0] != Minus
    ensures ParseDecimal(Narrow(DecimalText(n))) == n
  {
    var d := DecimalDigits(n);
    var t := Widen(d);
    forall i | 0 <= i < |t|
      ensures Zero as JChar <= t[i] <= Zero as JChar + 9
    {
      assert t[i] == d[i] && IsDigit(d[i]);
    }
    NarrowWiden(d);
    DecimalRoundTrip(n);
  }

  /** Reading the text of a long back gives the long. */
  lemma LongRoundTrip(v: Long)
    ensures ParseLong(LongToString(v)) == Some(v)
  {
    if v < 0 {
      var n: nat := -(v as int);
      var t := DecimalText(n);
      DecimalTextRoundTrip(n);
      var s := [Minus] + t;
      assert LongToString(v) == s;
      assert |s| >= 2 && s[0] == Minus && s[1..] == t;
      assert ParseLong(s) == Some(-(n as int));
    } else {
      var t := DecimalText(v);
      DecimalTextRoundTrip(v);
      assert LongToString(v) == t;
      assert ParseLong(t) == Some(v as int);
    }
  }
}
