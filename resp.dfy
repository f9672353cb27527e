/** The request side of the Redis Serialization Protocol (RESP): bytes, the
    ASCII decimal form of a length, and the bulk string
    `'$' <decimal length> CR LF <payload> CR LF` that frames every command
    argument. The parsers below are the partners of the encoders: they read a
    bulk string (or a run of them) back, which is how the self-delimiting
    framing is stated. */
module Resp {
  import opened Wrappers

  type byte = x: int | 0 <= x < 256
  type Bytes = seq<byte>

  const Dollar: byte := 36   // '$'
  const CR: byte := 13       // '\r'
  const LF: byte := 10       // '\n'
  const Zero: byte := 48     // '0'
  const CRLF: Bytes := [CR, LF]

  predicate IsDigit(b: byte) {
    Zero <= b <= Zero + 9
  }

  predicate AllDigits(s: Bytes) {
    forall i :: 0 <= i < |s| ==> IsDigit(s[i])
  }

  /** A decimal numeral without superfluous leading zeros. */
  predicate Canonical(s: Bytes) {
    |s| >= 1 && AllDigits(s) && (s[0] == Zero ==> |s| == 1)
  }

  /** The ASCII decimal digits of n: never empty, digits only, and a leading
      '0' only for n == 0 itself. */
  function DecimalDigits(n: nat): (r: Bytes)
    ensures Canonical(r)
    ensures r[0] == Zero <==> n == 0
    ensures |r| == 1 <==> n < 10
  {
    if n < 10 then [Zero + n] else DecimalDigits(n / 10) + [Zero + n % 10]
  }

  /** The value of a run of decimal digits (the empty run reads as 0). */
  function ParseDecimal(ds: Bytes): nat
    requires AllDigits(ds)
  {
    if ds == [] then 0 else 10 * ParseDecimal(ds[..|ds| - 1]) + (ds[|ds| - 1] - Zero)
  }

  /** Reading the digits back gives the number: DecimalDigits is injective. */
  lemma {:induction false} DecimalRoundTrip(n: nat)
    ensures ParseDecimal(DecimalDigits(n)) == n
  {
    if n >= 10 {
      var d := DecimalDigits(n / 10);
      assert DecimalDigits(n) == d + [Zero + n % 10];
      assert (d + [Zero + n % 10])[..|d|] == d;
      DecimalRoundTrip(n / 10);
    }
  }

  /** A non-empty numeral that does not start with '0' denotes at least 1. */
  lemma {:induction false} ParseDecimalPositive(s: Bytes)
    requires |s| >= 1 && AllDigits(s) && s[0] != Zero
    ensures ParseDecimal(s) >= 1
  {
    if |s| > 1 {
      ParseDecimalPositive(s[..|s| - 1]);
    }
  }

  /** Every canonical numeral is the decimal form of its value: together with
      DecimalRoundTrip, DecimalDigits and ParseDecimal are inverse bijections
      between naturals and canonical numerals. */
  lemma {:induction false} CanonicalRoundTrip(s: Bytes)
    requires Canonical(s)
    ensures DecimalDigits(ParseDecimal(s)) == s
  {
    if |s| > 1 {
      var t := s[..|s| - 1];
      assert s == t + [s[|s| - 1]];
      ParseDecimalPositive(t);
      CanonicalRoundTrip(t);
      var m, c := ParseDecimal(t), s[|s| - 1] - Zero;
      var n := ParseDecimal(s);
      assert n == 10 * m + c;
      DivideByTen(m, c);
      calc {
        DecimalDigits(n);
        DecimalDigits(n / 10) + [Zero + n % 10];
        DecimalDigits(m) + [s[|s| - 1]];
        t + [s[|s| - 1]];
      }
    }
  }

  lemma DivideByTen(m: nat, c: nat)
    requires m >= 1 && c < 10
    ensures (10 * m + c) / 10 == m && (10 * m + c) % 10 == c && 10 * m + c >= 10
  {
  }

  /** A RESP bulk string carrying payload. */
  function BulkString(payload: Bytes): Bytes {
    [Dollar] + DecimalDigits(|payload|) + CRLF + payload + CRLF
  }

  /** The length of the run of digits at the start of s. */
  function DigitRun(s: Bytes): (k: nat)
    ensures k <= |s|
    ensures AllDigits(s[..k])
    ensures k < |s| ==> !IsDigit(s[k])
  {
    if s == [] || !IsDigit(s[0]) then 0
    else
      var k := 1 + DigitRun(s[1..]);
      assert s[..k] == [s[0]] + s[1..][..k - 1];
      k
  }

  lemma {:induction false} DigitRunOfNumeral(d: Bytes, t: Bytes)
    requires AllDigits(d)
    requires t == [] || !IsDigit(t[0])
    ensures DigitRun(d + t) == |d|
  {
    if d != [] {
      assert (d + t)[1..] == d[1..] + t;
      DigitRunOfNumeral(d[1..], t);
    }
  }

  /** Reads one bulk string at the start of s: its payload and what follows. */
  function ParseBulkString(s: Bytes): (r: Option<(Bytes, Bytes)>)
    ensures r.Some? ==> |r.value.1| < |s|
  {
    if |s| == 0 || s[0] != Dollar then None
    else
      var k := DigitRun(s[1..]);
      if k == 0 then None
      else
        var n := ParseDecimal(s[1..][..k]);
        var rest := s[1 + k..];
        if |rest| < n + 4 || rest[..2] != CRLF || rest[n + 2..n + 4] != CRLF then None
        else Some((rest[2..n + 2], rest[n + 4..]))
  }

  /** A bulk string is self-delimiting: whatever follows it, parsing gives back
      exactly its payload and the bytes after it. */
  lemma BulkStringRoundTrip(payload: Bytes, rest: Bytes)
    ensures ParseBulkString(BulkString(payload) + rest) == Some((payload, rest))
  {
    var d := DecimalDigits(|payload|);
    var s := BulkString(payload) + rest;
    var tail := CRLF + payload + CRLF + rest;
    assert s == [Dollar] + (d + tail);
    assert s[1..] == d + tail;
    DigitRunOfNumeral(d, tail);
    assert s[1..][..|d|] == d;
    DecimalRoundTrip(|payload|);
    assert s[1 + |d|..] == tail;
    var n := |payload|;
    assert tail[..2] == CRLF;
    assert tail[2..n + 2] == payload;
    assert tail[n + 2..n + 4] == CRLF;
    assert tail[n + 4..] == rest;
  }

  /** The bytes of a run of bulk strings, one per payload, in order. */
  function Frames(payloads: seq<Bytes>): Bytes {
    if payloads == [] then [] else BulkString(payloads[0]) + Frames(payloads[1..])
  }

  lemma {:induction false} FramesAppend(payloads: seq<Bytes>, p: Bytes)
    ensures Frames(payloads + [p]) == Frames(payloads) + BulkString(p)
  {
    if payloads != [] {
      assert (payloads + [p])[1..] == payloads[1..] + [p];
      FramesAppend(payloads[1..], p);
    } else {
      assert [p][1..] == [];
    }
  }

  /** Reads a whole byte string as consecutive bulk strings. */
  function ParseFrames(s: Bytes): Option<seq<Bytes>>
    decreases |s|
  {
    if s == [] then Some([])
    else
      match ParseBulkString(s)
      case None => None
      case Some((payload, rest)) =>
        match ParseFrames(rest)
        case None => None
        case Some(payloads) => Some([payload] + payloads)
  }

  /** Concatenated bulk strings need no separator: parsing recovers every
      payload, in order. */
  lemma {:induction false} FramesRoundTrip(payloads: seq<Bytes>)
    ensures ParseFrames(Frames(payloads)) == Some(payloads)
  {
    if payloads != [] {
      BulkStringRoundTrip(payloads[0], Frames(payloads[1..]));
      FramesRoundTrip(payloads[1..]);
      assert payloads == [payloads[0]] + payloads[1..];
    }
  }
}
