/** Bytes written as two hexadecimal digits each, and read back. */
module Hexadecimal {
  import opened Common

  type Nibble = n: int | 0 <= n < 16

  function Digit(n: Nibble): Byte {
    if n < 10 then '0' as int + n else 'a' as int + n - 10
  }

  function Nibbled(c: Byte): Option<Nibble> {
    if '0' as int <= c <= '9' as int then Some(c - '0' as int)
    else if 'a' as int <= c <= 'f' as int then Some(10 + c - 'a' as int)
    else if 'A' as int <= c <= 'F' as int then Some(10 + c - 'A' as int)
    else None
  }

  function Joined(hi: int, lo: int): Byte
    requires 0 <= hi < 16 && 0 <= lo < 16
  {
    16 * hi + lo
  }

  function Lower(c: Byte): Byte {
    if 'A' as int <= c <= 'Z' as int then c + 32 else c
  }

  function Lowered(s: Bytes): (r: Bytes)
    ensures |r| == |s|
  {
    seq(|s|, i requires 0 <= i < |s| => Lower(s[i]))
  }

  function Hexlify(s: Bytes): (r: Bytes)
    ensures |r| == 2 * |s|
  {
    if s == [] then [] else [Digit(s[0] / 16), Digit(s[0] % 16)] + Hexlify(s[1..])
  }

  /** Raises for an odd number of digits and for anything that is not a digit. */
  function Unhexlify(s: Bytes): (r: Outcome<Bytes>)
    ensures r.Ok? ==> 2 * |r.value| == |s|
  {
    if s == [] then Ok([])
    else if |s| == 1 then Raised
    else
      match (Nibbled(s[0]), Nibbled(s[1]), Unhexlify(s[2..]))
      case (Some(hi), Some(lo), Ok(rest)) => Ok([Joined(hi, lo)] + rest)
      case _ => Raised
  }

  /** The digits, and what counts as one. */
  lemma Digits(n: Nibble, c: Byte)
    ensures Digit(n) == "0123456789abcdef"[n] as int
    ensures Nibbled(c) == Some(n) <==> c == "0123456789abcdef"[n] as int || c == "0123456789ABCDEF"[n] as int
  {
  }

  lemma {:induction false} UnhexlifyInvertsHexlify(s: Bytes)
    ensures Unhexlify(Hexlify(s)) == Ok(s)
  {
    if s == [] {
    } else {
      UnhexlifyInvertsHexlify(s[1..]);
      assert Hexlify(s)[2..] == Hexlify(s[1..]);
      assert [s[0] / 16 * 16 + s[0] % 16] + s[1..] == s;
    }
  }

  /** The other way round only the case of the letters is lost. */
  lemma {:induction false} HexlifyInvertsUnhexlify(s: Bytes)
    requires Unhexlify(s).Ok?
    ensures Hexlify(Unhexlify(s).value) == Lowered(s)
  {
    if s == [] {
    } else {
      HexlifyInvertsUnhexlify(s[2..]);
      var b := Unhexlify(s).value;
      assert b[1..] == Unhexlify(s[2..]).value;
      var hi, lo := Nibbled(s[0]).value, Nibbled(s[1]).value;
      assert b[0] / 16 == hi && b[0] % 16 == lo;
      assert Digit(hi) == Lower(s[0]) && Digit(lo) == Lower(s[1]);
      assert Lowered(s) == [Lower(s[0]), Lower(s[1])] + Lowered(s[2..]);
    }
  }

  /** What hexlify writes is made of digits. */
  lemma {:induction false} HexlifyDigits(s: Bytes)
    ensures forall i :: 0 <= i < |Hexlify(s)| ==> Nibbled(Hexlify(s)[i]).Some?
  {
    if s == [] {
    } else {
      HexlifyDigits(s[1..]);
      assert forall i :: 2 <= i < |Hexlify(s)| ==> Hexlify(s)[i] == Hexlify(s[1..])[i - 2];
    }
  }
}
