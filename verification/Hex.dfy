/**
 Hexadecimal text of byte strings (src/utils/hex.hpp).

 `HexText` and `HexBytes` are the meanings of the two loops; `ToHex` and `FromHex` are the loops.
 */
module Hex {

  type byte = x: int | 0 <= x < 256

  datatype Option<+T> = None | Some(value: T)

  // The digit std::hex prints for a value below sixteen.
  function HexDigit(v: byte): char
    requires v < 16
  {
    if v < 10 then ('0' as int + v) as char else ('a' as int + (v - 10)) as char
  }

  predicate IsHexDigit(ch: char) {
    '0' <= ch <= '9' || 'a' <= ch <= 'f'
  }

  function HexText(data: seq<byte>): string {
    if data == [] then []
    else [HexDigit(data[0] / 16), HexDigit(data[0] % 16)] + HexText(data[1..])
  }

  // Streams every byte as two lower-case hexadecimal digits.
  method ToHex(data: seq<byte>) returns (s: string)
    ensures s == HexText(data)
  {
    s := [];
    for i := 0 to |data|
      invariant s + HexText(data[i..]) == HexText(data)
    {
      assert data[i..][1..] == data[i + 1..];
      s := s + [HexDigit(data[i] / 16), HexDigit(data[i] % 16)];
    }
  }

  function DigitValue(ch: char): (v: Option<byte>)
    ensures v.Some? ==> v.value < 16
  {
    if '0' <= ch <= '9' then Some(ch as int - '0' as int)
    else if 'a' <= ch <= 'f' then Some(ch as int - 'a' as int + 10)
    else if 'A' <= ch <= 'F' then Some(ch as int - 'A' as int + 10)
    else None
  }

  predicate IsSpace(ch: char) {
    ch == ' ' || '\t' <= ch <= '\r'
  }

  // std::stoi on two characters in base 16, cast to a byte: leading white space, a sign and a
  // trailing non-digit are tolerated, anything without a digit throws (None).
  function PairValue(hi: char, lo: char): Option<byte> {
    match (DigitValue(hi), DigitValue(lo))
    case (Some(h), Some(l)) => Some(16 * h + l)
    case (Some(h), None) => Some(h)
    case (None, Some(l)) =>
      if IsSpace(hi) || hi == '+' then Some(l)
      else if hi == '-' then Some(if l == 0 then 0 else 256 - l)
      else None
    case (None, None) => None
  }

  // An odd last character is ignored; None is the exception of std::stoi.
  function HexBytes(hex: string): Option<seq<byte>> {
    if |hex| < 2 then Some([])
    else match (PairValue(hex[0], hex[1]), HexBytes(hex[2..]))
      case (Some(b), Some(rest)) => Some([b] + rest)
      case _ => None
  }

  method FromHex(hex: string) returns (out: Option<seq<byte>>)
    ensures out == HexBytes(hex)
  {
    var data: seq<byte> := [];
    var i := 0;
    assert hex[0..] == hex;
    assert forall rest: seq<byte> :: data + rest == rest;
    while i + 1 < |hex|
      invariant 0 <= i <= |hex|
      invariant HexBytes(hex) == match HexBytes(hex[i..]) case Some(rest) => Some(data + rest) case None => None
      decreases |hex| - i
    {
      assert hex[i..][2..] == hex[i + 2..];
      match PairValue(hex[i], hex[i + 1]) {
        case None => return None;
        case Some(b) =>
          assert forall rest: seq<byte> :: data + ([b] + rest) == (data + [b]) + rest;
          data := data + [b];
      }
      i := i + 2;
    }
    assert data + [] == data;
    return Some(data);
  }

  predicate HexDigitsOnly(s: string) {
    forall i | 0 <= i < |s| :: IsHexDigit(s[i])
  }

  // Two digits a byte, lower-case hexadecimal alphabet.
  lemma {:induction false} HexTextShape(data: seq<byte>)
    ensures |HexText(data)| == 2 * |data|
    ensures HexDigitsOnly(HexText(data))
  {
    if data != [] {
      HexTextShape(data[1..]);
      var tail := HexText(data[1..]);
      forall i | 0 <= i < |HexText(data)| ensures IsHexDigit(HexText(data)[i]) {
        if i >= 2 {
          assert HexText(data)[i] == tail[i - 2];
        }
      }
    }
  }

  // Byte k stands at positions 2 * k and 2 * k + 1, high digit first.
  lemma {:induction false} HexTextAt(data: seq<byte>, k: nat)
    requires k < |data|
    ensures |HexText(data)| == 2 * |data|
    ensures HexText(data)[2 * k] == "0123456789abcdef"[data[k] / 16]
    ensures HexText(data)[2 * k + 1] == "0123456789abcdef"[data[k] % 16]
  {
    HexTextShape(data);
    if k == 0 {
      DigitText(data[0] / 16);
      DigitText(data[0] % 16);
    } else {
      HexTextAt(data[1..], k - 1);
      assert HexText(data)[2..] == HexText(data[1..]);
    }
  }

  lemma DigitText(v: byte)
    requires v < 16
    ensures HexDigit(v) == "0123456789abcdef"[v]
  {
  }

  // What std::stoi makes of pairs that toHex never writes, and of an odd last character.
  lemma StoiPairs(digit: char)
    requires DigitValue(digit).Some?
    ensures PairValue('A', 'F') == Some(175) && PairValue('1', 'g') == Some(1)
    ensures PairValue(' ', digit) == PairValue('+', digit) == PairValue('0', digit)
    ensures PairValue('-', '1') == Some(255) && PairValue('-', '0') == Some(0)
    ensures PairValue('g', digit) == None && PairValue('-', '-') == None
    ensures HexBytes([digit]) == Some([])
  {
  }

  lemma PairRoundTrip(b: byte)
    ensures PairValue(HexDigit(b / 16), HexDigit(b % 16)) == Some(b)
  {
  }

  // fromHex undoes toHex.
  lemma {:induction false} HexRoundTrip(data: seq<byte>)
    ensures HexBytes(HexText(data)) == Some(data)
  {
    if data != [] {
      HexRoundTrip(data[1..]);
      PairRoundTrip(data[0]);
      var s := HexText(data);
      assert s[2..] == HexText(data[1..]);
      assert [data[0]] + data[1..] == data;
    }
  }
}
