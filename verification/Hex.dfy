/** Hexadecimal text, as the program passes tag numbers and block contents around. */
module Hex {
  import opened Bytes

  const DIGITS := "0123456789abcdef"

  /** Two lower-case digits a byte. */
  function Encode(data: seq<Byte>): (text: string)
    ensures |text| == 2 * |data|
  {
    if data == [] then ""
    else [DIGITS[data[0] / 16], DIGITS[data[0] % 16]] + Encode(data[1..])
  }

  function DigitValue(c: char): Option<nat> {
    if '0' <= c <= '9' then Some((c - '0') as nat)
    else if 'a' <= c <= 'f' then Some((c - 'a') as nat + 10)
    else if 'A' <= c <= 'F' then Some((c - 'A') as nat + 10)
    else None
  }

  /** Digits of either case; an odd number of them, or anything else, is an error. */
  function Decode(text: string): (r: Option<seq<Byte>>)
    ensures r.Some? ==> |text| == 2 * |r.value|
  {
    if text == "" then Some([])
    else if |text| == 1 then None
    else match (DigitValue(text[0]), DigitValue(text[1]), Decode(text[2..]))
      case (Some(h), Some(l), Some(rest)) =>
        assert h < 16 && l < 16;
        Some([16 * h + l] + rest)
      case _ => None
  }

  function Upper(text: string): (r: string)
    ensures |r| == |text|
  {
    seq(|text|, i requires 0 <= i < |text| =>
      if 'a' <= text[i] <= 'z' then text[i] - 'a' + 'A' else text[i])
  }

  lemma DigitsDecode(n: nat)
    requires n < 16
    ensures DigitValue(DIGITS[n]) == Some(n)
  {}

  lemma {:induction false} DecodeFirst(c: char, d: char, h: nat, l: nat, text: string)
    requires DigitValue(c) == Some(h) && DigitValue(d) == Some(l) && Decode(text).Some?
    ensures h < 16 && l < 16 && Decode([c, d] + text) == Some([16 * h + l] + Decode(text).value)
  {
    var all := [c, d] + text;
    assert all[0] == c && all[1] == d && all[2..] == text;
  }

  lemma DecodeNothing()
    ensures Decode(Encode([])) == Some([])
  {}

  lemma {:induction false} DecodeEncode(data: seq<Byte>)
    ensures Decode(Encode(data)) == Some(data)
  {
    hide Decode, DigitValue;
    if data == [] {
      DecodeNothing();
    } else {
      DecodeEncode(data[1..]);
      var h, l := data[0] / 16, data[0] % 16;
      DigitsDecode(h);
      DigitsDecode(l);
      DecodeFirst(DIGITS[h], DIGITS[l], h, l, Encode(data[1..]));
      assert [data[0]] + data[1..] == data;
    }
  }

  /** Upper case names the same bytes. */
  lemma {:induction false} DecodeUpper(text: string)
    ensures Decode(Upper(text)) == Decode(text)
  {
    if |text| > 1 {
      assert Upper(text)[2..] == Upper(text[2..]);
      DecodeUpper(text[2..]);
    }
  }

  lemma {:induction false} EncodeAppend(x: seq<Byte>, y: seq<Byte>)
    ensures Encode(x + y) == Encode(x) + Encode(y)
  {
    if x == [] {
      assert x + y == y;
    } else {
      assert (x + y)[1..] == x[1..] + y;
      EncodeAppend(x[1..], y);
    }
  }
}
