/** UTF-16-LE as Python encodes and decodes it (RFC 2781, sections 2.1 and 2.2). */
module Utf16 {
  import opened Outcomes
  import opened Bytes

  function Unit(u: nat): Bytes
    requires u < 0x1_0000
  {
    U16(u)
  }

  function EncodeChar(c: char): Bytes {
    var v := c as int;
    if v < 0x1_0000 then Unit(v)
    else Unit(0xD800 + (v - 0x1_0000) / 0x400) + Unit(0xDC00 + (v - 0x1_0000) % 0x400)
  }

  /** `text.encode("utf-16-le")` */
  function Encode(text: string): Bytes {
    if text == [] then [] else EncodeChar(text[0]) + Encode(text[1..])
  }

  const REPLACEMENT: char := '\U{FFFD}'

  predicate IsHigh(u: int) { 0xD800 <= u < 0xDC00 }
  predicate IsLow(u: int) { 0xDC00 <= u < 0xE000 }

  function FromPair(high: nat, low: nat): char
    requires IsHigh(high) && IsLow(low)
  {
    (0x1_0000 + (high - 0xD800) * 0x400 + (low - 0xDC00)) as char
  }

  /** What the decoder reads at the front: a code point, or an error and how many bytes it covers. */
  datatype Step = Point(c: char, width: nat) | Bad(width: nat)

  function Front(data: Bytes): (r: Step)
    requires data != []
    ensures 0 < r.width <= |data|
  {
    if |data| == 1 then Bad(1)
    else
      var u := ReadU16(data, 0);
      if !IsHigh(u) && !IsLow(u) then Point(u as char, 2)
      else if IsLow(u) then Bad(2)
      else if |data| < 4 then Bad(|data|)
      else if IsLow(ReadU16(data, 2)) then Point(FromPair(u, ReadU16(data, 2)), 4)
      else Bad(2)
  }

  /** `data.decode("utf-16-le", errors="replace")` */
  function DecodeReplace(data: Bytes): string {
    if data == [] then []
    else
      var step := Front(data);
      [if step.Point? then step.c else REPLACEMENT] + DecodeReplace(data[step.width..])
  }

  /** `data.decode("utf-16-le")`; None when it raises UnicodeDecodeError. */
  function DecodeStrict(data: Bytes): Option<string> {
    if data == [] then Some([])
    else
      var step := Front(data);
      if step.Bad? then None
      else
        var rest := DecodeStrict(data[step.width..]);
        if rest.None? then None else Some([step.c] + rest.value)
  }

  lemma FrontOfChar(c: char, rest: Bytes)
    ensures Front(EncodeChar(c) + rest) == Point(c, |EncodeChar(c)|)
  {
    var v := c as int;
    var data := EncodeChar(c) + rest;
    if v < 0x1_0000 {
      UnpackU16(v);
      AtRead(data, 0, Unit(v), 0) by { assert data[0..2] == Unit(v); }
    } else {
      var high, low := 0xD800 + (v - 0x1_0000) / 0x400, 0xDC00 + (v - 0x1_0000) % 0x400;
      UnpackU16(high);
      UnpackU16(low);
      AtRead(data, 0, Unit(high), 0) by { assert data[0..2] == Unit(high); }
      AtRead(data, 2, Unit(low), 0) by { assert data[2..4] == Unit(low); }
    }
  }

  lemma {:induction false} DecodeEncoded(text: string)
    ensures DecodeReplace(Encode(text)) == text
    ensures DecodeStrict(Encode(text)) == Some(text)
  {
    if text != [] {
      var first, rest := EncodeChar(text[0]), Encode(text[1..]);
      FrontOfChar(text[0], rest);
      assert (first + rest)[|first|..] == rest;
      DecodeEncoded(text[1..]);
      assert text == [text[0]] + text[1..];
    }
  }

  lemma {:induction false} EncodeConcat(a: string, b: string)
    ensures Encode(a + b) == Encode(a) + Encode(b)
  {
    if a == [] {
      assert a + b == b;
    } else {
      assert (a + b)[0] == a[0] && (a + b)[1..] == a[1..] + b;
      EncodeConcat(a[1..], b);
    }
  }
}
