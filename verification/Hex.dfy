/** Base16 as in section 8 of RFC 4648: lower-case output, input of either case. */
module Hex {
  import opened Prelude

  function HexChar(d: nat): char
    requires d < 16
  {
    if d < 10 then ('0' as int + d) as char else ('a' as int + d - 10) as char
  }

  function HexDigit(c: char): Option<nat> {
    if '0' <= c <= '9' then Some(c as int - '0' as int)
    else if 'a' <= c <= 'f' then Some(c as int - 'a' as int + 10)
    else if 'A' <= c <= 'F' then Some(c as int - 'A' as int + 10)
    else None
  }

  function Encode(data: Bytes): string {
    if data == [] then ""
    else [HexChar(data[0] as int / 16), HexChar(data[0] as int % 16)] + Encode(data[1..])
  }

  /** Fails on odd length and on any character that is not a hex digit. */
  function Decode(text: string): Option<Bytes> {
    if text == "" then Some([])
    else if |text| == 1 then None
    else
      var high, low, rest := HexDigit(text[0]), HexDigit(text[1]), Decode(text[2..]);
      if high.None? || low.None? || rest.None? || 16 * high.value + low.value >= 256 then None
      else Some([(16 * high.value + low.value) as Byte] + rest.value)
  }

  lemma DigitRoundTrip(d: nat)
    requires d < 16
    ensures HexDigit(HexChar(d)) == Some(d)
  {
  }

  lemma {:induction false} DecodeOfEncode(data: Bytes)
    ensures Decode(Encode(data)) == Some(data)
  {
    if data != [] {
      DecodeOfEncode(data[1..]);
      DigitRoundTrip(data[0] as int / 16);
      DigitRoundTrip(data[0] as int % 16);
      var text, b := Encode(data), data[0] as int;
      assert text[0] == HexChar(b / 16) && text[1] == HexChar(b % 16) && text[2..] == Encode(data[1..]);
      assert 16 * (b / 16) + b % 16 == b;
      assert (b as Byte) == data[0];
      assert [data[0]] + data[1..] == data;
    }
  }

  predicate IsHex(c: char) {
    '0' <= c <= '9' || 'a' <= c <= 'f' || 'A' <= c <= 'F'
  }

  function Lower(c: char): char {
    if 'A' <= c <= 'F' then (c as int - 'A' as int + 'a' as int) as char else c
  }

  function LowerAll(s: string): string {
    if s == "" then "" else [Lower(s[0])] + LowerAll(s[1..])
  }

  /** Exactly the texts of even length in hex digits decode, and encoding gives them back in lower case. */
  lemma {:induction false} DecodesIff(text: string)
    ensures Decode(text).Some? <==> |text| % 2 == 0 && forall i | 0 <= i < |text| :: IsHex(text[i])
    ensures Decode(text).Some? ==> Encode(Decode(text).value) == LowerAll(text)
  {
    if |text| >= 2 {
      var rest := text[2..];
      DecodesIff(rest);
      assert text == [text[0], text[1]] + rest && (|text| - 2) % 2 == |text| % 2;
      assert forall i | 0 <= i < |rest| :: rest[i] == text[i + 2];
      if Decode(text).Some? {
        var high, low := HexDigit(text[0]).value, HexDigit(text[1]).value;
        assert (16 * high + low) / 16 == high && (16 * high + low) % 16 == low;
        assert Decode(text).value[1..] == Decode(rest).value;
        assert text[1..][1..] == rest && LowerAll(text[1..]) == [Lower(text[1])] + LowerAll(rest);
      }
    }
  }

  /** The bytes of "foobar" read 666f6f626172, as in section 10 of RFC 4648. */
  lemma Foobar()
    ensures Encode([0x66, 0x6f, 0x6f, 0x62, 0x61, 0x72]) == "666f6f626172"
  {
    var data: Bytes := [0x66, 0x6f, 0x6f, 0x62, 0x61, 0x72];
    assert data[1..][1..] == data[2..] && data[2..][1..] == data[3..] && data[3..][1..] == data[4..];
    assert data[4..][1..] == data[5..] && data[5..][1..] == [];
    assert Encode(data[5..]) == "72" && Encode(data[4..]) == "6172" && Encode(data[3..]) == "626172";
  }
}
