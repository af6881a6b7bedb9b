/** The hexadecimal text of a digest, and the parser that undoes it. */
module Hex {
  import opened ByteOrder

  const HEX: string := "0123456789abcdef"

  function HexText(bytes: seq<Byte>): (s: string)
    ensures |s| == 2 * |bytes|
  {
    if bytes == [] then ""
    else
      var b := bytes[|bytes| - 1];
      HexText(bytes[..|bytes| - 1]) + [HEX[b / 16], HEX[b % 16]]
  }

  /** The value of a hex digit, or none. */
  function Digit(c: char): (v: int)
    ensures -1 <= v < 16
  {
    if '0' <= c <= '9' then c as int - '0' as int
    else if 'a' <= c <= 'f' then c as int - 'a' as int + 10
    else -1
  }

  /** Byte k is written as its high and then its low digit, at 2k. */
  lemma {:induction false} HexTextAt(bytes: seq<Byte>, k: nat)
    requires k < |bytes|
    ensures HexText(bytes)[2 * k] == HEX[bytes[k] / 16] && HexText(bytes)[2 * k + 1] == HEX[bytes[k] % 16]
  {
    if k < |bytes| - 1 {
      HexTextAt(bytes[..|bytes| - 1], k);
    }
  }

  datatype Option<+E> = None | Some(value: E)

  /** Reads pairs of digits; rejects an odd length and any other character. */
  function ParseHex(s: string): (r: Option<seq<Byte>>) {
    if s == "" then Some([])
    else if |s| < 2 then None
    else
      var hi, lo := Digit(s[|s| - 2]), Digit(s[|s| - 1]);
      var front := ParseHex(s[..|s| - 2]);
      if hi < 0 || lo < 0 || front.None? then None
      else Some(front.value + [hi * 16 + lo])
  }

  lemma {:induction false} DigitOfHex(v: nat)
    requires v < 16
    ensures Digit(HEX[v]) == v
  {
    if v < 10 {
      assert HEX[v] == '0' + v as char;
    } else {
      assert HEX[v] == 'a' + (v - 10) as char;
    }
  }

  /** Every byte string is recovered from its text, so the text is injective. */
  lemma {:induction false} ParseHexText(bytes: seq<Byte>)
    ensures ParseHex(HexText(bytes)) == Some(bytes)
  {
    hide Digit, HEX;
    if bytes != [] {
      var front, b := bytes[..|bytes| - 1], bytes[|bytes| - 1];
      ParseHexText(front);
      var s := HexText(bytes);
      assert s[..|s| - 2] == HexText(front);
      DigitOfHex(b / 16);
      DigitOfHex(b % 16);
      assert bytes == front + [b];
    }
  }

  lemma {:induction false} HexTextInjective(a: seq<Byte>, b: seq<Byte>)
    requires HexText(a) == HexText(b)
    ensures a == b
  {
    ParseHexText(a);
    ParseHexText(b);
  }

  method BytesToHexString(input: seq<Byte>) returns (str: string)
    ensures str == HexText(input)
    ensures |str| == 2 * |input| && ParseHex(str) == Some(input)
  {
    str := "";
    for i := 0 to |input|
      invariant str == HexText(input[..i])
    {
      assert input[..i + 1][..i] == input[..i];
      var t := input[i];
      var a := t / 16;
      var b := t % 16;
      str := str + [HEX[a]];
      str := str + [HEX[b]];
    }
    assert input[..|input|] == input;
    ParseHexText(input);
  }
}
