/** Lower-case hexadecimal text for byte strings, and its decoder. */
module Hex {
  import opened Words
  import opened Wrappers

  function Digit(n: nat): (c: char)
    requires n < 16
    ensures IsHexDigit(c) && !('A' <= c <= 'F')
  {
    if n < 10 then '0' + n as char else 'a' + (n - 10) as char
  }

  predicate IsHexDigit(c: char) {
    '0' <= c <= '9' || 'a' <= c <= 'f' || 'A' <= c <= 'F'
  }

  predicate HexText(s: string) {
    forall i :: 0 <= i < |s| ==> IsHexDigit(s[i])
  }

  function DigitValue(c: char): (n: nat)
    requires IsHexDigit(c)
    ensures n < 16
  {
    if '0' <= c <= '9' then (c - '0') as nat
    else if 'a' <= c <= 'f' then (c - 'a') as nat + 10
    else (c - 'A') as nat + 10
  }

  /** The digits in both cases. */
  lemma DigitsAreTheirs(n: nat)
    requires n < 16
    ensures var lower, upper := "0123456789abcdef", "0123456789ABCDEF";
            && Digit(n) == lower[n] && IsHexDigit(upper[n])
            && DigitValue(lower[n]) == n && DigitValue(upper[n]) == n
  {
  }

  /** The byte that two digits write. */
  function Pair(x: char, y: char): Byte
    requires IsHexDigit(x) && IsHexDigit(y)
  {
    16 * DigitValue(x) + DigitValue(y)
  }

  function Encode(bytes: seq<Byte>): (s: string)
    ensures |s| == 2 * |bytes|
    ensures forall i :: 0 <= i < |s| ==> IsHexDigit(s[i]) && !('A' <= s[i] <= 'F')
  {
    if bytes == [] then []
    else [Digit(bytes[0] / 16), Digit(bytes[0] % 16)] + Encode(bytes[1..])
  }

  /** Two digits a byte, in either case; anything else is an error. */
  function Decode(s: string): (r: Option<seq<Byte>>)
    ensures r.Some? ==> |s| == 2 * |r.value|
  {
    if s == [] then Some([])
    else if |s| == 1 || !IsHexDigit(s[0]) || !IsHexDigit(s[1]) then None
    else
      match Decode(s[2..])
      case None => None
      case Some(rest) => Some([Pair(s[0], s[1])] + rest)
  }

  lemma {:induction false} DecodeEncode(bytes: seq<Byte>)
    ensures Decode(Encode(bytes)) == Some(bytes)
  {
    if bytes != [] {
      assert Encode(bytes)[2..] == Encode(bytes[1..]);
      assert [bytes[0]] + bytes[1..] == bytes;
      DecodeEncode(bytes[1..]);
      DigitValueOfDigit(bytes[0] / 16);
      DigitValueOfDigit(bytes[0] % 16);
    }
  }

  lemma DigitValueOfDigit(n: nat)
    requires n < 16
    ensures DigitValue(Digit(n)) == n
  {
  }

  /** Decoding succeeds exactly on an even number of digits. */
  lemma {:induction false} DecodesIff(s: string)
    ensures Decode(s).Some? <==> HexText(s) && |s| % 2 == 0
  {
    if |s| >= 2 {
      DecodesIff(s[2..]);
      assert forall i :: 2 <= i < |s| ==> s[i] == s[2..][i - 2];
    }
  }

  /** The number that the digits write. */
  function Number(s: string): nat
    requires HexText(s)
  {
    if s == "" then 0 else 16 * Number(s[..|s| - 1]) + DigitValue(s[|s| - 1])
  }

  lemma DecodeCons(x: char, y: char, s: string)
    requires IsHexDigit(x) && IsHexDigit(y) && Decode(s).Some?
    ensures Decode([x, y] + s) == Some([Pair(x, y)] + Decode(s).value)
  {
    assert ([x, y] + s)[2..] == s;
  }

  lemma {:induction false} DecodeSnoc(s: string, x: char, y: char)
    requires Decode(s).Some? && IsHexDigit(x) && IsHexDigit(y)
    ensures Decode(s + [x, y]) == Some(Decode(s).value + [Pair(x, y)])
  {
    if s == "" {
      DecodeCons(x, y, "");
      assert s + [x, y] == [x, y] + "";
      assert [Pair(x, y)] + Decode(s).value == Decode(s).value + [Pair(x, y)];
    } else {
      var rest := s[2..];
      DecodeSnoc(rest, x, y);
      DecodeCons(s[0], s[1], rest + [x, y]);
      assert s + [x, y] == [s[0], s[1]] + (rest + [x, y]);
      var first, bytes := Pair(s[0], s[1]), Decode(rest).value;
      assert [first] + (bytes + [Pair(x, y)]) == [first] + bytes + [Pair(x, y)];
    }
  }

  /** Decoding keeps the number. */
  lemma {:induction false} DecodeKeepsNumber(s: string)
    requires HexText(s) && |s| % 2 == 0
    ensures Decode(s).Some? && FromBe(Decode(s).value) == Number(s)
  {
    if s != "" {
      var n := |s| - 2;
      var front, x, y := s[..n], s[n], s[n + 1];
      DecodeKeepsNumber(front);
      DecodeSnoc(front, x, y);
      NumberOfTwoMore(front, x, y);
      FromBeSnoc(Decode(front).value, Pair(x, y));
      assert front + [x, y] == s;
    }
  }

  lemma NumberOfTwoMore(s: string, x: char, y: char)
    requires HexText(s) && IsHexDigit(x) && IsHexDigit(y)
    ensures Number(s + [x, y]) == 256 * Number(s) + Pair(x, y)
  {
    assert (s + [x, y])[..|s| + 1] == s + [x];
    assert (s + [x])[..|s|] == s;
  }

  lemma FromBeSnoc(bytes: seq<Byte>, b: Byte)
    ensures FromBe(bytes + [b]) == 256 * FromBe(bytes) + b
  {
    assert (bytes + [b])[..|bytes|] == bytes;
  }

  // ---------------------------------------------------------------------
  // The mark in front
  // ---------------------------------------------------------------------

  predicate Marked(s: string) {
    |s| >= 2 && s[0] == '0' && s[1] == 'x'
  }

  /** Every "0x" at the front is dropped. */
  function StripMarks(s: string): string {
    if Marked(s) then StripMarks(s[2..]) else s
  }

  /** `k` times "0x". */
  function Marks(k: nat): string {
    if k == 0 then "" else ['0', 'x'] + Marks(k - 1)
  }

  lemma OneMarkIsStripped(s: string)
    ensures StripMarks(['0', 'x'] + s) == StripMarks(s)
  {
    assert (['0', 'x'] + s)[2..] == s;
  }

  lemma MarksCons(k: nat, s: string)
    requires k > 0
    ensures Marks(k) + s == ['0', 'x'] + (Marks(k - 1) + s)
  {
  }

  lemma {:induction false} MarksAreStripped(k: nat, s: string)
    requires !Marked(s)
    ensures StripMarks(Marks(k) + s) == s
  {
    if k == 0 {
      assert Marks(k) + s == s;
    } else {
      MarksCons(k, s);
      OneMarkIsStripped(Marks(k - 1) + s);
      MarksAreStripped(k - 1, s);
    }
  }

  /** And so every text is some number of marks and a rest without one. */
  lemma {:induction false} MarksBeforeRest(s: string) returns (k: nat)
    ensures s == Marks(k) + StripMarks(s) && !Marked(StripMarks(s))
  {
    if Marked(s) {
      var n := MarksBeforeRest(s[2..]);
      k := n + 1;
      assert s == ['0', 'x'] + s[2..];
    } else {
      k := 0;
    }
  }
}
