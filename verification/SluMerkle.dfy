/**
 SLU addresses and the zk-aware state root.

 An address is printed with the digests it was made from and parsed back to the
 32 bytes of the second one; the root hashes the sorted leaves of all accounts.
 Keccak and the UTF-8 bytes of a string are parameters.
 */
module SluMerkle {
  import opened Words
  import Hex
  import Text
  import opened Wrappers

  type Bytes = seq<Byte>

  datatype Error = NoSegment | WrongLength | BadHex | TooLong

  datatype Result<+T> = Ok(value: T) | Err(error: Error)

  function Min(a: nat, b: nat): nat {
    if a < b then a else b
  }

  // ---------------------------------------------------------------------
  // The printer
  // ---------------------------------------------------------------------

  const SLU_PREFIX := "*slu*#"

  /** The address text for the two 32-byte digests, cut to the lengths asked for. */
  function FormatAddress(id: Bytes, zk: Bytes, idLength: nat, zkLength: nat): string
    requires |id| == 32 && |zk| == 32
  {
    "*slu*#*" + Hex.Encode(id[..Min(idLength, 32)]) + "*#*" + Hex.Encode(zk[..Min(zkLength, 32)]) + "#"
  }

  // ---------------------------------------------------------------------
  // The parser
  // ---------------------------------------------------------------------

  function TrimLeft(s: string, c: char): string {
    if s != "" && s[0] == c then TrimLeft(s[1..], c) else s
  }

  function TrimRight(s: string, c: char): string {
    if s != "" && s[|s| - 1] == c then TrimRight(s[..|s| - 1], c) else s
  }

  function TrimMatches(s: string, c: char): string {
    TrimRight(TrimLeft(s, c), c)
  }

  /** The last segment that is not blank. */
  function LastNonBlank(parts: seq<string>): Option<string> {
    if parts == [] then None
    else if Text.Trim(parts[|parts| - 1]) != "" then Some(parts[|parts| - 1])
    else LastNonBlank(parts[..|parts| - 1])
  }

  function Zeros(n: nat): (z: Bytes)
    ensures |z| == n
  {
    seq(n, _ => 0)
  }

  /** The last segment of an SLU address: 64 hexadecimal digits between marks. */
  function ParseSlu(trimmed: string): (r: Result<Bytes>)
    ensures r.Ok? ==> |r.value| == 32
  {
    match LastNonBlank(Text.Split(trimmed, '#'))
    case None => Err(NoSegment)
    case Some(part) =>
      var hexPart := TrimMatches(TrimMatches(Text.Trim(part), '*'), '#');
      if |hexPart| != 64 then Err(WrongLength)
      else
        match Hex.Decode(hexPart)
        case None => Err(BadHex)
        case Some(bytes) => Ok(bytes)
  }

  function PadLeft(bytes: Bytes): (r: Bytes)
    requires |bytes| <= 32
    ensures |r| == 32
  {
    Zeros(32 - |bytes|) + bytes
  }

  function ParseHex(trimmed: string): (r: Result<Bytes>)
    ensures r.Ok? ==> |r.value| == 32
  {
    match Hex.Decode(Hex.StripMarks(trimmed))
    case None => Err(BadHex)
    case Some(bytes) => if |bytes| > 32 then Err(TooLong) else Ok(PadLeft(bytes))
  }

  /** The 32 bytes an address stands for; the program panics on the errors. */
  function AddrToB256(addr: string): (r: Result<Bytes>)
    ensures r.Ok? ==> |r.value| == 32
  {
    var trimmed := Text.Trim(addr);
    if SLU_PREFIX <= trimmed then ParseSlu(trimmed) else ParseHex(trimmed)
  }

  // ---------------------------------------------------------------------
  // Printer and parser
  // ---------------------------------------------------------------------

  lemma TrimMatchesHex(s: string)
    requires Hex.HexText(s)
    ensures TrimMatches("*" + s, '*') == s
    ensures TrimMatches(s, '#') == s
  {
    assert ("*" + s)[1..] == s;
    assert TrimLeft("*" + s, '*') == TrimLeft(s, '*') == s;
    assert TrimRight(s, '*') == s;
  }

  lemma SegmentsOfAddress(id: string, zk: string)
    requires Hex.HexText(id) && Hex.HexText(zk)
    ensures Text.Split("*slu*#*" + id + "*#*" + zk + "#", '#') == ["*slu*", "*" + id + "*", "*" + zk, ""]
  {
    AddressConcat(id, zk);
    FourSegments("*slu*", "*" + id + "*", "*" + zk, '#');
  }

  lemma AddressConcat(id: string, zk: string)
    ensures "*slu*#*" + id + "*#*" + zk + "#"
            == "*slu*" + ['#'] + (("*" + id + "*") + ['#'] + (("*" + zk) + ['#'] + ""))
  {
  }

  lemma FourSegments(a: string, b: string, c: string, sep: char)
    requires Text.Free(a, sep) && Text.Free(b, sep) && Text.Free(c, sep)
    ensures Text.Split(a + [sep] + (b + [sep] + (c + [sep] + "")), sep) == [a, b, c, ""]
  {
    Text.SplitConcat(a, sep, b + [sep] + (c + [sep] + ""));
    Text.SplitConcat(b, sep, c + [sep] + "");
    Text.SplitConcat(c, sep, "");
    Text.SplitFree(a, sep);
    Text.SplitFree(b, sep);
    Text.SplitFree(c, sep);
  }

  lemma HexIsNotWhite(s: string)
    requires Hex.HexText(s)
    ensures Text.Trim("*" + s) == "*" + s
  {
    Text.TrimIsIdentity("*" + s);
  }

  /** The segment that parsing looks at is the second digest's. */
  lemma ParsedSegment(id: string, zk: string)
    requires Hex.HexText(id) && Hex.HexText(zk)
    ensures var addr := "*slu*#*" + id + "*#*" + zk + "#";
            && Text.Trim(addr) == addr
            && SLU_PREFIX <= addr
            && LastNonBlank(Text.Split(addr, '#')) == Some("*" + zk)
  {
    var addr := "*slu*#*" + id + "*#*" + zk + "#";
    assert addr[0] == '*' && addr[|addr| - 1] == '#';
    Text.TrimIsIdentity(addr);
    SegmentsOfAddress(id, zk);
    HexIsNotWhite(zk);
    var parts := ["*slu*", "*" + id + "*", "*" + zk, ""];
    assert parts[..3][2] == "*" + zk;
    assert Text.Trim("") == "";
    assert LastNonBlank(parts) == LastNonBlank(parts[..3]);
  }

  lemma ParseSluOf(id: string, zk: string)
    requires Hex.HexText(id) && Hex.HexText(zk)
    ensures AddrToB256("*slu*#*" + id + "*#*" + zk + "#")
            == if |zk| != 64 then Err(WrongLength)
               else match Hex.Decode(zk) case None => Err(BadHex) case Some(bytes) => Ok(bytes)
  {
    var addr := "*slu*#*" + id + "*#*" + zk + "#";
    ParsedSegment(id, zk);
    HexIsNotWhite(zk);
    TrimMatchesHex(zk);
    assert AddrToB256(addr) == ParseSlu(addr);
  }

  /**
   Parsing a printed address gives back exactly the second digest when all of it
   was printed, and fails on the length when less was.
   */
  lemma AddressRoundTrip(id: Bytes, zk: Bytes, idLength: nat, zkLength: nat)
    requires |id| == 32 && |zk| == 32
    ensures AddrToB256(FormatAddress(id, zk, idLength, zkLength))
            == if zkLength >= 32 then Ok(zk) else Err(WrongLength)
  {
    var printed := zk[..Min(zkLength, 32)];
    ParseSluOf(Hex.Encode(id[..Min(idLength, 32)]), Hex.Encode(printed));
    Hex.DecodeEncode(printed);
    if zkLength >= 32 {
      assert printed == zk;
    }
  }

  // ---------------------------------------------------------------------
  // Every SLU address
  // ---------------------------------------------------------------------

  predicate Stars(s: string) {
    forall i :: 0 <= i < |s| ==> s[i] == '*'
  }

  /** What may follow the last segment with ink: marks, and blanks between them. */
  predicate Trailing(s: string) {
    s == "" || (s[0] == '#' && forall i :: 0 <= i < |s| ==> s[i] == '#' || Text.IsWhite(s[i]))
  }

  lemma {:induction false} TrimLeftStars(stars: string, s: string)
    requires Stars(stars) && (s == "" || s[0] != '*')
    ensures TrimLeft(stars + s, '*') == s
  {
    if stars == "" {
      assert stars + s == s;
    } else {
      assert (stars + s)[1..] == stars[1..] + s;
      TrimLeftStars(stars[1..], s);
    }
  }

  lemma {:induction false} TrimRightStars(s: string, stars: string)
    requires Stars(stars) && (s == "" || s[|s| - 1] != '*')
    ensures TrimRight(s + stars, '*') == s
  {
    if stars == "" {
      assert s + stars == s;
    } else {
      assert (s + stars)[..|s + stars| - 1] == s + stars[..|stars| - 1];
      TrimRightStars(s, stars[..|stars| - 1]);
    }
  }

  /** A text between stars, which it does not begin or end with. */
  predicate Core(core: string) {
    Text.Free(core, '#') && (core == "" || (core[0] != '*' && core[|core| - 1] != '*'))
  }

  lemma StarsAreTrimmed(left: string, core: string, right: string)
    requires Stars(left) && Core(core) && Stars(right)
    ensures TrimMatches(TrimMatches(left + core + right, '*'), '#') == core
  {
    if core == "" {
      assert left + core + right == (left + right) + "";
      TrimLeftStars(left + right, "");
    } else {
      assert left + core + right == left + (core + right);
      TrimLeftStars(left, core + right);
      TrimRightStars(core, right);
    }
  }

  lemma {:induction false} LastNonBlankIs(front: seq<string>, part: string, blanks: seq<string>)
    requires Text.Trim(part) != "" && forall i :: 0 <= i < |blanks| ==> Text.Trim(blanks[i]) == ""
    ensures LastNonBlank(front + [part] + blanks) == Some(part)
  {
    var parts := front + [part] + blanks;
    if blanks == [] {
      assert parts[|parts| - 1] == part;
    } else {
      assert parts[..|parts| - 1] == front + [part] + blanks[..|blanks| - 1];
      LastNonBlankIs(front, part, blanks[..|blanks| - 1]);
    }
  }

  lemma PiecesAreBlank(s: string)
    requires forall i :: 0 <= i < |s| ==> s[i] == '#' || Text.IsWhite(s[i])
    ensures forall i :: 0 <= i < |Text.Split(s, '#')| ==> Text.Trim(Text.Split(s, '#')[i]) == ""
  {
    Text.SplitPartsFree(s, '#');
    forall i | 0 <= i < |Text.Split(s, '#')|
      ensures Text.Trim(Text.Split(s, '#')[i]) == ""
    {
      var part := Text.Split(s, '#')[i];
      forall j | 0 <= j < |part|
        ensures Text.IsWhite(part[j])
      {
        Text.SplitKeepsChars(s, '#', i, part[j]);
      }
      BlankTrims(part);
    }
  }

  /** The segment and the pieces of what follows it. */
  lemma SegmentPieces(segment: string, tail: string)
    requires Text.Free(segment, '#') && Trailing(tail)
    ensures var pieces := Text.Split(segment + tail, '#');
            pieces[0] == segment && forall i :: 1 <= i < |pieces| ==> Text.Trim(pieces[i]) == ""
  {
    Text.SplitFree(segment, '#');
    if tail == "" {
      assert segment + tail == segment;
    } else {
      assert segment + tail == segment + ['#'] + tail[1..];
      Text.SplitConcat(segment, '#', tail[1..]);
      PiecesAreBlank(tail[1..]);
    }
  }

  lemma SegmentWithInk(front: string, segment: string, tail: string)
    requires Text.Free(segment, '#') && Text.Trim(segment) != "" && Trailing(tail)
    ensures LastNonBlank(Text.Split(front + ['#'] + (segment + tail), '#')) == Some(segment)
  {
    Text.SplitConcat(front, '#', segment + tail);
    SegmentPieces(segment, tail);
    var parts, pieces := Text.Split(front, '#'), Text.Split(segment + tail, '#');
    LastNonBlankIs(parts, segment, pieces[1..]);
    assert parts + pieces == parts + [segment] + pieces[1..];
  }

  lemma ParsesCore(trimmed: string, segment: string, core: string)
    requires LastNonBlank(Text.Split(trimmed, '#')) == Some(segment)
    requires TrimMatches(TrimMatches(Text.Trim(segment), '*'), '#') == core
    ensures ParseSlu(trimmed)
            == if |core| != 64 then Err(WrongLength)
               else if !Hex.HexText(core) then Err(BadHex)
               else Ok(ToBe(Hex.Number(core), 32))
  {
    Hex.DecodesIff(core);
    if |core| == 64 && Hex.HexText(core) {
      PaddedIsNumber(core);
      var bytes := Hex.Decode(core).value;
      assert PadLeft(bytes) == bytes;
    }
  }

  /**
   What an SLU address stands for: the last segment with ink in it, without blanks
   and then stars around it, writes in 64 digits of either case a number, which is
   given in 32 bytes; another length is one error, other characters another.
   */
  lemma SluAddressIsItsLastSegment(addr: string, front: string, before: string, left: string, core: string,
                                   right: string, after: string, tail: string)
    requires IsSlu(addr) && Text.Trim(addr) == front + ['#'] + ((before + (left + core + right) + after) + tail)
    requires Text.Blank(before) && Text.Blank(after) && Trailing(tail)
    requires Stars(left) && Core(core) && Stars(right)
    requires left + core + right != "" && Text.Trimmed(left + core + right)
    ensures AddrToB256(addr)
            == if |core| != 64 then Err(WrongLength)
               else if !Hex.HexText(core) then Err(BadHex)
               else Ok(ToBe(Hex.Number(core), 32))
  {
    var inked := left + core + right;
    var segment := before + inked + after;
    Text.TrimAround(before, inked, after);
    SegmentIsFree(before, left, core, right, after);
    SegmentWithInk(front, segment, tail);
    StarsAreTrimmed(left, core, right);
    ParsesCore(Text.Trim(addr), segment, core);
  }

  lemma SegmentIsFree(before: string, left: string, core: string, right: string, after: string)
    requires Text.Blank(before) && Text.Blank(after) && Stars(left) && Core(core) && Stars(right)
    ensures Text.Free(before + (left + core + right) + after, '#')
  {
    assert Text.Free(before, '#') && Text.Free(after, '#') && Text.Free(left, '#') && Text.Free(right, '#');
  }

  lemma {:induction false} InkIsFound(parts: seq<string>, i: nat)
    requires i < |parts| && Text.Trim(parts[i]) != ""
    ensures LastNonBlank(parts).Some?
  {
    if i < |parts| - 1 {
      InkIsFound(parts[..|parts| - 1], i);
    }
  }

  /** An SLU address always has such a segment, its prefix at the least. */
  lemma SluHasASegment(addr: string)
    requires IsSlu(addr)
    ensures AddrToB256(addr) != Err(NoSegment)
  {
    var t := Text.Trim(addr);
    var prefix: string := "*slu*";
    assert t == prefix + ['#'] + t[6..] by {
      assert t[..6] == SLU_PREFIX;
    }
    Text.SplitConcat(prefix, '#', t[6..]);
    Text.SplitFree(prefix, '#');
    Text.TrimIsIdentity(prefix);
    InkIsFound(Text.Split(t, '#'), 0);
  }

  /** Between the marks, the digits of the first bytes of the digest, at most all of them. */
  predicate Shows(part: string, left: string, digest: Bytes, length: nat, right: string)
    requires |digest| == 32
  {
    var n := if length < 32 then length else 32;
    && |part| == |left| + 2 * n + |right| && left <= part && part[|left| + 2 * n..] == right
    && Hex.Decode(part[|left|..|left| + 2 * n]) == Some(digest[..n])
  }

  lemma MarkedDigest(left: string, digest: Bytes, length: nat, right: string)
    requires |digest| == 32
    ensures Shows(left + Hex.Encode(digest[..Min(length, 32)]) + right, left, digest, length, right)
  {
    var n := Min(length, 32);
    var digits := Hex.Encode(digest[..n]);
    Hex.DecodeEncode(digest[..n]);
    var part := left + digits + right;
    assert part[|left|..|left| + 2 * n] == digits;
  }

  /** A printed address shows both digests, as far as asked for, between its marks. */
  lemma AddressShowsBothDigests(id: Bytes, zk: Bytes, idLength: nat, zkLength: nat)
    requires |id| == 32 && |zk| == 32
    ensures var parts := Text.Split(FormatAddress(id, zk, idLength, zkLength), '#');
            && |parts| == 4 && parts[0] == "*slu*" && parts[3] == ""
            && Shows(parts[1], "*", id, idLength, "*") && Shows(parts[2], "*", zk, zkLength, "")
  {
    var idDigits, zkDigits := Hex.Encode(id[..Min(idLength, 32)]), Hex.Encode(zk[..Min(zkLength, 32)]);
    SegmentsOfAddress(idDigits, zkDigits);
    MarkedDigest("*", id, idLength, "*");
    MarkedDigest("*", zk, zkLength, "");
    assert "*" + zkDigits + "" == "*" + zkDigits;
  }

  // ---------------------------------------------------------------------
  // Plain hexadecimal addresses
  // ---------------------------------------------------------------------

  lemma {:induction false} FromBeOfZeros(zeros: Bytes, s: Bytes)
    requires forall i :: 0 <= i < |zeros| ==> zeros[i] == 0
    ensures FromBe(zeros + s) == FromBe(s)
  {
    if s != [] {
      assert (zeros + s)[..|zeros| + |s| - 1] == zeros + s[..|s| - 1];
      FromBeOfZeros(zeros, s[..|s| - 1]);
    } else if zeros != [] {
      assert (zeros + [])[..|zeros| - 1] == zeros[..|zeros| - 1] + [];
      FromBeOfZeros(zeros[..|zeros| - 1], []);
    }
  }

  lemma PaddedNumber(a: Bytes)
    requires |a| <= 32
    ensures FromBe(PadLeft(a)) == FromBe(a)
  {
    var zeros := Zeros(32 - |a|);
    assert PadLeft(a) == zeros + a;
    FromBeOfZeros(zeros, a);
  }

  /** What is decoded of an address that is not an SLU address. */
  function Digits(addr: string): string {
    Hex.StripMarks(Text.Trim(addr))
  }

  predicate IsSlu(addr: string) {
    SLU_PREFIX <= Text.Trim(addr)
  }

  /** An even number of digits, no more than 32 bytes of them. */
  predicate PlainAddress(addr: string) {
    !IsSlu(addr) && Hex.HexText(Digits(addr)) && |Digits(addr)| % 2 == 0 && |Digits(addr)| <= 64
  }

  lemma PaddedIsNumber(s: string)
    requires Hex.HexText(s) && |s| % 2 == 0 && |s| <= 64
    ensures var bytes := Hex.Decode(s);
            && bytes.Some? && PadLeft(bytes.value) == ToBe(Hex.Number(s), 32)
            && FromBe(PadLeft(bytes.value)) == Hex.Number(s)
  {
    Hex.DecodeKeepsNumber(s);
    var bytes := Hex.Decode(s).value;
    PaddedNumber(bytes);
    ToBeFromBe(PadLeft(bytes));
  }

  /**
   Exactly what every address that is not an SLU address stands for: behind any
   number of "0x", digits in either case write a number, which is given in 32
   bytes; other characters or an odd number of digits are one error, more than 32
   bytes another.
   */
  lemma PlainAddressIsItsNumber(addr: string)
    requires !IsSlu(addr)
    ensures AddrToB256(addr)
            == if !Hex.HexText(Digits(addr)) || |Digits(addr)| % 2 == 1 then Err(BadHex)
               else if |Digits(addr)| > 64 then Err(TooLong)
               else Ok(ToBe(Hex.Number(Digits(addr)), 32))
  {
    var s := Digits(addr);
    Hex.DecodesIff(s);
    if PlainAddress(addr) {
      PaddedIsNumber(s);
    }
  }

  predicate MarkOrDigit(c: char) {
    c == 'x' || Hex.IsHexDigit(c)
  }

  lemma {:induction false} MarksAndDigits(k: nat)
    ensures forall i :: 0 <= i < |Hex.Marks(k)| ==> MarkOrDigit(Hex.Marks(k)[i])
  {
    if k > 0 {
      MarksAndDigits(k - 1);
    }
  }

  lemma MarkedIsTrimmed(k: nat, s: string)
    requires Hex.HexText(s)
    ensures Text.Trimmed(Hex.Marks(k) + s) && !(SLU_PREFIX <= Hex.Marks(k) + s)
  {
    MarksAndDigits(k);
    var t := Hex.Marks(k) + s;
    assert forall i :: 0 <= i < |t| ==> MarkOrDigit(t[i]);
    assert SLU_PREFIX[0] == '*';
  }

  /**
   Digits in either case, behind any number of "0x" and with blanks around, are
   decoded and padded on the left to 32 bytes.
   */
  lemma HexAddressIsPadded(before: string, k: nat, s: string, after: string)
    requires Text.Blank(before) && Text.Blank(after) && Hex.HexText(s)
    ensures |s| % 2 == 0 ==> Hex.Decode(s).Some?
    ensures AddrToB256(before + (Hex.Marks(k) + s) + after)
            == if |s| % 2 == 1 then Err(BadHex)
               else if |s| > 64 then Err(TooLong)
               else Ok(PadLeft(Hex.Decode(s).value))
  {
    var addr := before + (Hex.Marks(k) + s) + after;
    MarkedIsTrimmed(k, s);
    Text.TrimAround(before, Hex.Marks(k) + s, after);
    assert |s| >= 2 ==> s[1] != 'x';
    Hex.MarksAreStripped(k, s);
    Hex.DecodesIff(s);
    assert AddrToB256(addr) == ParseHex(Hex.Marks(k) + s);
  }

  /** Two plain addresses fall together exactly when they write the same number. */
  lemma HexAddressesCollideIffSameNumber(a: string, b: string)
    requires PlainAddress(a) && PlainAddress(b)
    ensures AddrToB256(a).Ok? && AddrToB256(b).Ok?
    ensures AddrToB256(a) == AddrToB256(b) <==> Hex.Number(Digits(a)) == Hex.Number(Digits(b))
  {
    PlainAddressIsItsNumber(a);
    PlainAddressIsItsNumber(b);
    PaddedIsNumber(Digits(a));
    PaddedIsNumber(Digits(b));
  }

  // ---------------------------------------------------------------------
  // Sorting leaves
  // ---------------------------------------------------------------------

  /** Byte-lexicographic order. */
  predicate Leq(a: Bytes, b: Bytes) {
    a == [] || (b != [] && (a[0] < b[0] || (a[0] == b[0] && Leq(a[1..], b[1..]))))
  }

  lemma {:induction false} LeqTotal(a: Bytes, b: Bytes)
    ensures Leq(a, b) || Leq(b, a)
  {
    if a != [] && b != [] && a[0] == b[0] {
      LeqTotal(a[1..], b[1..]);
    }
  }

  lemma {:induction false} LeqAntisymmetric(a: Bytes, b: Bytes)
    requires Leq(a, b) && Leq(b, a)
    ensures a == b
  {
    if a != [] {
      LeqAntisymmetric(a[1..], b[1..]);
      assert a == [a[0]] + a[1..] && b == [b[0]] + b[1..];
    }
  }

  lemma {:induction false} LeqTransitive(a: Bytes, b: Bytes, c: Bytes)
    requires Leq(a, b) && Leq(b, c)
    ensures Leq(a, c)
  {
    if a != [] && a[0] == b[0] == c[0] {
      LeqTransitive(a[1..], b[1..], c[1..]);
    }
  }

  /** At `n` the texts first differ, and `a` ends there or has the smaller byte. */
  predicate DiffersAt(a: Bytes, b: Bytes, n: nat) {
    n <= |a| && n < |b| && a[..n] == b[..n] && (n == |a| || a[n] < b[n])
  }

  lemma StartsAlike(a: Bytes, b: Bytes, n: nat)
    requires DiffersAt(a, b, n)
    ensures n > 0 ==> |a| > 0 && |b| > 0 && a[0] == b[0]
  {
    if n > 0 {
      assert a[..n][0] == b[..n][0];
    }
  }

  lemma DiffersLater(a: Bytes, b: Bytes, n: nat)
    requires a != [] && b != [] && a[0] == b[0]
    ensures DiffersAt(a, b, n + 1) <==> DiffersAt(a[1..], b[1..], n)
    ensures !DiffersAt(a, b, 0)
  {
    if n + 1 <= |a| && n + 1 < |b| {
      assert a[..n + 1] == [a[0]] + a[1..][..n] && b[..n + 1] == [b[0]] + b[1..][..n];
    }
  }

  /** The order of the leaves: equal, or smaller at the first difference. */
  lemma {:induction false} LeqByFirstDifference(a: Bytes, b: Bytes)
    ensures Leq(a, b) <==> a == b || exists n: nat :: DiffersAt(a, b, n)
  {
    if a == [] || b == [] || a[0] != b[0] {
      assert DiffersAt(a, b, 0) || a == b <==> Leq(a, b);
      if n: nat :| DiffersAt(a, b, n) {
        StartsAlike(a, b, n);
      }
    } else {
      LeqByFirstDifference(a[1..], b[1..]);
      DiffersLater(a, b, 0);
      assert a == [a[0]] + a[1..] && b == [b[0]] + b[1..];
      if n: nat :| DiffersAt(a[1..], b[1..], n) {
        DiffersLater(a, b, n);
      }
      if n: nat :| DiffersAt(a, b, n) {
        DiffersLater(a, b, n - 1);
      }
    }
  }

  predicate SortedLeaves(s: seq<Bytes>) {
    forall i, j :: 0 <= i < j < |s| ==> Leq(s[i], s[j])
  }

  function Insert(x: Bytes, s: seq<Bytes>): seq<Bytes> {
    if s == [] || Leq(x, s[0]) then [x] + s else [s[0]] + Insert(x, s[1..])
  }

  function Sort(s: seq<Bytes>): seq<Bytes> {
    if s == [] then [] else Insert(s[0], Sort(s[1..]))
  }

  lemma {:induction false} InsertAdds(x: Bytes, s: seq<Bytes>)
    ensures multiset(Insert(x, s)) == multiset{x} + multiset(s)
  {
    if s != [] && !Leq(x, s[0]) {
      InsertAdds(x, s[1..]);
      assert s == [s[0]] + s[1..];
    }
  }

  lemma {:induction false} InsertSorted(x: Bytes, s: seq<Bytes>)
    requires SortedLeaves(s)
    ensures SortedLeaves(Insert(x, s))
  {
    if s != [] {
      if Leq(x, s[0]) {
        forall j | 0 <= j < |s|
          ensures Leq(x, s[j])
        {
          if j > 0 {
            LeqTransitive(x, s[0], s[j]);
          }
        }
      } else {
        LeqTotal(x, s[0]);
        InsertSorted(x, s[1..]);
        InsertAdds(x, s[1..]);
        var rest := Insert(x, s[1..]);
        forall j | 0 <= j < |rest|
          ensures Leq(s[0], rest[j])
        {
          assert rest[j] in multiset(rest);
          assert rest[j] == x || rest[j] in s[1..];
        }
      }
    }
  }

  lemma {:induction false} SortSorts(s: seq<Bytes>)
    ensures SortedLeaves(Sort(s)) && multiset(Sort(s)) == multiset(s)
  {
    if s != [] {
      var sorted := Sort(s[1..]);
      SortSorts(s[1..]);
      InsertSorted(s[0], sorted);
      InsertAdds(s[0], sorted);
      HeadOfBag(s);
    }
  }

  lemma HeadOfBag(s: seq<Bytes>)
    requires s != []
    ensures multiset(s) == multiset{s[0]} + multiset(s[1..])
  {
    assert s == [s[0]] + s[1..];
  }

  lemma BagCancel(x: Bytes, a: multiset<Bytes>, b: multiset<Bytes>)
    requires multiset{x} + a == multiset{x} + b
    ensures a == b
  {
    assert a == (multiset{x} + a) - multiset{x};
    assert b == (multiset{x} + b) - multiset{x};
  }

  /** A sorted arrangement is determined by what it arranges. */
  lemma {:induction false} SortedIsUnique(s: seq<Bytes>, t: seq<Bytes>)
    requires SortedLeaves(s) && SortedLeaves(t) && multiset(s) == multiset(t)
    ensures s == t
    decreases |s|
  {
    assert |multiset(s)| == |s| && |multiset(t)| == |t|;
    if s != [] {
      HeadOfBag(s);
      HeadOfBag(t);
      assert s[0] in multiset(t) && t[0] in multiset(s);
      FirstIsLeast(s, t[0]);
      FirstIsLeast(t, s[0]);
      LeqAntisymmetric(s[0], t[0]);
      BagCancel(s[0], multiset(s[1..]), multiset(t[1..]));
      SortedIsUnique(s[1..], t[1..]);
    }
  }

  lemma LeqReflexive(a: Bytes)
    ensures Leq(a, a)
  {
    LeqTotal(a, a);
  }

  lemma FirstIsLeast(s: seq<Bytes>, x: Bytes)
    requires SortedLeaves(s) && s != [] && x in multiset(s)
    ensures Leq(s[0], x)
  {
    var i :| 0 <= i < |s| && s[i] == x;
    LeqReflexive(x);
  }

  // ---------------------------------------------------------------------
  // The state root
  // ---------------------------------------------------------------------

  /** An account; `metadata` is its resources, serialized in key order. */
  datatype Account = Account(zkAddress: string, metadata: Bytes, storageRoot: string, version: U64)

  /** The hash functions the root is built with. */
  datatype Hashing = Hashing(keccak: Bytes -> Bytes, utf8: string -> Bytes)

  datatype Extended = Extended(zkHash: Bytes, metadataHash: Bytes, storageHash: Bytes, version: U64)

  function HashOrEmpty(h: Hashing, s: string): Bytes {
    if Text.Trim(s) == "" then h.keccak([0x80]) else h.keccak(h.utf8(s))
  }

  function Extend(h: Hashing, a: Account): Extended {
    Extended(HashOrEmpty(h, a.zkAddress), h.keccak(a.metadata), HashOrEmpty(h, a.storageRoot), a.version)
  }

  function LeafText(address: Bytes, e: Extended): Bytes {
    address + e.zkHash + e.metadataHash + e.storageHash + ToBe(e.version, 8)
  }

  function Leaf(h: Hashing, address: Bytes, e: Extended): Bytes {
    h.keccak(LeafText(address, e))
  }

  /** All accounts under their parsed addresses, a later one overriding. */
  function ExtendAll(h: Hashing, accounts: seq<(string, Account)>): Result<map<Bytes, Extended>> {
    if accounts == [] then Ok(map[])
    else
      var (addr, account) := accounts[|accounts| - 1];
      match ExtendAll(h, accounts[..|accounts| - 1])
      case Err(e) => Err(e)
      case Ok(before) =>
        match AddrToB256(addr)
        case Err(e) => Err(e)
        case Ok(b) => Ok(before[b := Extend(h, account)])
  }

  function Concat(leaves: seq<Bytes>): Bytes {
    if leaves == [] then [] else Concat(leaves[..|leaves| - 1]) + leaves[|leaves| - 1]
  }

  function RootOfLeaves(h: Hashing, leaves: seq<Bytes>): Bytes {
    h.keccak(Concat(Sort(leaves)))
  }

  /** The root depends on the leaves as a multiset only. */
  lemma RootIgnoresOrder(h: Hashing, a: seq<Bytes>, b: seq<Bytes>)
    requires multiset(a) == multiset(b)
    ensures RootOfLeaves(h, a) == RootOfLeaves(h, b)
  {
    SortSorts(a);
    SortSorts(b);
    SortedIsUnique(Sort(a), Sort(b));
  }

  /** `keys` is one iteration of the map: every key once. */
  ghost predicate Iterates(keys: seq<Bytes>, m: map<Bytes, Extended>) {
    && (forall i :: 0 <= i < |keys| ==> keys[i] in m)
    && (forall i, j :: 0 <= i < j < |keys| ==> keys[i] != keys[j])
    && (forall k :: k in m ==> k in keys)
  }

  function LeavesOf(h: Hashing, m: map<Bytes, Extended>, keys: seq<Bytes>): seq<Bytes>
    requires forall i :: 0 <= i < |keys| ==> keys[i] in m
  {
    if keys == [] then []
    else
      var k := keys[|keys| - 1];
      LeavesOf(h, m, keys[..|keys| - 1]) + [Leaf(h, k, m[k])]
  }

  lemma {:induction false} LeavesAppend(h: Hashing, m: map<Bytes, Extended>, a: seq<Bytes>, b: seq<Bytes>)
    requires forall i :: 0 <= i < |a| ==> a[i] in m
    requires forall i :: 0 <= i < |b| ==> b[i] in m
    ensures LeavesOf(h, m, a + b) == LeavesOf(h, m, a) + LeavesOf(h, m, b)
  {
    if b == [] {
      assert a + b == a;
    } else {
      assert (a + b)[..|a + b| - 1] == a + b[..|b| - 1];
      LeavesAppend(h, m, a, b[..|b| - 1]);
    }
  }

  function Without(keys: seq<Bytes>, i: nat): seq<Bytes>
    requires i < |keys|
  {
    keys[..i] + keys[i + 1..]
  }

  lemma TakeOut(h: Hashing, m: map<Bytes, Extended>, keys: seq<Bytes>, i: nat)
    requires (forall j :: 0 <= j < |keys| ==> keys[j] in m) && i < |keys|
    ensures multiset(LeavesOf(h, m, keys))
            == multiset(LeavesOf(h, m, Without(keys, i))) + multiset{Leaf(h, keys[i], m[keys[i]])}
  {
    var k: Bytes := keys[i];
    var single: seq<Bytes> := [k];
    assert keys == keys[..i] + single + keys[i + 1..];
    LeavesAppend(h, m, keys[..i] + single, keys[i + 1..]);
    LeavesAppend(h, m, keys[..i], single);
    LeavesAppend(h, m, keys[..i], keys[i + 1..]);
    assert single[..0] == [];
    assert LeavesOf(h, m, single) == [Leaf(h, k, m[k])];
  }

  /** Taking one out moves the later ones forward. */
  lemma WithoutMoves(keys: seq<Bytes>, i: nat)
    requires i < |keys|
    ensures |Without(keys, i)| == |keys| - 1
    ensures forall j :: 0 <= j < |keys| - 1 ==> Without(keys, i)[j] == keys[if j < i then j else j + 1]
  {
  }

  lemma WithoutKeepsOthers(keys: seq<Bytes>, i: nat, x: Bytes)
    requires i < |keys| && x in keys && x != keys[i]
    ensures x in Without(keys, i)
  {
    var j :| 0 <= j < |keys| && keys[j] == x;
    WithoutMoves(keys, i);
    assert Without(keys, i)[if j < i then j else j - 1] == x;
  }

  lemma IteratesWithout(keys: seq<Bytes>, m: map<Bytes, Extended>, i: nat)
    requires Iterates(keys, m) && i < |keys|
    ensures Iterates(Without(keys, i), m - {keys[i]})
  {
    WithoutMoves(keys, i);
    forall x | x in m && x != keys[i]
      ensures x in Without(keys, i)
    {
      WithoutKeepsOthers(keys, i, x);
    }
  }

  lemma IterationIsFull(keys: seq<Bytes>, m: map<Bytes, Extended>)
    requires Iterates(keys, m)
    ensures |keys| == 0 <==> m == map[]
  {
    assert |keys| > 0 ==> keys[0] in m;
    if k :| k in m {
      assert k in keys;
    }
  }

  lemma {:induction false} IterationsAgree(h: Hashing, m: map<Bytes, Extended>, a: seq<Bytes>, b: seq<Bytes>)
    requires Iterates(a, m) && Iterates(b, m)
    ensures multiset(LeavesOf(h, m, a)) == multiset(LeavesOf(h, m, b))
    decreases |a|
  {
    if a == [] {
      IterationIsFull(a, m);
      IterationIsFull(b, m);
    } else {
      var k := a[0];
      assert k in m;
      var i :| 0 <= i < |b| && b[i] == k;
      var a', b', m' := Without(a, 0), Without(b, i), m - {k};
      IteratesWithout(a, m, 0);
      IteratesWithout(b, m, i);
      IterationsAgree(h, m', a', b');
      LeavesOfSubmap(h, m, m', a');
      LeavesOfSubmap(h, m, m', b');
      TakeOut(h, m, a, 0);
      TakeOut(h, m, b, i);
    }
  }

  lemma {:induction false} LeavesOfSubmap(
    h: Hashing, m: map<Bytes, Extended>, m': map<Bytes, Extended>, keys: seq<Bytes>)
    requires forall i :: 0 <= i < |keys| ==> keys[i] in m' && keys[i] in m && m[keys[i]] == m'[keys[i]]
    ensures LeavesOf(h, m, keys) == LeavesOf(h, m', keys)
  {
    if keys != [] {
      LeavesOfSubmap(h, m, m', keys[..|keys| - 1]);
    }
  }

  /** Any two iterations of the accounts give the same root. */
  lemma RootIgnoresIteration(h: Hashing, m: map<Bytes, Extended>, a: seq<Bytes>, b: seq<Bytes>)
    requires Iterates(a, m) && Iterates(b, m)
    ensures RootOfLeaves(h, LeavesOf(h, m, a)) == RootOfLeaves(h, LeavesOf(h, m, b))
  {
    IterationsAgree(h, m, a, b);
    RootIgnoresOrder(h, LeavesOf(h, m, a), LeavesOf(h, m, b));
  }

  // ---------------------------------------------------------------------
  // What the root depends on
  // ---------------------------------------------------------------------

  /** The last account under the address, however the address is written. */
  function LastAt(accounts: seq<(string, Account)>, address: Bytes): Option<Account> {
    if accounts == [] then None
    else
      var (addr, account) := accounts[|accounts| - 1];
      if AddrToB256(addr) == Ok(address) then Some(account) else LastAt(accounts[..|accounts| - 1], address)
  }

  lemma {:induction false} ExtendedIsLast(
    h: Hashing, accounts: seq<(string, Account)>, m: map<Bytes, Extended>, address: Bytes)
    requires ExtendAll(h, accounts) == Ok(m)
    ensures address in m <==> LastAt(accounts, address).Some?
    ensures address in m ==> |address| == 32 && m[address] == Extend(h, LastAt(accounts, address).value)
  {
    if accounts != [] {
      var n := |accounts| - 1;
      ExtendedIsLast(h, accounts[..n], ExtendAll(h, accounts[..n]).value, address);
    }
  }

  /** Blank, or a text of the one byte that stands for the empty trie. */
  predicate EmptyText(h: Hashing, s: string) {
    Text.Blank(s) || h.utf8(s) == [0x80]
  }

  predicate SameText(h: Hashing, s: string, t: string) {
    s == t || (EmptyText(h, s) && EmptyText(h, t))
  }

  predicate SameAccount(h: Hashing, x: Account, y: Account) {
    && SameText(h, x.zkAddress, y.zkAddress) && x.metadata == y.metadata
    && SameText(h, x.storageRoot, y.storageRoot) && x.version == y.version
  }

  /** At the address both have no account, or the same one. */
  predicate SameAt(h: Hashing, a: seq<(string, Account)>, b: seq<(string, Account)>, address: Bytes) {
    match (LastAt(a, address), LastAt(b, address))
    case (Some(x), Some(y)) => SameAccount(h, x, y)
    case (None, None) => true
    case _ => false
  }

  /** The same addresses, and at each the same account. */
  ghost predicate SameAccounts(h: Hashing, a: seq<(string, Account)>, b: seq<(string, Account)>) {
    forall address: Bytes :: SameAt(h, a, b, address)
  }

  /** What is hashed for a text. */
  function TextHashed(h: Hashing, s: string): Bytes {
    if Text.Blank(s) then [0x80] else h.utf8(s)
  }

  /** The texts hashed on the way to the root of the accounts, walked in the order of `keys`. */
  ghost predicate Hashed(h: Hashing, accounts: seq<(string, Account)>, m: map<Bytes, Extended>, keys: seq<Bytes>,
                         text: Bytes)
    requires Iterates(keys, m)
  {
    || text == Concat(Sort(LeavesOf(h, m, keys)))
    || (exists address: Bytes ::
          && address in m && LastAt(accounts, address).Some?
          && var x := LastAt(accounts, address).value;
             || text == LeafText(address, m[address])
             || text == TextHashed(h, x.zkAddress) || text == x.metadata || text == TextHashed(h, x.storageRoot))
  }

  /** The digests have 32 bytes, and of the texts hashed for the two states no two have the same. */
  ghost predicate CollisionFree(
    h: Hashing, a: seq<(string, Account)>, ma: map<Bytes, Extended>, ka: seq<Bytes>,
    b: seq<(string, Account)>, mb: map<Bytes, Extended>, kb: seq<Bytes>)
    requires Iterates(ka, ma) && Iterates(kb, mb)
  {
    && (forall x :: |h.keccak(x)| == 32)
    && (forall s, t :: h.utf8(s) == h.utf8(t) ==> s == t)
    && (forall x, y | && (Hashed(h, a, ma, ka, x) || Hashed(h, b, mb, kb, x))
                      && (Hashed(h, a, ma, ka, y) || Hashed(h, b, mb, kb, y)) ::
          h.keccak(x) == h.keccak(y) ==> x == y)
  }

  lemma {:induction false} LeavesAt(h: Hashing, m: map<Bytes, Extended>, keys: seq<Bytes>, i: nat)
    requires (forall j :: 0 <= j < |keys| ==> keys[j] in m) && i < |keys|
    ensures |LeavesOf(h, m, keys)| == |keys|
    ensures LeavesOf(h, m, keys)[i] == Leaf(h, keys[i], m[keys[i]])
  {
    var n := |keys| - 1;
    if i < n {
      LeavesAt(h, m, keys[..n], i);
    } else if n > 0 {
      LeavesAt(h, m, keys[..n], 0);
    }
  }

  lemma {:induction false} LeavesCount(h: Hashing, m: map<Bytes, Extended>, keys: seq<Bytes>)
    requires forall j :: 0 <= j < |keys| ==> keys[j] in m
    ensures |LeavesOf(h, m, keys)| == |keys|
  {
    if keys != [] {
      LeavesCount(h, m, keys[..|keys| - 1]);
    }
  }

  predicate AllDigests(s: seq<Bytes>) {
    forall i :: 0 <= i < |s| ==> |s[i]| == 32
  }

  lemma {:induction false} ConcatLength(s: seq<Bytes>)
    requires AllDigests(s)
    ensures |Concat(s)| == 32 * |s|
  {
    if s != [] {
      ConcatLength(s[..|s| - 1]);
    }
  }

  /** Digests written one after the other are read back. */
  lemma {:induction false} ConcatInjective(s: seq<Bytes>, t: seq<Bytes>)
    requires AllDigests(s) && AllDigests(t) && Concat(s) == Concat(t)
    ensures s == t
  {
    ConcatLength(s);
    ConcatLength(t);
    if s != [] {
      var n := |s| - 1;
      var front, back := Concat(s[..n]), Concat(t[..n]);
      ConcatLength(s[..n]);
      ConcatLength(t[..n]);
      assert Concat(s)[..32 * n] == front && Concat(s)[32 * n..] == s[n];
      assert Concat(t)[..32 * n] == back && Concat(t)[32 * n..] == t[n];
      ConcatInjective(s[..n], t[..n]);
      assert s == s[..n] + [s[n]] && t == t[..n] + [t[n]];
    }
  }

  lemma {:induction false} ConcatAt(s: seq<Bytes>, i: nat)
    requires AllDigests(s) && i < |s|
    ensures |Concat(s)| == 32 * |s| && Concat(s)[32 * i..32 * i + 32] == s[i]
  {
    var n := |s| - 1;
    ConcatLength(s);
    ConcatLength(s[..n]);
    if i < n {
      ConcatAt(s[..n], i);
      assert Concat(s)[32 * i..32 * i + 32] == Concat(s[..n])[32 * i..32 * i + 32];
    }
  }

  /** The root is the digest of the leaves in ascending order, 32 bytes each, in any order they come in. */
  lemma RootHashesTheSortedLeaves(h: Hashing, leaves: seq<Bytes>, ascending: seq<Bytes>) returns (text: Bytes)
    requires AllDigests(leaves) && SortedLeaves(ascending) && multiset(ascending) == multiset(leaves)
    ensures RootOfLeaves(h, leaves) == h.keccak(text) && |text| == 32 * |leaves|
    ensures forall i :: 0 <= i < |leaves| ==> |ascending| == |leaves| && text[32 * i..32 * i + 32] == ascending[i]
  {
    SortSorts(leaves);
    SortedIsUnique(Sort(leaves), ascending);
    SortedDigests(leaves);
    text := Concat(ascending);
    assert |multiset(ascending)| == |ascending| && |multiset(leaves)| == |leaves|;
    ConcatLength(ascending);
    forall i | 0 <= i < |leaves|
      ensures text[32 * i..32 * i + 32] == ascending[i]
    {
      ConcatAt(ascending, i);
    }
  }

  lemma SortedDigests(s: seq<Bytes>)
    requires AllDigests(s)
    ensures AllDigests(Sort(s))
  {
    SortSorts(s);
    forall i | 0 <= i < |Sort(s)|
      ensures |Sort(s)[i]| == 32
    {
      assert Sort(s)[i] in multiset(s);
    }
  }

  lemma LeavesAreDigests(h: Hashing, m: map<Bytes, Extended>, keys: seq<Bytes>)
    requires forall j :: 0 <= j < |keys| ==> keys[j] in m
    requires forall x :: |h.keccak(x)| == 32
    ensures AllDigests(LeavesOf(h, m, keys))
  {
    LeavesCount(h, m, keys);
    forall i | 0 <= i < |keys|
      ensures |LeavesOf(h, m, keys)[i]| == 32
    {
      LeavesAt(h, m, keys, i);
    }
  }

  /** The fields of a leaf have fixed widths. */
  lemma LeafTextInjective(a: Bytes, x: Extended, b: Bytes, y: Extended)
    requires |a| == 32 && |x.zkHash| == 32 && |x.metadataHash| == 32 && |x.storageHash| == 32
    requires |b| == 32 && |y.zkHash| == 32 && |y.metadataHash| == 32 && |y.storageHash| == 32
    requires LeafText(a, x) == LeafText(b, y)
    ensures a == b && x == y
  {
    LeafTextParts(a, x);
    LeafTextParts(b, y);
    WordBytesInjective(x.version, y.version);
  }

  lemma LeafTextParts(a: Bytes, x: Extended)
    requires |a| == 32 && |x.zkHash| == 32 && |x.metadataHash| == 32 && |x.storageHash| == 32
    ensures var t := LeafText(a, x);
            && |t| == 136 && t[..32] == a && t[32..64] == x.zkHash && t[64..96] == x.metadataHash
            && t[96..128] == x.storageHash && t[128..] == ToBe(x.version, 8)
  {
  }

  lemma WordBytesInjective(x: U64, y: U64)
    requires ToBe(x, 8) == ToBe(y, 8)
    ensures x == y
  {
    assert Pow256(8) == TWO_64 by {
      assert Pow256(4) == 0x1_0000_0000 by { assert Pow256(2) == 65536 by { assert Pow256(1) == 256; } }
      assert Pow256(6) == 0x1_0000_0000_0000;
    }
    FromBeToBe(x, 8);
    FromBeToBe(y, 8);
  }

  lemma {:induction false} BlankTrims(s: string)
    ensures Text.Trim(s) == "" <==> Text.Blank(s)
  {
    if Text.Blank(s) {
      Text.TrimAround(s, "", "");
      assert s + "" + "" == s;
    } else {
      Text.TrimKeepsInk(s);
    }
  }

  lemma HashOfText(h: Hashing, s: string)
    ensures HashOrEmpty(h, s) == h.keccak(TextHashed(h, s))
  {
    BlankTrims(s);
  }

  lemma TextHashedSame(h: Hashing, s: string, t: string)
    requires forall s, t :: h.utf8(s) == h.utf8(t) ==> s == t
    ensures TextHashed(h, s) == TextHashed(h, t) <==> SameText(h, s, t)
  {
  }

  lemma SameDigestSameText(
    h: Hashing, a: seq<(string, Account)>, ma: map<Bytes, Extended>, ka: seq<Bytes>,
    b: seq<(string, Account)>, mb: map<Bytes, Extended>, kb: seq<Bytes>, x: Bytes, y: Bytes)
    requires Iterates(ka, ma) && Iterates(kb, mb) && CollisionFree(h, a, ma, ka, b, mb, kb)
    requires Hashed(h, a, ma, ka, x) && Hashed(h, b, mb, kb, y) && h.keccak(x) == h.keccak(y)
    ensures x == y
  {
  }

  lemma SameLeafSameFields(
    h: Hashing, a: seq<(string, Account)>, ma: map<Bytes, Extended>, ka: seq<Bytes>,
    b: seq<(string, Account)>, mb: map<Bytes, Extended>, kb: seq<Bytes>, address: Bytes, other: Bytes)
    requires ExtendAll(h, a) == Ok(ma) && ExtendAll(h, b) == Ok(mb) && Iterates(ka, ma) && Iterates(kb, mb)
    requires CollisionFree(h, a, ma, ka, b, mb, kb)
    requires address in ma && other in mb && Leaf(h, address, ma[address]) == Leaf(h, other, mb[other])
    ensures other == address && ma[address] == mb[address]
  {
    ExtendedIsLast(h, a, ma, address);
    ExtendedIsLast(h, b, mb, other);
    assert Hashed(h, a, ma, ka, LeafText(address, ma[address]));
    assert Hashed(h, b, mb, kb, LeafText(other, mb[other]));
    SameDigestSameText(h, a, ma, ka, b, mb, kb, LeafText(address, ma[address]), LeafText(other, mb[other]));
    LeafTextInjective(address, ma[address], other, mb[other]);
  }

  lemma SameDigestsSameAccount(
    h: Hashing, a: seq<(string, Account)>, ma: map<Bytes, Extended>, ka: seq<Bytes>,
    b: seq<(string, Account)>, mb: map<Bytes, Extended>, kb: seq<Bytes>, address: Bytes)
    requires Iterates(ka, ma) && Iterates(kb, mb) && CollisionFree(h, a, ma, ka, b, mb, kb)
    requires address in ma && address in mb && LastAt(a, address).Some? && LastAt(b, address).Some?
    requires Extend(h, LastAt(a, address).value) == Extend(h, LastAt(b, address).value)
    ensures SameAccount(h, LastAt(a, address).value, LastAt(b, address).value)
  {
    var x, y := LastAt(a, address).value, LastAt(b, address).value;
    assert Hashed(h, a, ma, ka, TextHashed(h, x.zkAddress)) && Hashed(h, b, mb, kb, TextHashed(h, y.zkAddress));
    assert Hashed(h, a, ma, ka, x.metadata) && Hashed(h, b, mb, kb, y.metadata);
    assert Hashed(h, a, ma, ka, TextHashed(h, x.storageRoot)) && Hashed(h, b, mb, kb, TextHashed(h, y.storageRoot));
    HashOfText(h, x.zkAddress);
    HashOfText(h, y.zkAddress);
    HashOfText(h, x.storageRoot);
    HashOfText(h, y.storageRoot);
    TextHashedSame(h, x.zkAddress, y.zkAddress);
    TextHashedSame(h, x.storageRoot, y.storageRoot);
  }

  /** Two leaves with the same digest are of the same address and the same account. */
  lemma SameLeafSameAccount(
    h: Hashing, a: seq<(string, Account)>, ma: map<Bytes, Extended>, ka: seq<Bytes>,
    b: seq<(string, Account)>, mb: map<Bytes, Extended>, kb: seq<Bytes>, address: Bytes, other: Bytes)
    requires ExtendAll(h, a) == Ok(ma) && ExtendAll(h, b) == Ok(mb) && Iterates(ka, ma) && Iterates(kb, mb)
    requires CollisionFree(h, a, ma, ka, b, mb, kb)
    requires address in ma && other in mb && Leaf(h, address, ma[address]) == Leaf(h, other, mb[other])
    ensures other == address && LastAt(a, address).Some? && LastAt(b, address).Some?
    ensures SameAccount(h, LastAt(a, address).value, LastAt(b, address).value)
  {
    SameLeafSameFields(h, a, ma, ka, b, mb, kb, address, other);
    ExtendedIsLast(h, a, ma, address);
    ExtendedIsLast(h, b, mb, address);
    SameDigestsSameAccount(h, a, ma, ka, b, mb, kb, address);
  }

  lemma SameRootSameLeaves(
    h: Hashing, a: seq<(string, Account)>, ma: map<Bytes, Extended>, ka: seq<Bytes>,
    b: seq<(string, Account)>, mb: map<Bytes, Extended>, kb: seq<Bytes>)
    requires Iterates(ka, ma) && Iterates(kb, mb) && CollisionFree(h, a, ma, ka, b, mb, kb)
    requires RootOfLeaves(h, LeavesOf(h, ma, ka)) == RootOfLeaves(h, LeavesOf(h, mb, kb))
    ensures multiset(LeavesOf(h, ma, ka)) == multiset(LeavesOf(h, mb, kb))
  {
    var la, lb := LeavesOf(h, ma, ka), LeavesOf(h, mb, kb);
    assert Hashed(h, a, ma, ka, Concat(Sort(la))) && Hashed(h, b, mb, kb, Concat(Sort(lb)));
    LeavesAreDigests(h, ma, ka);
    LeavesAreDigests(h, mb, kb);
    SortedDigests(la);
    SortedDigests(lb);
    ConcatInjective(Sort(la), Sort(lb));
    SortSorts(la);
    SortSorts(lb);
  }

  lemma LeafIsFound(h: Hashing, ma: map<Bytes, Extended>, ka: seq<Bytes>, mb: map<Bytes, Extended>, kb: seq<Bytes>,
                    address: Bytes) returns (other: Bytes)
    requires Iterates(ka, ma) && Iterates(kb, mb) && address in ma
    requires multiset(LeavesOf(h, ma, ka)) == multiset(LeavesOf(h, mb, kb))
    ensures other in mb && Leaf(h, other, mb[other]) == Leaf(h, address, ma[address])
  {
    var la, lb := LeavesOf(h, ma, ka), LeavesOf(h, mb, kb);
    var i: nat :| i < |ka| && ka[i] == address;
    LeavesAt(h, ma, ka, i);
    assert la[i] in multiset(lb);
    var j: nat :| j < |lb| && lb[j] == la[i];
    LeavesCount(h, mb, kb);
    LeavesAt(h, mb, kb, j);
    other := kb[j];
  }

  lemma SameLeavesSameAt(
    h: Hashing, a: seq<(string, Account)>, ma: map<Bytes, Extended>, ka: seq<Bytes>,
    b: seq<(string, Account)>, mb: map<Bytes, Extended>, kb: seq<Bytes>, address: Bytes)
    requires ExtendAll(h, a) == Ok(ma) && ExtendAll(h, b) == Ok(mb) && Iterates(ka, ma) && Iterates(kb, mb)
    requires CollisionFree(h, a, ma, ka, b, mb, kb)
    requires multiset(LeavesOf(h, ma, ka)) == multiset(LeavesOf(h, mb, kb))
    ensures SameAt(h, a, b, address)
  {
    ExtendedIsLast(h, a, ma, address);
    ExtendedIsLast(h, b, mb, address);
    if address in ma {
      var other := LeafIsFound(h, ma, ka, mb, kb, address);
      SameLeafSameAccount(h, a, ma, ka, b, mb, kb, address, other);
    } else if address in mb {
      var other := LeafIsFound(h, mb, kb, ma, ka, address);
      SameLeafSameAccount(h, a, ma, ka, b, mb, kb, other, address);
    }
  }

  lemma SameExtended(h: Hashing, x: Account, y: Account)
    requires SameAccount(h, x, y)
    ensures Extend(h, x) == Extend(h, y)
  {
    HashOfText(h, x.zkAddress);
    HashOfText(h, y.zkAddress);
    HashOfText(h, x.storageRoot);
    HashOfText(h, y.storageRoot);
  }

  lemma SameAccountsSameMap(
    h: Hashing, a: seq<(string, Account)>, ma: map<Bytes, Extended>,
    b: seq<(string, Account)>, mb: map<Bytes, Extended>)
    requires ExtendAll(h, a) == Ok(ma) && ExtendAll(h, b) == Ok(mb) && SameAccounts(h, a, b)
    ensures ma == mb
  {
    forall address: Bytes
      ensures address in ma <==> address in mb
      ensures address in ma && address in mb ==> ma[address] == mb[address]
    {
      ExtendedIsLast(h, a, ma, address);
      ExtendedIsLast(h, b, mb, address);
      assert SameAt(h, a, b, address);
      if address in ma {
        SameExtended(h, LastAt(a, address).value, LastAt(b, address).value);
      }
    }
  }

  /**
   What the root stands for: unless two of the texts hashed for the two states
   collide, the roots are the same exactly when both states have the same
   addresses and at each the same zk address, metadata, storage root and version.
   A blank text counts as one of the byte 0x80.
   */
  lemma RootIsOfTheAccounts(
    h: Hashing, a: seq<(string, Account)>, ma: map<Bytes, Extended>, ka: seq<Bytes>,
    b: seq<(string, Account)>, mb: map<Bytes, Extended>, kb: seq<Bytes>)
    requires ExtendAll(h, a) == Ok(ma) && ExtendAll(h, b) == Ok(mb) && Iterates(ka, ma) && Iterates(kb, mb)
    requires CollisionFree(h, a, ma, ka, b, mb, kb)
    ensures RootOfLeaves(h, LeavesOf(h, ma, ka)) == RootOfLeaves(h, LeavesOf(h, mb, kb)) <==> SameAccounts(h, a, b)
  {
    if SameAccounts(h, a, b) {
      SameAccountsSameMap(h, a, ma, b, mb);
      RootIgnoresIteration(h, ma, ka, kb);
    }
    if RootOfLeaves(h, LeavesOf(h, ma, ka)) == RootOfLeaves(h, LeavesOf(h, mb, kb)) {
      SameRootSameLeaves(h, a, ma, ka, b, mb, kb);
      forall address: Bytes
        ensures SameAt(h, a, b, address)
      {
        SameLeavesSameAt(h, a, ma, ka, b, mb, kb, address);
      }
    }
  }

  /**
   Builds the root.  The hash map is walked in any order, yet the result is the
   one that every order gives.
   */
  method BuildZkRoot(h: Hashing, accounts: seq<(string, Account)>) returns (r: Result<Bytes>)
    ensures match ExtendAll(h, accounts)
            case Err(e) => r == Err(e)
            case Ok(m) => r.Ok? && forall keys :: Iterates(keys, m) ==> r.value == RootOfLeaves(h, LeavesOf(h, m, keys))
  {
    var extended: map<Bytes, Extended> := map[];
    for i := 0 to |accounts|
      invariant ExtendAll(h, accounts[..i]) == Ok(extended)
    {
      assert accounts[..i + 1][..i] == accounts[..i];
      var (addr, account) := accounts[i];
      var b := AddrToB256(addr);
      if b.Err? {
        ErrorStays(h, accounts, i + 1);
        return Err(b.error);
      }
      extended := extended[b.value := Extend(h, account)];
    }
    assert accounts[..|accounts|] == accounts;
    var leaves: seq<Bytes> := [];
    ghost var order: seq<Bytes> := [];
    var todo := extended.Keys;
    while todo != {}
      invariant todo <= extended.Keys
      invariant forall i :: 0 <= i < |order| ==> order[i] in extended && order[i] !in todo
      invariant forall i, j :: 0 <= i < j < |order| ==> order[i] != order[j]
      invariant forall k :: k in extended && k !in todo ==> k in order
      invariant leaves == LeavesOf(h, extended, order)
      decreases todo
    {
      var k :| k in todo;
      assert (order + [k])[..|order|] == order;
      leaves := leaves + [Leaf(h, k, extended[k])];
      order := order + [k];
      todo := todo - {k};
    }
    assert Iterates(order, extended);
    forall keys | Iterates(keys, extended)
      ensures RootOfLeaves(h, leaves) == RootOfLeaves(h, LeavesOf(h, extended, keys))
    {
      RootIgnoresIteration(h, extended, order, keys);
    }
    return Ok(RootOfLeaves(h, leaves));
  }

  /** The first `n` addresses can be parsed. */
  predicate Parse(accounts: seq<(string, Account)>, n: nat)
    requires n <= |accounts|
  {
    forall i :: 0 <= i < n ==> AddrToB256(accounts[i].0).Ok?
  }

  lemma ExtendStep(h: Hashing, accounts: seq<(string, Account)>, n: nat, parsed: Result<Bytes>)
    requires n < |accounts| && parsed == AddrToB256(accounts[n].0)
    ensures match ExtendAll(h, accounts[..n])
            case Err(e) => ExtendAll(h, accounts[..n + 1]) == Err(e)
            case Ok(_) => if parsed.Err? then ExtendAll(h, accounts[..n + 1]) == Err(parsed.error)
                          else ExtendAll(h, accounts[..n + 1]).Ok?
  {
    assert accounts[..n + 1][..n] == accounts[..n];
  }

  lemma {:induction false} ExtendedParses(h: Hashing, accounts: seq<(string, Account)>, n: nat, i: nat)
    requires i < n <= |accounts| && ExtendAll(h, accounts[..n]).Ok?
    ensures AddrToB256(accounts[i].0).Ok?
  {
    ExtendStep(h, accounts, n - 1, AddrToB256(accounts[n - 1].0));
    if i < n - 1 {
      ExtendedParses(h, accounts, n - 1, i);
    }
  }

  lemma {:induction false} ErrorComesFrom(h: Hashing, accounts: seq<(string, Account)>, n: nat) returns (i: nat)
    requires n <= |accounts| && ExtendAll(h, accounts[..n]).Err?
    ensures i < n && AddrToB256(accounts[i].0) == Err(ExtendAll(h, accounts[..n]).error)
    ensures ExtendAll(h, accounts[..i]).Ok?
  {
    i := n - 1;
    ExtendStep(h, accounts, n - 1, AddrToB256(accounts[n - 1].0));
    if ExtendAll(h, accounts[..n - 1]).Err? {
      i := ErrorComesFrom(h, accounts, n - 1);
    }
  }

  lemma ParsesUpTo(h: Hashing, accounts: seq<(string, Account)>, n: nat)
    requires n <= |accounts| && ExtendAll(h, accounts[..n]).Ok?
    ensures Parse(accounts, n)
  {
    forall i | 0 <= i < n
      ensures AddrToB256(accounts[i].0).Ok?
    {
      ExtendedParses(h, accounts, n, i);
    }
  }

  /** An address that cannot be parsed is an error, the first such address deciding which. */
  lemma FirstErrorDecides(h: Hashing, accounts: seq<(string, Account)>)
    ensures match ExtendAll(h, accounts)
            case Ok(_) => Parse(accounts, |accounts|)
            case Err(e) => exists i: nat :: i < |accounts| && AddrToB256(accounts[i].0) == Err(e) && Parse(accounts, i)
  {
    var n := |accounts|;
    assert accounts[..n] == accounts;
    if ExtendAll(h, accounts).Ok? {
      ParsesUpTo(h, accounts, n);
    } else {
      var i := ErrorComesFrom(h, accounts, n);
      ParsesUpTo(h, accounts, i);
    }
  }

  lemma {:induction false} ErrorStays(h: Hashing, accounts: seq<(string, Account)>, n: nat)
    requires n <= |accounts| && ExtendAll(h, accounts[..n]).Err?
    ensures ExtendAll(h, accounts) == ExtendAll(h, accounts[..n])
    decreases |accounts| - n
  {
    if n < |accounts| {
      assert accounts[..n + 1][..n] == accounts[..n];
      ErrorStays(h, accounts, n + 1);
    } else {
      assert accounts[..n] == accounts;
    }
  }
}
