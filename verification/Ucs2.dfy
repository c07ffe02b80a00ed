/**
 UCS-2 strings of the firmware interface: null-terminated 16-bit strings made
 from and converted back to Unicode text.
 */
module Ucs2 {
  import opened Wrappers

  type U16 = u: int | 0 <= u < 0x1_0000

  /** A UCS-2 character: a 16-bit unit that is a code point by itself. */
  type Char16 = u: U16 | !IsSurrogate(u)

  const NUL: Char16 := 0

  datatype Kind = InvalidChar | InteriorNul

  datatype FromSliceError = Invalid(pos: nat) | Interior(pos: nat) | NotNulTerminated

  datatype FromBufError = InvalidAt(pos: nat) | InteriorAt(pos: nat) | BufferTooSmall

  datatype Result<+T, +E> = Ok(value: T) | Err(error: E)

  predicate IsSurrogate(u: int) {
    0xD800 <= u <= 0xDFFF
  }

  /** UTF-16, section 2.1 of RFC 2781. */
  function EncodeUtf16(c: char): (u: seq<U16>)
    ensures |u| == if c as int < 0x1_0000 then 1 else 2
  {
    var n := c as int;
    if n < 0x1_0000 then [n]
    else [0xD800 + (n - 0x1_0000) / 0x400, 0xDC00 + (n - 0x1_0000) % 0x400]
  }

  function Utf16(s: string): seq<U16> {
    if s == "" then [] else Utf16(s[..|s| - 1]) + EncodeUtf16(s[|s| - 1])
  }

  // ---------------------------------------------------------------------
  // Valid strings
  // ---------------------------------------------------------------------

  /** Ends in NUL, has no other, and every unit is a UCS-2 character. */
  predicate ValidCStr(s: seq<U16>) {
    && |s| > 0
    && s[|s| - 1] == 0
    && forall i :: 0 <= i < |s| - 1 ==> s[i] != 0 && !IsSurrogate(s[i])
  }

  function Fault(u: U16): Option<Kind> {
    if IsSurrogate(u) then Some(InvalidChar) else if u == 0 then Some(InteriorNul) else None
  }

  /** The first unit from `i` on that cannot stand inside a string. */
  function FirstFault(units: seq<U16>, i: nat): (r: Option<(nat, Kind)>)
    requires i <= |units|
    decreases |units| - i
  {
    if i == |units| then None
    else
      match Fault(units[i])
      case Some(k) => Some((i, k))
      case None => FirstFault(units, i + 1)
  }

  lemma {:induction false} FirstFaultIsFirst(units: seq<U16>, i: nat)
    requires i <= |units|
    ensures match FirstFault(units, i)
            case None => forall j :: i <= j < |units| ==> Fault(units[j]).None?
            case Some((p, k)) => i <= p < |units| && Fault(units[p]) == Some(k)
                                 && forall j :: i <= j < p ==> Fault(units[j]).None?
    decreases |units| - i
  {
    if i < |units| && Fault(units[i]).None? {
      FirstFaultIsFirst(units, i + 1);
    }
  }

  function FromU16WithNul(codes: seq<U16>): Result<seq<Char16>, FromSliceError> {
    FirstFaultIsFirst(codes, 0);
    match FirstFault(codes, 0)
    case None => Err(NotNulTerminated)
    case Some((p, InvalidChar)) => Err(Invalid(p))
    case Some((p, InteriorNul)) => if p == |codes| - 1 then Ok(codes) else Err(Interior(p))
  }

  /** The check of a 16-bit slice, unit by unit. */
  method CheckU16WithNul(codes: seq<U16>) returns (r: Result<seq<Char16>, FromSliceError>)
    ensures r == FromU16WithNul(codes)
  {
    for pos := 0 to |codes|
      invariant FirstFault(codes, 0) == FirstFault(codes, pos)
    {
      FirstFaultIsFirst(codes, 0);
      if IsSurrogate(codes[pos]) {
        return Err(Invalid(pos));
      }
      if codes[pos] == 0 {
        if pos != |codes| - 1 {
          return Err(Interior(pos));
        }
        return Ok(codes);
      }
    }
    return Err(NotNulTerminated);
  }

  /** The check accepts exactly the valid strings, and returns them unchanged. */
  lemma CheckAcceptsExactlyValid(codes: seq<U16>)
    ensures FromU16WithNul(codes).Ok? <==> ValidCStr(codes)
    ensures FromU16WithNul(codes).Ok? ==> FromU16WithNul(codes).value == codes
  {
    FirstFaultIsFirst(codes, 0);
  }

  /** Neither NUL nor half of a surrogate pair. */
  predicate Plain(u: U16) {
    u != 0 && !(0xD800 <= u <= 0xDFFF)
  }

  /** All before position `p` can stand inside a string. */
  predicate PlainUpTo(codes: seq<U16>, p: nat) {
    p <= |codes| && forall j :: 0 <= j < p ==> Plain(codes[j])
  }

  /** Which slices are refused, and what is said of them: the first unit at fault, and where it is. */
  lemma CheckTellsTheFault(codes: seq<U16>)
    ensures match FromU16WithNul(codes)
            case Ok(s) => s == codes && PlainUpTo(codes, |codes| - 1) && codes[|codes| - 1] == 0
            case Err(Invalid(p)) => PlainUpTo(codes, p) && p < |codes| && 0xD800 <= codes[p] <= 0xDFFF
            case Err(Interior(p)) => PlainUpTo(codes, p) && p + 1 < |codes| && codes[p] == 0
            case Err(NotNulTerminated) => PlainUpTo(codes, |codes|)
  {
    FirstFaultIsFirst(codes, 0);
    match FirstFault(codes, 0)
    case None => forall j | 0 <= j < |codes| ensures Plain(codes[j]) { assert Fault(codes[j]).None?; }
    case Some((p, _)) => forall j | 0 <= j < p ensures Plain(codes[j]) { assert Fault(codes[j]).None?; }
  }

  // ---------------------------------------------------------------------
  // From text
  // ---------------------------------------------------------------------

  function TryFromStr(input: string): Result<seq<Char16>, Kind> {
    FirstFaultIsFirst(Utf16(input), 0);
    match FirstFault(Utf16(input), 0)
    case None => Ok(Utf16(input) + [NUL])
    case Some((_, k)) => Err(k)
  }

  method TryFrom(input: string) returns (r: Result<seq<Char16>, Kind>)
    ensures r == TryFromStr(input)
  {
    var output: seq<Char16> := [];
    var units := Utf16(input);
    for i := 0 to |units|
      invariant output == units[..i]
      invariant FirstFault(units, 0) == FirstFault(units, i)
    {
      var c := units[i];
      if IsSurrogate(c) {
        return Err(InvalidChar);
      }
      if c == NUL {
        return Err(InteriorNul);
      }
      output := output + [c];
    }
    assert units[..|units|] == units;
    return Ok(output + [NUL]);
  }

  /** Writes the units and a NUL behind them, as far as the buffer goes. */
  method WriteUnits(units: seq<U16>, buf: array<U16>) returns (ok: bool)
    modifies buf
    ensures ok <==> |units| + 1 <= buf.Length
    ensures buf[..] == FilledBuffer(units + [0], old(buf[..]))
  {
    var index := 0;
    while index < |units|
      invariant 0 <= index <= |units| && index <= buf.Length
      invariant forall j :: 0 <= j < index ==> buf[j] == units[j]
      invariant forall j :: index <= j < buf.Length ==> buf[j] == old(buf[j])
    {
      if index >= buf.Length {
        return false;
      }
      buf[index] := units[index];
      index := index + 1;
    }
    if index >= buf.Length {
      return false;
    }
    buf[index] := 0;
    return true;
  }

  /**
   Converts into the caller's buffer.  The buffer is written up to its end even
   when the conversion then fails.
   */
  method FromStrWithBuf(input: string, buf: array<U16>) returns (r: Result<seq<Char16>, FromBufError>)
    modifies buf
    ensures r == FromStrInto(input, buf.Length)
    ensures buf[..] == FilledBuffer(Utf16(input) + [0], old(buf[..]))
  {
    var units := Utf16(input);
    var ok := WriteUnits(units, buf);
    if !ok {
      return Err(BufferTooSmall);
    }
    assert buf[..|units| + 1] == units + [0];
    var checked := CheckU16WithNul(buf[..|units| + 1]);
    EndsInNul(units);
    match checked {
      case Ok(s) => return Ok(s);
      case Err(Invalid(p)) => return Err(InvalidAt(p));
      case Err(Interior(p)) => return Err(InteriorAt(p));
    }
  }

  /** The buffer after as much of `written` as fits was put at its start. */
  function FilledBuffer(written: seq<U16>, was: seq<U16>): seq<U16> {
    if |written| <= |was| then written + was[|written|..] else written[..|was|]
  }

  /** The result of the conversion into a buffer of `size` units. */
  function FromStrInto(input: string, size: nat): Result<seq<Char16>, FromBufError> {
    var units := Utf16(input);
    if |units| + 1 > size then Err(BufferTooSmall)
    else
      EndsInNul(units);
      match FromU16WithNul(units + [0])
      case Ok(s) => Ok(s)
      case Err(Invalid(p)) => Err(InvalidAt(p))
      case Err(Interior(p)) => Err(InteriorAt(p))
  }

  /** A slice with a NUL put at its end is never called unterminated. */
  lemma EndsInNul(units: seq<U16>)
    ensures FromU16WithNul(units + [0]) != Err(NotNulTerminated)
  {
    FirstFaultIsFirst(units + [0], 0);
    assert (units + [0])[|units|] == 0;
  }

  lemma {:induction false} FirstFaultBeforeNul(units: seq<U16>, i: nat)
    requires i <= |units|
    ensures FirstFault(units + [0], i)
            == if FirstFault(units, i).Some? then FirstFault(units, i) else Some((|units|, InteriorNul))
    decreases |units| - i
  {
    var all := units + [0];
    if i < |units| {
      assert all[i] == units[i];
      FirstFaultBeforeNul(units, i + 1);
    } else {
      assert all[i] == 0;
      assert Fault(all[i]) == Some(InteriorNul);
    }
  }

  /**
   The two conversions agree: a buffer of at least one unit more than the text
   gives the same string or the same kind of error, and a smaller one nothing.
   */
  lemma ConversionsAgree(input: string, size: nat)
    ensures size < |Utf16(input)| + 1 ==> FromStrInto(input, size) == Err(BufferTooSmall)
    ensures size >= |Utf16(input)| + 1 ==>
              match FromStrInto(input, size)
              case Ok(s) => TryFromStr(input) == Ok(s)
              case Err(InvalidAt(_)) => TryFromStr(input) == Err(InvalidChar)
              case Err(InteriorAt(_)) => TryFromStr(input) == Err(InteriorNul)
              case Err(BufferTooSmall) => false
  {
    FirstFaultBeforeNul(Utf16(input), 0);
    FirstFaultIsFirst(Utf16(input), 0);
    EndsInNul(Utf16(input));
  }

  /** And a buffer that is large enough tells where in the units the first fault is. */
  lemma BufferTellsTheFault(input: string, size: nat)
    requires size >= |Utf16(input)| + 1
    ensures var units := Utf16(input);
            match FromStrInto(input, size)
            case Ok(s) => s == units + [0] && PlainUpTo(units, |units|)
            case Err(InvalidAt(p)) => PlainUpTo(units, p) && p < |units| && 0xD800 <= units[p] <= 0xDFFF
            case Err(InteriorAt(p)) => PlainUpTo(units, p) && p < |units| && units[p] == 0
            case Err(BufferTooSmall) => false
  {
    var units := Utf16(input);
    var all := units + [0];
    CheckTellsTheFault(all);
    EndsInNul(units);
    assert all[|units|] == 0;
    assert forall j :: 0 <= j < |units| ==> all[j] == units[j];
  }

  /** Characters above the basic plane are written as the two halves of a pair, high half first. */
  lemma PairReadsBack(c: char)
    ensures var u := EncodeUtf16(c);
            if c as int < 0x1_0000 then u == [c as int]
            else && 0xD800 <= u[0] <= 0xDBFF && 0xDC00 <= u[1] <= 0xDFFF
                 && 0x1_0000 + (u[0] as int - 0xD800) * 0x400 + (u[1] as int - 0xDC00) == c as int
  {
  }

  // ---------------------------------------------------------------------
  // Which text converts, and what comes back
  // ---------------------------------------------------------------------

  predicate Representable(c: char) {
    0 < c as int < 0x1_0000
  }

  /** The characters of valid units: the conversion back to text. */
  function ToText(units: seq<Char16>): (s: string)
    ensures |s| == |units|
  {
    seq(|units|, i requires 0 <= i < |units| => units[i] as char)
  }

  lemma {:induction false} Utf16OfRepresentable(s: string)
    requires forall i :: 0 <= i < |s| ==> Representable(s[i])
    ensures |Utf16(s)| == |s|
    ensures forall i :: 0 <= i < |s| ==> Utf16(s)[i] == s[i] as int
  {
    if s != "" {
      Utf16OfRepresentable(s[..|s| - 1]);
    }
  }

  lemma {:induction false} Utf16Appends(s: string, t: string)
    ensures Utf16(s + t) == Utf16(s) + Utf16(t)
  {
    if t == "" {
      assert s + t == s;
    } else {
      assert (s + t)[..|s + t| - 1] == s + t[..|t| - 1];
      Utf16Appends(s, t[..|t| - 1]);
    }
  }

  /** The first character, if any, that has no UCS-2 unit or is NUL. */
  function FirstBad(s: string, i: nat): (r: Option<nat>)
    requires i <= |s|
    decreases |s| - i
  {
    if i == |s| then None
    else if !Representable(s[i]) then Some(i)
    else FirstBad(s, i + 1)
  }

  lemma {:induction false} FirstBadIsFirst(s: string, i: nat)
    requires i <= |s|
    ensures match FirstBad(s, i)
            case None => forall j :: i <= j < |s| ==> Representable(s[j])
            case Some(p) => i <= p < |s| && !Representable(s[p])
                            && forall j :: i <= j < p ==> Representable(s[j])
    decreases |s| - i
  {
    if i < |s| && Representable(s[i]) {
      FirstBadIsFirst(s, i + 1);
    }
  }

  lemma UnitsUpTo(s: string, p: nat)
    requires p < |s| && forall j :: 0 <= j < p ==> Representable(s[j])
    ensures |Utf16(s)| > p && Utf16(s)[p] == EncodeUtf16(s[p])[0]
    ensures forall j :: 0 <= j < p ==> Utf16(s)[j] == s[j] as int
  {
    var front, rest := s[..p], s[p + 1..];
    assert s == front + [s[p]] + rest;
    Utf16Appends(front + [s[p]], rest);
    Utf16Appends(front, [s[p]]);
    assert [s[p]][..0] == "";
    assert Utf16([s[p]]) == Utf16("") + EncodeUtf16(s[p]);
    Utf16OfRepresentable(front);
  }

  lemma BadFirstUnit(c: char)
    requires !Representable(c)
    ensures Fault(EncodeUtf16(c)[0]) == Some(if c as int == 0 then InteriorNul else InvalidChar)
  {
  }

  lemma FaultAtBad(s: string, p: nat)
    requires p < |s| && !Representable(s[p]) && forall j :: 0 <= j < p ==> Representable(s[j])
    ensures FirstFault(Utf16(s), 0) == Some((p, if s[p] as int == 0 then InteriorNul else InvalidChar))
  {
    var units := Utf16(s);
    UnitsUpTo(s, p);
    BadFirstUnit(s[p]);
    forall j | 0 <= j < p
      ensures Fault(units[j]).None?
    {
      assert Representable(s[j]);
    }
    FirstFaultIsFirst(units, 0);
  }

  /**
   Conversion succeeds exactly for text of non-NUL characters of the basic
   plane; the units then are the code points and convert back to the text.
   Otherwise the error tells what the first other character is.
   */
  lemma ConversionIsExact(s: string)
    ensures match TryFromStr(s)
            case Ok(units) =>
              && (forall i :: 0 <= i < |s| ==> Representable(s[i]))
              && ValidCStr(units)
              && |units| == |s| + 1
              && ToText(units[..|units| - 1]) == s
            case Err(k) =>
              exists p :: 0 <= p < |s| && !Representable(s[p])
                          && (forall j :: 0 <= j < p ==> Representable(s[j]))
                          && (k == InteriorNul <==> s[p] as int == 0)
  {
    FirstBadIsFirst(s, 0);
    match FirstBad(s, 0)
    case None =>
      Utf16OfRepresentable(s);
      var units := Utf16(s);
      FirstFaultIsFirst(units, 0);
      assert forall i :: 0 <= i < |s| ==> Fault(units[i]).None?;
      assert (units + [NUL])[..|s|] == units;
    case Some(p) =>
      FaultAtBad(s, p);
  }

  // ---------------------------------------------------------------------
  // The owned string
  // ---------------------------------------------------------------------

  function Replaced(s: seq<Char16>, search: Char16, replace: Char16): (r: seq<Char16>)
    ensures |r| == |s|
  {
    seq(|s|, i requires 0 <= i < |s| => if s[i] == search then replace else s[i])
  }

  class CString16 {
    var chars: seq<Char16>

    ghost predicate Valid()
      reads this
    {
      ValidCStr(chars)
    }

    /** The characters without the terminator. */
    ghost function Content(): seq<Char16>
      reads this
      requires Valid()
    {
      chars[..|chars| - 1]
    }

    constructor ()
      ensures Valid() && Content() == []
    {
      chars := [NUL];
    }

    /** Takes over units that were checked. */
    constructor FromChecked(units: seq<Char16>)
      requires ValidCStr(units)
      ensures Valid() && chars == units
    {
      chars := units;
    }

    /** The program panics on NUL. */
    method Push(c: Char16)
      requires Valid() && c != NUL
      modifies this
      ensures Valid() && Content() == old(Content()) + [c]
    {
      chars := chars[|chars| - 1 := c];
      chars := chars + [NUL];
    }

    method PushStr(str: seq<Char16>)
      requires Valid() && ValidCStr(str)
      modifies this
      ensures Valid() && Content() == old(Content()) + str[..|str| - 1]
    {
      var slice := str[..|str| - 1];
      for i := 0 to |slice|
        invariant Valid() && Content() == old(Content()) + slice[..i]
      {
        assert slice[..i + 1] == slice[..i] + [slice[i]];
        Push(slice[i]);
      }
      assert slice[..|slice|] == slice;
    }

    /** The program panics when either character is NUL. */
    method ReplaceChar(search: Char16, replace: Char16)
      requires Valid() && search != NUL && replace != NUL
      modifies this
      ensures Valid() && Content() == Replaced(old(Content()), search, replace)
      ensures forall i :: 0 <= i < |chars| ==>
                if old(chars)[i] == search then chars[i] == replace else chars[i] == old(chars)[i]
    {
      ghost var was := chars;
      for i := 0 to |chars|
        invariant |chars| == |was|
        invariant forall j :: 0 <= j < i ==> chars[j] == if was[j] == search then replace else was[j]
        invariant forall j :: i <= j < |was| ==> chars[j] == was[j]
      {
        if chars[i] == search {
          chars := chars[i := replace];
        }
      }
      assert chars[..|chars| - 1] == Replaced(was[..|was| - 1], search, replace);
    }

    method NumChars() returns (n: nat)
      requires Valid()
      ensures n == |Content()|
    {
      return |chars| - 1;
    }
  }

  // ---------------------------------------------------------------------
  // Comparison with text
  // ---------------------------------------------------------------------

  /** Compares character by character as long as both go on and neither is NUL. */
  predicate EqUntilNul(units: seq<Char16>, text: string, i: nat)
    decreases |units| - i
  {
    if i >= |units| || i >= |text| || units[i] == 0 || text[i] as int == 0 then true
    else units[i] == text[i] as int && EqUntilNul(units, text, i + 1)
  }

  /** The text up to its first NUL. */
  function BeforeNul(text: string): string {
    if text == "" || text[0] as int == 0 then "" else [text[0]] + BeforeNul(text[1..])
  }

  lemma {:induction false} EqUntilNulShifts(units: seq<Char16>, text: string, i: nat)
    requires i <= |units| && i <= |text|
    ensures EqUntilNul(units, text, i) <==> EqUntilNul(units[i..], text[i..], 0)
    decreases |units| - i
  {
    if i < |units| && i < |text| && units[i] != 0 && text[i] as int != 0 && units[i] == text[i] as int {
      EqUntilNulShifts(units, text, i + 1);
      EqUntilNulShifts(units[i..], text[i..], 1);
      assert units[i..][1..] == units[i + 1..] && text[i..][1..] == text[i + 1..];
    }
  }

  /**
   The comparison is not equality: it holds exactly when the string and the
   text before its first NUL agree as far as the shorter one goes.
   */
  lemma {:induction false} EqUntilNulIsPrefixAgreement(units: seq<Char16>, text: string)
    requires forall i :: 0 <= i < |units| ==> units[i] != 0
    ensures EqUntilNul(units, text, 0)
            <==> ToText(units) <= BeforeNul(text) || BeforeNul(text) <= ToText(units)
  {
    if units != [] && text != "" && text[0] as int != 0 {
      var s, t := ToText(units), BeforeNul(text);
      assert s[0] as int == units[0] && t[0] == text[0];
      assert s[1..] == ToText(units[1..]) && t[1..] == BeforeNul(text[1..]);
      EqUntilNulShifts(units, text, 1);
      EqUntilNulIsPrefixAgreement(units[1..], text[1..]);
      if s[0] == t[0] {
        PrefixTail(s, t);
        PrefixTail(t, s);
      }
    }
  }

  lemma PrefixTail(s: string, t: string)
    requires s != "" && t != "" && s[0] == t[0]
    ensures s <= t <==> s[1..] <= t[1..]
  {
    assert s == [s[0]] + s[1..] && t == [t[0]] + t[1..];
  }

  /** So a valid string equals the text exactly when they also have one length. */
  lemma EqUntilNulOfEqualLength(units: seq<Char16>, text: string)
    requires forall i :: 0 <= i < |units| ==> units[i] != 0
    requires |BeforeNul(text)| == |units|
    ensures EqUntilNul(units, text, 0) <==> ToText(units) == BeforeNul(text)
  {
    EqUntilNulIsPrefixAgreement(units, text);
  }
}
