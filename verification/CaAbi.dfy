/**
 Transactions driven by the ABI of a crypto-asset bundle: the scanner that
 collects (name, selector) pairs from the bundle's JSON text, and the execution
 that resolves the selector of the calldata against them.

 The proof reads a text as the pieces between its quotes.  On pieces the scanner
 is a short recursion, which is shown equal to the scanner on every text.
 */
module CaAbi {
  import Hex
  import Text
  import opened Wrappers

  datatype Method = Method(name: string, selector: string)

  /** The two keys the scanner looks for and the mark in front of the digits. */
  datatype Keys = Keys(selector: string, name: string, mark: string)

  const KEYS := Keys("selector", "name", "0x")
  const UNKNOWN_NAME := "?"
  const UNKNOWN_METHOD := "<inconnu>"

  // ---------------------------------------------------------------------
  // Searching text
  // ---------------------------------------------------------------------

  predicate At(s: string, p: string, i: nat) {
    i + |p| <= |s| && s[i..i + |p|] == p
  }

  function FindFrom(s: string, p: string, lo: nat): (r: Option<nat>)
    requires lo <= |s| + 1
    ensures r.Some? ==> r.value + |p| <= |s|
    decreases |s| + 1 - lo
  {
    if lo > |s| then None else if At(s, p, lo) then Some(lo) else FindFrom(s, p, lo + 1)
  }

  function Find(s: string, p: string): (r: Option<nat>)
    ensures r.Some? ==> r.value + |p| <= |s|
  {
    FindFrom(s, p, 0)
  }

  /** `r` is the first occurrence. */
  ghost predicate First(s: string, p: string, r: Option<nat>) {
    match r
    case Some(i) => At(s, p, i) && forall j: nat :: j < i ==> !At(s, p, j)
    case None => forall j: nat :: !At(s, p, j)
  }

  lemma {:induction false} FindFromIsFirst(s: string, p: string, lo: nat)
    requires lo <= |s| + 1 && forall j: nat :: j < lo ==> !At(s, p, j)
    ensures First(s, p, FindFrom(s, p, lo))
    decreases |s| + 1 - lo
  {
    if lo <= |s| && !At(s, p, lo) {
      FindFromIsFirst(s, p, lo + 1);
    }
  }

  lemma FindIs(s: string, p: string, r: Option<nat>)
    ensures Find(s, p) == r <==> First(s, p, r)
  {
    FindFromIsFirst(s, p, 0);
    var q := Find(s, p);
    if First(s, p, r) && r.Some? {
      assert q.Some?;
    }
  }

  function RFindBelow(s: string, p: string, hi: nat): (r: Option<nat>)
    requires hi <= |s| + 1
    ensures r.Some? ==> r.value + |p| <= |s|
  {
    if hi == 0 then None else if At(s, p, hi - 1) then Some(hi - 1) else RFindBelow(s, p, hi - 1)
  }

  function RFind(s: string, p: string): (r: Option<nat>)
    ensures r.Some? ==> r.value + |p| <= |s|
  {
    RFindBelow(s, p, |s| + 1)
  }

  /** `r` is the last occurrence. */
  ghost predicate Last(s: string, p: string, r: Option<nat>) {
    match r
    case Some(i) => At(s, p, i) && forall j: nat :: i < j ==> !At(s, p, j)
    case None => forall j: nat :: !At(s, p, j)
  }

  lemma {:induction false} RFindBelowIsLast(s: string, p: string, hi: nat)
    requires hi <= |s| + 1 && forall j: nat :: hi <= j ==> !At(s, p, j)
    ensures Last(s, p, RFindBelow(s, p, hi))
  {
    if hi > 0 && !At(s, p, hi - 1) {
      RFindBelowIsLast(s, p, hi - 1);
    }
  }

  lemma RFindIs(s: string, p: string, r: Option<nat>)
    ensures RFind(s, p) == r <==> Last(s, p, r)
  {
    RFindBelowIsLast(s, p, |s| + 1);
    var q := RFind(s, p);
    if Last(s, p, r) && r.Some? {
      assert q.Some?;
    }
  }

  function Shift(r: Option<nat>, n: nat): Option<nat> {
    match r
    case Some(i) => Some(n + i)
    case None => None
  }

  /** What follows the first occurrence. */
  function After(s: string, p: string): Option<string> {
    match Find(s, p)
    case Some(i) => Some(s[i + |p|..])
    case None => None
  }

  function Quoted(w: string): string {
    ['"'] + w + ['"']
  }

  /** The string value of the first field with that key. */
  function JsonStr(s: string, key: string): Option<string> {
    match After(s, Quoted(key))
    case None => None
    case Some(rest) =>
      match After(rest, ":")
      case None => None
      case Some(rest) =>
        match After(rest, "\"")
        case None => None
        case Some(rest) => Before(rest)
  }

  /** The text before the next quote. */
  function Before(s: string): Option<string> {
    match Find(s, "\"")
    case Some(q) => Some(s[..q])
    case None => None
  }

  /** The hexadecimal digits at the front, at most `n`. */
  function TakeHex(s: string, n: nat): string {
    if n == 0 || s == "" || !Hex.IsHexDigit(s[0]) then "" else [s[0]] + TakeHex(s[1..], n - 1)
  }

  function LowerChar(c: char): char {
    if 'A' <= c <= 'Z' then c + ' ' else c
  }

  function Lower(s: string): (r: string)
    ensures |r| == |s|
  {
    seq(|s|, i requires 0 <= i < |s| => LowerChar(s[i]))
  }

  lemma LowerHasNoCapital(s: string)
    ensures forall i :: 0 <= i < |s| ==> !('A' <= Lower(s)[i] <= 'Z')
    ensures forall i :: 0 <= i < |s| && !('A' <= s[i] <= 'Z') ==> Lower(s)[i] == s[i]
  {
  }

  /** Digits of the same number differ in case only. */
  lemma LowerDigit(c: char, d: char)
    requires Hex.IsHexDigit(c) && Hex.IsHexDigit(d)
    ensures Hex.IsHexDigit(LowerChar(c)) && Hex.DigitValue(LowerChar(c)) == Hex.DigitValue(c)
    ensures LowerChar(c) == LowerChar(d) <==> Hex.DigitValue(c) == Hex.DigitValue(d)
  {
  }

  lemma LowerFront(s: string)
    requires s != ""
    ensures Lower(s)[..|s| - 1] == Lower(s[..|s| - 1])
  {
  }

  /** In lower case as many digits are the same text exactly when they write the same number. */
  lemma {:induction false} LowerIffSameNumber(a: string, b: string)
    requires Hex.HexText(a) && Hex.HexText(b) && |a| == |b|
    ensures Lower(a) == Lower(b) <==> Hex.Number(a) == Hex.Number(b)
  {
    if a != "" {
      var n := |a| - 1;
      LowerIffSameNumber(a[..n], b[..n]);
      LowerFront(a);
      LowerFront(b);
      LowerDigit(a[n], b[n]);
      assert Lower(a) == Lower(a)[..n] + [LowerChar(a[n])];
      assert Lower(b) == Lower(b)[..n] + [LowerChar(b[n])];
    }
  }

  // ---------------------------------------------------------------------
  // The scanner
  // ---------------------------------------------------------------------

  function OrUnknown(name: Option<string>): string {
    match name
    case Some(n) => n
    case None => UNKNOWN_NAME
  }

  /** The method of a `"selector"` key: the last `"name"` before it names it. */
  function NameAt(ca: string, pos: nat, keys: Keys): string
    requires pos <= |ca|
  {
    OrUnknown(match RFind(ca[..pos], Quoted(keys.name))
              case Some(np) => JsonStr(ca[np..], keys.name)
              case None => None)
  }

  function Entry(name: string, sel: string): seq<Method> {
    if |sel| == 8 then [Method(name, Lower(sel))] else []
  }

  function EntryAt(ca: string, pos: nat, keys: Keys): seq<Method>
    requires pos <= |ca|
  {
    match After(ca[pos..], keys.mark)
    case None => []
    case Some(hx) => Entry(NameAt(ca, pos, keys), TakeHex(hx, 8))
  }

  /** What `entry` makes of every occurrence of the key, found one after the other. */
  function Scan(ca: string, from: nat, key: string, entry: nat -> seq<Method>): seq<Method>
    requires from <= |ca| && key != ""
    decreases |ca| - from
  {
    match Find(ca[from..], key)
    case None => []
    case Some(rel) => entry(from + rel) + Scan(ca, from + rel + |key|, key, entry)
  }

  /** Two places with the same next occurrence scan alike. */
  lemma ScanSame(ca: string, from: nat, next: nat, key: string, entry: nat -> seq<Method>)
    requires from <= next <= |ca| && key != ""
    requires Find(ca[from..], key) == Shift(Find(ca[next..], key), next - from)
    ensures Scan(ca, from, key, entry) == Scan(ca, next, key, entry)
  {
    var r := Find(ca[next..], key);
    if r.Some? {
      ScanStep(ca, from, key, entry, next + r.value);
      ScanStep(ca, next, key, entry, next + r.value);
    } else {
      ScanEnd(ca, from, key, entry);
      ScanEnd(ca, next, key, entry);
    }
  }

  lemma ScanStep(ca: string, from: nat, key: string, entry: nat -> seq<Method>, pos: nat)
    requires from <= |ca| && from <= pos && key != ""
    requires Find(ca[from..], key) == Some(pos - from)
    ensures pos + |key| <= |ca|
    ensures Scan(ca, from, key, entry) == entry(pos) + Scan(ca, pos + |key|, key, entry)
  {
  }

  lemma ScanEnd(ca: string, from: nat, key: string, entry: nat -> seq<Method>)
    requires from <= |ca| && key != ""
    requires Find(ca[from..], key) == None
    ensures Scan(ca, from, key, entry) == []
  {
  }

  function EntriesOf(ca: string, keys: Keys): nat -> seq<Method> {
    (pos: nat) => if pos <= |ca| then EntryAt(ca, pos, keys) else []
  }

  /** The pairs of a bundle's text. */
  function Methods(ca: string): seq<Method> {
    Scan(ca, 0, Quoted(KEYS.selector), EntriesOf(ca, KEYS))
  }

  ghost predicate Reads(entry: nat -> seq<Method>, ca: string, keys: Keys) {
    forall pos: nat {:trigger EntryAt(ca, pos, keys)} :: pos <= |ca| ==> entry(pos) == EntryAt(ca, pos, keys)
  }

  /** The body of the scanner's loop: the pair, if the digits are complete. */
  method ReadEntry(ca: string, pos: nat, keys: Keys, ghost entry: nat -> seq<Method>) returns (out: seq<Method>)
    requires pos <= |ca| && Reads(entry, ca, keys)
    ensures out == entry(pos)
  {
    out := [];
    var hx := After(ca[pos..], keys.mark);
    if hx.Some? {
      var sel := TakeHex(hx.value, 8);
      var np := RFind(ca[..pos], Quoted(keys.name));
      var field := if np.Some? then JsonStr(ca[np.value..], keys.name) else None;
      var name := if field.Some? then field.value else UNKNOWN_NAME;
      if |sel| == 8 {
        out := out + [Method(name, Lower(sel))];
      }
    }
    assert out == EntryAt(ca, pos, keys);
  }

  lemma Regroup(x: seq<Method>, y: seq<Method>, z: seq<Method>)
    ensures x + (y + z) == x + y + z
  {
  }

  /** One occurrence moves from what is left to scan to what is read. */
  lemma ScanMoves(ca: string, from: nat, key: string, entry: nat -> seq<Method>, pos: nat, out: seq<Method>)
    requires from <= |ca| && from <= pos && key != ""
    requires Find(ca[from..], key) == Some(pos - from)
    ensures pos + |key| <= |ca|
    ensures out + entry(pos) + Scan(ca, pos + |key|, key, entry) == out + Scan(ca, from, key, entry)
  {
    ScanStep(ca, from, key, entry, pos);
    Regroup(out, entry(pos), Scan(ca, pos + |key|, key, entry));
  }

  method ScanMethods(ca: string, key: string, keys: Keys, ghost entry: nat -> seq<Method>) returns (out: seq<Method>)
    requires key != "" && Reads(entry, ca, keys)
    ensures out == Scan(ca, 0, key, entry)
  {
    out := [];
    var from := 0;
    var found := Find(ca[from..], key);
    while found.Some?
      invariant from <= |ca| && found == Find(ca[from..], key)
      invariant out + Scan(ca, from, key, entry) == Scan(ca, 0, key, entry)
      decreases |ca| - from
    {
      var pos := from + found.value;
      ScanMoves(ca, from, key, entry, pos, out);
      var one := ReadEntry(ca, pos, keys, entry);
      out := out + one;
      from := pos + |key|;
      found := Find(ca[from..], key);
    }
    ScanEnd(ca, from, key, entry);
  }

  method ParseCaMethods(ca: string) returns (out: seq<Method>)
    ensures out == Methods(ca)
  {
    out := ScanMethods(ca, Quoted(KEYS.selector), KEYS, EntriesOf(ca, KEYS));
  }

  // ---------------------------------------------------------------------
  // Searching pieces
  // ---------------------------------------------------------------------

  predicate QuoteFree(segs: seq<string>) {
    forall i :: 0 <= i < |segs| ==> Text.Free(segs[i], '"')
  }

  function Joined(segs: seq<string>): string {
    Text.Join(segs, '"')
  }

  lemma {:induction false} JoinedAppend(a: seq<string>, b: seq<string>)
    requires a != [] && b != []
    ensures Joined(a + b) == Joined(a) + ['"'] + Joined(b)
  {
    if |a| == 1 {
      assert (a + b)[1..] == b;
    } else {
      assert (a + b)[1..] == a[1..] + b;
      JoinedAppend(a[1..], b);
    }
  }

  lemma {:induction false} JoinedSplit(s: string)
    ensures Joined(Text.Split(s, '"')) == s
  {
    if s != "" {
      JoinedSplit(s[1..]);
      var rest := Text.Split(s[1..], '"');
      assert [s[0]] + s[1..] == s;
      if s[0] == '"' {
        assert ([""] + rest)[1..] == rest;
      } else {
        assert ([[s[0]] + rest[0]] + rest[1..])[1..] == rest[1..];
      }
    }
  }

  lemma AtShift(a: string, t: string, p: string, j: nat)
    ensures At(a + t, p, |a| + j) <==> At(t, p, j)
  {
    if |a| + j + |p| <= |a + t| {
      assert (a + t)[|a| + j..|a| + j + |p|] == t[j..j + |p|];
    }
  }

  /** A prefix in which nothing starts only shifts the first occurrence. */
  lemma FindSkip(a: string, t: string, p: string)
    requires forall j: nat :: j < |a| ==> !At(a + t, p, j)
    ensures Find(a + t, p) == Shift(Find(t, p), |a|)
  {
    var q := Find(t, p);
    FindIs(t, p, q);
    if q.Some? {
      AtShift(a, t, p, q.value);
    }
    forall j: nat | j >= |a|
      ensures At(a + t, p, j) <==> At(t, p, j - |a|)
    {
      AtShift(a, t, p, j - |a|);
    }
    FindIs(a + t, p, Shift(q, |a|));
  }

  lemma AfterSkip(a: string, t: string, p: string)
    requires forall j: nat :: j < |a| ==> !At(a + t, p, j)
    ensures After(a + t, p) == After(t, p)
  {
    FindSkip(a, t, p);
    var q := Find(t, p);
    if q.Some? {
      assert (a + t)[|a| + q.value + |p|..] == t[q.value + |p|..];
    }
  }

  /** A pattern without quotes occurs inside a piece or not at all. */
  lemma PlainStaysInside(h: string, t: string, p: string, j: nat)
    requires Text.Free(p, '"') && p != "" && j <= |h|
    ensures At(h + ['"'] + t, p, j) <==> At(h, p, j)
  {
    var s := h + ['"'] + t;
    if |h| < j + |p| <= |s| {
      assert s[j..j + |p|][|h| - j] == '"';
    }
    if j + |p| <= |h| {
      assert s[j..j + |p|] == h[j..j + |p|];
    }
  }

  /** What follows the first occurrence, piecewise. */
  function SegAfter(segs: seq<string>, p: string): (r: Option<seq<string>>)
    requires segs != []
    ensures r.Some? ==> r.value != []
  {
    match After(segs[0], p)
    case Some(rest) => Some([rest] + segs[1..])
    case None => if |segs| == 1 then None else SegAfter(segs[1..], p)
  }

  lemma {:induction false} AfterPlain(segs: seq<string>, p: string)
    requires segs != [] && QuoteFree(segs) && Text.Free(p, '"') && p != ""
    ensures match SegAfter(segs, p)
            case None => After(Joined(segs), p) == None
            case Some(t) => After(Joined(segs), p) == Some(Joined(t)) && QuoteFree(t)
  {
    var h := segs[0];
    if |segs| == 1 {
      if Find(h, p).Some? {
        assert [After(h, p).value] + segs[1..] == [After(h, p).value];
      }
    } else {
      var t := Joined(segs[1..]);
      AfterInside(h, t, p);
      if Find(h, p).Some? {
        var rest := After(h, p).value;
        assert ([rest] + segs[1..])[1..] == segs[1..];
      } else {
        AfterPlain(segs[1..], p);
      }
    }
  }

  lemma AfterInside(h: string, t: string, p: string)
    requires Text.Free(h, '"') && Text.Free(p, '"') && p != ""
    ensures match After(h, p)
            case Some(rest) => After(h + ['"'] + t, p) == Some(rest + ['"'] + t)
            case None => After(h + ['"'] + t, p) == After(t, p)
  {
    var s := h + ['"'] + t;
    forall j: nat | j <= |h|
      ensures At(s, p, j) <==> At(h, p, j)
    {
      PlainStaysInside(h, t, p, j);
    }
    var q := Find(h, p);
    FindIs(h, p, q);
    if q.Some? {
      FindIs(s, p, q);
      assert s[q.value + |p|..] == h[q.value + |p|..] + ['"'] + t;
    } else {
      var a := h + ['"'];
      assert s == a + t;
      AfterSkip(a, t, p);
    }
  }

  lemma QuoteAt(h: string, t: string)
    requires Text.Free(h, '"')
    ensures Find(h + ['"'] + t, "\"") == Some(|h|)
  {
    var s := h + ['"'] + t;
    assert s[|h|..|h| + 1] == ['"'];
    assert At(s, "\"", |h|);
    forall j: nat | j < |h|
      ensures !At(s, "\"", j)
    {
      assert s[j..j + 1] == [h[j]];
    }
    FindIs(s, "\"", Some(|h|));
  }

  lemma NoQuote(h: string)
    requires Text.Free(h, '"')
    ensures Find(h, "\"") == None
  {
    forall j: nat | j < |h|
      ensures !At(h, "\"", j)
    {
      assert h[j..j + 1] == [h[j]];
    }
    FindIs(h, "\"", None);
  }

  lemma AfterQuote(segs: seq<string>)
    requires segs != [] && QuoteFree(segs)
    ensures After(Joined(segs), "\"") == if |segs| == 1 then None else Some(Joined(segs[1..]))
    ensures Before(Joined(segs)) == if |segs| == 1 then None else Some(segs[0])
  {
    var h := segs[0];
    if |segs| == 1 {
      NoQuote(h);
    } else {
      var t := Joined(segs[1..]);
      QuoteAt(h, t);
      assert (h + ['"'] + t)[|h| + 1..] == t;
      assert (h + ['"'] + t)[..|h|] == h;
    }
  }

  /** A quoted word cannot start inside a piece. */
  lemma NoneInside(h: string, rest: string, w: string, j: nat)
    requires Text.Free(h, '"') && j < |h|
    ensures !At(h + rest, Quoted(w), j)
  {
    var s, q := h + rest, Quoted(w);
    if j + |q| <= |s| {
      assert s[j..j + |q|][0] == h[j];
      assert q[0] == '"';
    }
  }

  lemma AtQuote(h: string, t: string, w: string)
    ensures At(h + ['"'] + t, Quoted(w), |h|) <==> At(t, w + ['"'], 0)
  {
    var s, q := h + ['"'] + t, Quoted(w);
    assert q == ['"'] + (w + ['"']);
    if |w| < |t| {
      assert s[|h|..|h| + |q|] == ['"'] + t[0..|w| + 1];
      assert q[1..] == w + ['"'];
      assert s[|h|..|h| + |q|][1..] == t[0..|w| + 1];
    }
  }

  /** The quoted word occurs where it is a whole piece, and nowhere else. */
  lemma QuotedOccurs(h: string, t: string, w: string)
    requires Text.Free(h, '"') && Text.Free(w, '"')
    ensures forall j: nat :: j < |h| ==> !At(h + ['"'] + t, Quoted(w), j)
    ensures At(h + ['"'] + t, Quoted(w), |h|) <==> At(t, w + ['"'], 0)
    ensures forall j: nat :: j > |h| ==> (At(h + ['"'] + t, Quoted(w), j) <==> At(t, Quoted(w), j - |h| - 1))
  {
    var s, q := h + ['"'] + t, Quoted(w);
    AtQuote(h, t, w);
    forall j: nat | j < |h|
      ensures !At(s, q, j)
    {
      assert s == h + (['"'] + t);
      NoneInside(h, ['"'] + t, w, j);
    }
    forall j: nat | j > |h|
      ensures At(s, q, j) <==> At(t, q, j - |h| - 1)
    {
      AtShift(h + ['"'], t, q, j - |h| - 1);
    }
  }

  lemma WholePiece(segs: seq<string>, w: string)
    requires segs != [] && QuoteFree(segs) && Text.Free(w, '"')
    ensures At(Joined(segs), w + ['"'], 0) <==> |segs| > 1 && segs[0] == w
  {
    var s, h := Joined(segs), segs[0];
    var q := w + ['"'];
    if |segs| == 1 {
      assert |w| < |s| ==> s[0..|w| + 1][|w|] == s[|w|];
    } else {
      var t := Joined(segs[1..]);
      if At(s, q, 0) {
        assert s == w + ['"'] + s[|w| + 1..];
        Text.FieldsAgree(w, h, '"', s[|w| + 1..], t);
      }
      if h == w {
        assert s[0..|w| + 1] == q;
      }
    }
  }

  /** The first piece that is the word between two quotes. */
  lemma {:induction false} FindKey(segs: seq<string>, w: string)
    requires |segs| > 1 && QuoteFree(segs) && Text.Free(w, '"')
    ensures Find(Joined(segs), Quoted(w))
            == if |segs| > 2 && segs[1] == w then Some(|segs[0]|)
               else Shift(Find(Joined(segs[1..]), Quoted(w)), |segs[0]| + 1)
  {
    var h, t := segs[0], Joined(segs[1..]);
    QuotedOccurs(h, t, w);
    WholePiece(segs[1..], w);
    if |segs| > 2 && segs[1] == w {
      FindIs(Joined(segs), Quoted(w), Some(|h|));
    } else {
      assert h + ['"'] + t == (h + ['"']) + t;
      FindSkip(h + ['"'], t, Quoted(w));
    }
  }

  lemma NoKey(h: string, w: string)
    requires Text.Free(h, '"')
    ensures Find(h, Quoted(w)) == None && RFind(h, Quoted(w)) == None
  {
    forall j: nat
      ensures !At(h, Quoted(w), j)
    {
      var q := Quoted(w);
      if j + |q| <= |h| {
        assert h[j..j + |q|][0] == h[j];
      }
    }
    FindIs(h, Quoted(w), None);
    RFindIs(h, Quoted(w), None);
  }

  /** The last piece that is the word between two quotes. */
  function LastKey(segs: seq<string>, w: string): (r: Option<nat>)
    ensures r.Some? ==> 0 < r.value < |segs| - 1 && segs[r.value] == w
    ensures r.Some? ==> forall i :: r.value < i < |segs| - 1 ==> segs[i] != w
    ensures r.None? ==> forall i :: 0 < i < |segs| - 1 ==> segs[i] != w
  {
    LastKeyBelow(segs, w, |segs| - 1)
  }

  function LastKeyBelow(segs: seq<string>, w: string, hi: int): (r: Option<nat>)
    requires hi < |segs|
    ensures r.Some? ==> 0 < r.value < hi && segs[r.value] == w && forall i :: r.value < i < hi ==> segs[i] != w
    ensures r.None? ==> forall i :: 0 < i < hi ==> segs[i] != w
    decreases hi
  {
    if hi <= 1 then None else if segs[hi - 1] == w then Some(hi - 1) else LastKeyBelow(segs, w, hi - 1)
  }

  /** Where a piece starts in the text. */
  function Start(segs: seq<string>, k: nat): nat
    requires k < |segs|
  {
    if k == 0 then 0 else |Joined(segs[..k])| + 1
  }

  lemma StartSplits(segs: seq<string>, k: nat)
    requires k < |segs|
    ensures Start(segs, k) <= |Joined(segs)| && Joined(segs)[Start(segs, k)..] == Joined(segs[k..])
    ensures k > 0 ==> Joined(segs)[..Start(segs, k) - 1] == Joined(segs[..k])
    ensures k > 0 ==> Joined(segs)[Start(segs, k) - 1..] == ['"'] + Joined(segs[k..])
  {
    if k == 0 {
      assert segs[k..] == segs;
    } else {
      assert segs == segs[..k] + segs[k..];
      JoinedAppend(segs[..k], segs[k..]);
    }
  }

  lemma StartNext(segs: seq<string>, k: nat)
    requires k + 1 < |segs|
    ensures Start(segs, k + 1) == Start(segs, k) + |segs[k]| + 1
  {
    assert segs[..k + 1] == segs[..k] + [segs[k]];
    assert Joined([segs[k]]) == segs[k];
    if k > 0 {
      JoinedAppend(segs[..k], [segs[k]]);
    } else {
      assert segs[..k + 1] == [segs[k]];
    }
  }

  /** Dropping the first piece moves every start by its length. */
  lemma StartOfTail(segs: seq<string>, k: nat)
    requires 0 < k < |segs|
    ensures Start(segs, k) == |segs[0]| + 1 + Start(segs[1..], k - 1)
  {
    if k == 1 {
      StartNext(segs, 0);
    } else {
      assert segs[..k][1..] == segs[1..][..k - 1];
    }
  }

  lemma LastKeyOfTail(segs: seq<string>, w: string)
    requires |segs| > 1
    ensures LastKey(segs, w) == match LastKey(segs[1..], w)
                                case Some(i) => Some(i + 1)
                                case None => if |segs| > 2 && segs[1] == w then Some(1) else None
  {
    var rest := segs[1..];
    assert forall i :: 0 < i < |segs| ==> segs[i] == rest[i - 1];
    var r := LastKey(rest, w);
    if r.Some? {
      assert segs[r.value + 1] == w;
    }
  }

  lemma {:induction false} RFindKey(segs: seq<string>, w: string)
    requires segs != [] && QuoteFree(segs) && Text.Free(w, '"')
    ensures match LastKey(segs, w)
            case None => RFind(Joined(segs), Quoted(w)) == None
            case Some(i) => RFind(Joined(segs), Quoted(w)) == Some((Start(segs, i) - 1) as nat)
  {
    if |segs| == 1 {
      NoKey(segs[0], w);
    } else {
      RFindKey(segs[1..], w);
      WholePiece(segs[1..], w);
      RFindLift(segs[0], Joined(segs[1..]), w);
      LastKeyOfTail(segs, w);
      var r := LastKey(segs[1..], w);
      if r.Some? {
        StartOfTail(segs, r.value + 1);
      } else if |segs| > 2 && segs[1] == w {
        StartNext(segs, 0);
      }
    }
  }

  /** The last occurrence is the last one behind the first quote, if there is any. */
  lemma RFindLift(h: string, t: string, w: string)
    requires Text.Free(h, '"') && Text.Free(w, '"')
    ensures RFind(h + ['"'] + t, Quoted(w))
            == match RFind(t, Quoted(w))
               case Some(i) => Some(|h| + 1 + i)
               case None => if At(t, w + ['"'], 0) then Some(|h|) else None
  {
    var s, q := h + ['"'] + t, Quoted(w);
    QuotedOccurs(h, t, w);
    var r := RFind(t, q);
    RFindIs(t, q, r);
    if r.Some? {
      assert At(s, q, |h| + 1 + r.value);
      RFindIs(s, q, Some(|h| + 1 + r.value));
    } else if At(t, w + ['"'], 0) {
      RFindIs(s, q, Some(|h|));
    } else {
      RFindIs(s, q, None);
    }
  }

  // ---------------------------------------------------------------------
  // The scanner on pieces
  // ---------------------------------------------------------------------

  /** The value after a key, given the pieces after it. */
  function SegField(segs: seq<string>): Option<string> {
    if segs == [] then None else
    match SegAfter(segs, ":")
    case None => None
    case Some(t) => if |t| > 2 then Some(t[1]) else None
  }

  function SegName(segs: seq<string>, j: nat, keys: Keys): string
    requires j <= |segs|
  {
    OrUnknown(match LastKey(segs[..j], keys.name)
              case Some(i) => SegField(segs[i + 1..])
              case None => None)
  }

  function SegEntry(segs: seq<string>, j: nat, keys: Keys): seq<Method>
    requires j < |segs|
  {
    match SegAfter(segs[j..], keys.mark)
    case None => []
    case Some(t) => Entry(SegName(segs, j, keys), TakeHex(t[0], 8))
  }

  function SegScan(segs: seq<string>, k: nat, w: string, entry: nat -> seq<Method>): seq<Method>
    decreases |segs| - k
  {
    if k + 2 >= |segs| then []
    else if segs[k + 1] == w then entry(k + 1) + SegScan(segs, k + 2, w, entry)
    else SegScan(segs, k + 1, w, entry)
  }

  function SegEntriesOf(segs: seq<string>, keys: Keys): nat -> seq<Method> {
    (j: nat) => if j < |segs| then SegEntry(segs, j, keys) else []
  }

  predicate Plain(keys: Keys) {
    Text.Free(keys.selector, '"') && Text.Free(keys.name, '"') && Text.Free(keys.mark, '"') && keys.mark != ""
  }

  lemma FieldByPieces(segs: seq<string>, key: string)
    requires segs != [] && QuoteFree(segs) && Text.Free(key, '"')
    ensures JsonStr(Quoted(key) + Joined(segs), key) == SegField(segs)
  {
    var s, q := Quoted(key) + Joined(segs), Quoted(key);
    assert s[0..|q|] == q;
    assert At(s, q, 0);
    FindIs(s, q, Some(0));
    assert s[|q|..] == Joined(segs);
    AfterPlain(segs, ":");
    var r := SegAfter(segs, ":");
    if r.Some? {
      AfterQuote(r.value);
      if |r.value| > 1 {
        AfterQuote(r.value[1..]);
      }
    }
  }

  /** The text from the opening quote of a piece. */
  lemma FromKey(segs: seq<string>, i: nat)
    requires 0 < i < |segs| - 1
    ensures Start(segs, i) - 1 <= |Joined(segs)|
    ensures Joined(segs)[Start(segs, i) - 1..] == Quoted(segs[i]) + Joined(segs[i + 1..])
  {
    StartSplits(segs, i);
    var rest := segs[i + 1..];
    assert segs[i..] == [segs[i]] + rest;
    JoinedAppend([segs[i]], rest);
    assert Joined([segs[i]]) == segs[i];
  }

  lemma LastBefore(segs: seq<string>, j: nat, w: string)
    requires 0 < j < |segs| && QuoteFree(segs) && Text.Free(w, '"')
    ensures Start(segs, j) - 1 <= |Joined(segs)|
    ensures RFind(Joined(segs)[..Start(segs, j) - 1], Quoted(w))
            == match LastKey(segs[..j], w)
               case None => None
               case Some(i) => Some((Start(segs, i) - 1) as nat)
  {
    StartSplits(segs, j);
    RFindKey(segs[..j], w);
    var r := LastKey(segs[..j], w);
    if r.Some? {
      assert segs[..j][..r.value] == segs[..r.value];
    }
  }

  lemma NameByPieces(segs: seq<string>, j: nat, keys: Keys)
    requires 0 < j < |segs| && QuoteFree(segs) && Plain(keys)
    ensures Start(segs, j) - 1 <= |Joined(segs)|
    ensures NameAt(Joined(segs), Start(segs, j) - 1, keys) == SegName(segs, j, keys)
  {
    LastBefore(segs, j, keys.name);
    var r := LastKey(segs[..j], keys.name);
    if r.Some? {
      FromKey(segs, r.value);
      FieldByPieces(segs[r.value + 1..], keys.name);
    }
  }

  lemma {:induction false} HexStops(a: string, t: string, n: nat)
    ensures TakeHex(a + ['"'] + t, n) == TakeHex(a, n)
  {
    if a == "" {
      assert (a + ['"'] + t)[0] == '"';
    } else if n > 0 {
      assert (a + ['"'] + t)[1..] == a[1..] + ['"'] + t;
      HexStops(a[1..], t, n - 1);
    }
  }

  lemma EntryByPieces(segs: seq<string>, j: nat, keys: Keys)
    requires 0 < j < |segs| && QuoteFree(segs) && Plain(keys)
    ensures Start(segs, j) - 1 <= |Joined(segs)|
    ensures EntryAt(Joined(segs), Start(segs, j) - 1, keys) == SegEntry(segs, j, keys)
  {
    StartSplits(segs, j);
    NameByPieces(segs, j, keys);
    var tail := [""] + segs[j..];
    JoinedAppend([""], segs[j..]);
    assert Joined([""]) == "";
    assert Joined(tail) == ['"'] + Joined(segs[j..]);
    assert tail[1..] == segs[j..];
    AfterPlain(tail, keys.mark);
    assert After("", keys.mark) == None;
    var r := SegAfter(segs[j..], keys.mark);
    if r.Some? {
      var t := r.value;
      if |t| > 1 {
        HexStops(t[0], Joined(t[1..]), 8);
      }
    }
  }

  lemma StartAfterKey(segs: seq<string>, k: nat)
    requires k + 2 < |segs|
    ensures Start(segs, k + 1) - 1 == Start(segs, k) + |segs[k]|
    ensures Start(segs, k + 2) == Start(segs, k) + |segs[k]| + |Quoted(segs[k + 1])|
    ensures Start(segs, k + 2) <= |Joined(segs)|
  {
    StartNext(segs, k);
    StartNext(segs, k + 1);
    StartSplits(segs, k + 2);
  }

  lemma FindAtKey(segs: seq<string>, k: nat)
    requires k + 2 < |segs| && QuoteFree(segs)
    ensures Start(segs, k) <= |Joined(segs)|
    ensures Find(Joined(segs)[Start(segs, k)..], Quoted(segs[k + 1])) == Some(|segs[k]|)
  {
    StartSplits(segs, k);
    FindKey(segs[k..], segs[k + 1]);
  }

  lemma ScanAtKey(segs: seq<string>, k: nat, w: string, entry: nat -> seq<Method>)
    requires k + 2 < |segs| && QuoteFree(segs) && Text.Free(w, '"') && segs[k + 1] == w
    ensures Start(segs, k) <= |Joined(segs)| && Start(segs, k + 2) <= |Joined(segs)|
    ensures Scan(Joined(segs), Start(segs, k), Quoted(w), entry)
            == entry((Start(segs, k + 1) - 1) as nat) + Scan(Joined(segs), Start(segs, k + 2), Quoted(w), entry)
  {
    FindAtKey(segs, k);
    StartAfterKey(segs, k);
    ScanStep(Joined(segs), Start(segs, k), Quoted(w), entry, Start(segs, k) + |segs[k]|);
  }

  lemma ScanPastPiece(segs: seq<string>, k: nat, w: string, entry: nat -> seq<Method>)
    requires k + 1 < |segs| && QuoteFree(segs) && Text.Free(w, '"') && (k + 2 == |segs| || segs[k + 1] != w)
    ensures Start(segs, k) <= |Joined(segs)| && Start(segs, k + 1) <= |Joined(segs)|
    ensures Scan(Joined(segs), Start(segs, k), Quoted(w), entry)
            == Scan(Joined(segs), Start(segs, k + 1), Quoted(w), entry)
  {
    StartSplits(segs, k);
    StartSplits(segs, k + 1);
    FindKey(segs[k..], w);
    assert segs[k..][1..] == segs[k + 1..];
    StartNext(segs, k);
    ScanSame(Joined(segs), Start(segs, k), Start(segs, k + 1), Quoted(w), entry);
  }

  lemma ScanLastPiece(segs: seq<string>, w: string, entry: nat -> seq<Method>)
    requires segs != [] && QuoteFree(segs)
    ensures Start(segs, |segs| - 1) <= |Joined(segs)|
    ensures Scan(Joined(segs), Start(segs, |segs| - 1), Quoted(w), entry) == []
  {
    var k := |segs| - 1;
    StartSplits(segs, k);
    NoKey(segs[k], w);
    ScanEnd(Joined(segs), Start(segs, k), Quoted(w), entry);
  }

  lemma {:induction false} ScanByPieces(segs: seq<string>, k: nat, w: string,
                                        entry: nat -> seq<Method>, segEntry: nat -> seq<Method>)
    requires k < |segs| && QuoteFree(segs) && Text.Free(w, '"')
    requires forall j :: 0 < j < |segs| ==> entry((Start(segs, j) - 1) as nat) == segEntry(j)
    ensures Start(segs, k) <= |Joined(segs)|
    ensures Scan(Joined(segs), Start(segs, k), Quoted(w), entry) == SegScan(segs, k, w, segEntry)
    decreases |segs| - k
  {
    if k + 1 == |segs| {
      ScanLastPiece(segs, w, entry);
    } else if k + 2 < |segs| && segs[k + 1] == w {
      ScanAtKey(segs, k, w, entry);
      ScanByPieces(segs, k + 2, w, entry, segEntry);
    } else {
      ScanPastPiece(segs, k, w, entry);
      ScanByPieces(segs, k + 1, w, entry, segEntry);
    }
  }

  /** The pairs read from the pieces between the quotes. */
  function SegMethods(segs: seq<string>, keys: Keys): seq<Method> {
    SegScan(segs, 0, keys.selector, SegEntriesOf(segs, keys))
  }

  lemma EntriesAgree(segs: seq<string>, j: nat, keys: Keys)
    requires 0 < j < |segs| && QuoteFree(segs) && Plain(keys)
    ensures EntriesOf(Joined(segs), keys)((Start(segs, j) - 1) as nat) == SegEntriesOf(segs, keys)(j)
  {
    EntryByPieces(segs, j, keys);
  }

  lemma MethodsByPieces(segs: seq<string>, keys: Keys)
    requires segs != [] && QuoteFree(segs) && Plain(keys)
    ensures Scan(Joined(segs), 0, Quoted(keys.selector), EntriesOf(Joined(segs), keys)) == SegMethods(segs, keys)
  {
    var entry, segEntry := EntriesOf(Joined(segs), keys), SegEntriesOf(segs, keys);
    forall j | 0 < j < |segs|
      ensures entry((Start(segs, j) - 1) as nat) == segEntry(j)
    {
      EntriesAgree(segs, j, keys);
    }
    ScanByPieces(segs, 0, keys.selector, entry, segEntry);
  }

  /** The scanner reads every text as the pieces between its quotes. */
  lemma ParseIsByPieces(ca: string)
    ensures Methods(ca) == SegMethods(Text.Split(ca, '"'), KEYS)
  {
    var segs := Text.Split(ca, '"');
    JoinedSplit(ca);
    Text.SplitPartsFree(ca, '"');
    MethodsByPieces(segs, KEYS);
  }
}
