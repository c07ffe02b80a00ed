/**
 Bundles printed entry by entry, what the scanner reads from them, and the
 execution of a transaction against a bundle.
 */
module CaBundle {
  import Hex
  import Text
  import opened CaAbi
  import opened Wrappers

  /** One method of an ABI: the text before it, its name, its selector's digits. */
  datatype AbiEntry = AbiEntry(lead: string, name: string, hex: string)

  /** `"name":"<name>","selector":"0x<hex>"` after each lead, and the tail at the end. */
  function Print(entries: seq<AbiEntry>, tail: string, keys: Keys): string {
    if entries == [] then tail
    else entries[0].lead + PrintEntry(entries[0], keys) + Print(entries[1..], tail, keys)
  }

  function PrintEntry(e: AbiEntry, keys: Keys): string {
    Quoted(keys.name) + ":" + Quoted(e.name) + "," + Quoted(keys.selector) + ":" + Quoted(keys.mark + e.hex)
  }

  function Middle(e: AbiEntry, keys: Keys): seq<string> {
    [keys.name, ":", e.name, ",", keys.selector, ":", keys.mark + e.hex]
  }

  function Pieces(entries: seq<AbiEntry>, tail: string, keys: Keys): (r: seq<string>)
    ensures r != []
  {
    if entries == [] then Text.Split(tail, '"')
    else Text.Split(entries[0].lead, '"') + Middle(entries[0], keys) + Pieces(entries[1..], tail, keys)
  }

  predicate KeyFree(s: string, keys: Keys) {
    forall i :: 0 <= i < |Text.Split(s, '"')| ==>
      Text.Split(s, '"')[i] != keys.name && Text.Split(s, '"')[i] != keys.selector
  }

  predicate EightHexDigits(s: string) {
    |s| == 8 && Hex.HexText(s)
  }

  /** Any name without a quote, between texts that do not hold the two keys. */
  predicate WellFormed(e: AbiEntry, keys: Keys) {
    KeyFree(e.lead, keys) && Text.Free(e.name, '"') && EightHexDigits(e.hex)
  }

  predicate AllWellFormed(entries: seq<AbiEntry>, keys: Keys) {
    forall i :: 0 <= i < |entries| ==> WellFormed(entries[i], keys)
  }

  /** What is used of the three literals. */
  predicate Sane(keys: Keys) {
    && Plain(keys) && keys.name != keys.selector
    && |keys.name| != 1 && |keys.selector| != 1 && ':' !in keys.selector
    && |keys.mark| == 2 && |keys.name| < 10 && |keys.selector| < 10
    && After(":", keys.mark) == None && After(",", keys.mark) == None && After(keys.selector, keys.mark) == None
  }

  lemma LiteralsAreSane()
    ensures Sane(KEYS)
  {
    AreSane("selector", "name", "0x", ":", ",");
  }

  lemma AreSane(selector: string, name: string, mark: string, colon: string, comma: string)
    requires |selector| == 8 && |name| == 4 && |mark| == 2
    requires Text.Free(selector, '"') && Text.Free(name, '"') && Text.Free(mark, '"') && ':' !in selector
    requires mark[1] !in selector && mark[1] !in colon && mark[1] !in comma
    ensures Plain(Keys(selector, name, mark)) && name != selector
    ensures After(colon, mark) == None && After(comma, mark) == None && After(selector, mark) == None
  {
    MarkNeedsX(selector, mark);
    MarkNeedsX(colon, mark);
    MarkNeedsX(comma, mark);
  }

  lemma MarkNeedsX(s: string, mark: string)
    requires |mark| == 2 && mark[1] !in s
    ensures After(s, mark) == None
  {
    forall j: nat
      ensures !At(s, mark, j)
    {
      if j + |mark| <= |s| {
        assert s[j..j + |mark|][1] == s[j + 1];
      }
    }
    FindIs(s, mark, None);
  }

  // ---------------------------------------------------------------------
  // The pieces of a printed bundle
  // ---------------------------------------------------------------------

  lemma JoinedCons(s: string, rest: seq<string>)
    requires rest != []
    ensures Joined([s] + rest) == s + ['"'] + Joined(rest)
  {
    assert ([s] + rest)[1..] == rest;
  }

  lemma JoinedPair(a: string, b: string, rest: seq<string>)
    requires rest != []
    ensures Joined([a, b] + rest) == a + ['"'] + b + ['"'] + Joined(rest)
  {
    assert [a, b] + rest == [a] + ([b] + rest);
    JoinedCons(a, [b] + rest);
    JoinedCons(b, rest);
  }

  lemma JoinedEntry(e: AbiEntry, rest: seq<string>, keys: Keys)
    requires rest != []
    ensures ['"'] + Joined(Middle(e, keys) + rest) == PrintEntry(e, keys) + Joined(rest)
  {
    JoinedMiddle(keys.name, ":", e.name, ",", keys.selector, keys.mark + e.hex, rest);
  }

  lemma JoinedMiddle(k: string, colon: string, n: string, comma: string, w: string, x: string, rest: seq<string>)
    requires rest != []
    ensures ['"'] + Joined([k, colon, n, comma, w, colon, x] + rest)
            == Quoted(k) + colon + Quoted(n) + comma + Quoted(w) + colon + Quoted(x) + Joined(rest)
  {
    var d: seq<string> := [x] + rest;
    var c: seq<string> := [w, colon] + d;
    var b: seq<string> := [n, comma] + c;
    assert [k, colon, n, comma, w, colon, x] + rest == [k, colon] + b;
    JoinedCons(x, rest);
    JoinedPair(w, colon, d);
    JoinedPair(n, comma, c);
    JoinedPair(k, colon, b);
  }

  lemma {:induction false} PrintIsJoined(entries: seq<AbiEntry>, tail: string, keys: Keys)
    ensures Joined(Pieces(entries, tail, keys)) == Print(entries, tail, keys)
  {
    if entries == [] {
      JoinedSplit(tail);
    } else {
      var e, rest := entries[0], Pieces(entries[1..], tail, keys);
      var lead := Text.Split(e.lead, '"');
      PrintIsJoined(entries[1..], tail, keys);
      JoinedSplit(e.lead);
      assert lead + Middle(e, keys) + rest == lead + (Middle(e, keys) + rest);
      JoinedAppend(lead, Middle(e, keys) + rest);
      JoinedEntry(e, rest, keys);
      assert e.lead + ['"'] + Joined(Middle(e, keys) + rest) == e.lead + (['"'] + Joined(Middle(e, keys) + rest));
    }
  }

  lemma HexIsFree(e: AbiEntry, keys: Keys)
    requires Sane(keys) && EightHexDigits(e.hex)
    ensures Text.Free(keys.mark + e.hex, '"') && |keys.mark + e.hex| == 10
  {
  }

  lemma MiddleIsFree(e: AbiEntry, keys: Keys)
    requires Sane(keys) && WellFormed(e, keys)
    ensures QuoteFree(Middle(e, keys))
  {
    HexIsFree(e, keys);
  }

  lemma {:induction false} PiecesAreFree(entries: seq<AbiEntry>, tail: string, keys: Keys)
    requires Sane(keys) && AllWellFormed(entries, keys)
    ensures QuoteFree(Pieces(entries, tail, keys))
  {
    if entries == [] {
      Text.SplitPartsFree(tail, '"');
    } else {
      Text.SplitPartsFree(entries[0].lead, '"');
      MiddleIsFree(entries[0], keys);
      PiecesAreFree(entries[1..], tail, keys);
    }
  }

  // ---------------------------------------------------------------------
  // What is read of one entry
  // ---------------------------------------------------------------------

  lemma {:induction false} HexIsTaken(hex: string, n: nat)
    requires |hex| <= n && Hex.HexText(hex)
    ensures TakeHex(hex, n) == hex
  {
    if hex != "" {
      HexIsTaken(hex[1..], n - 1);
    }
  }

  lemma AfterPrefix(p: string, rest: string)
    ensures After(p + rest, p) == Some(rest)
  {
    assert (p + rest)[0..|p|] == p;
    assert At(p + rest, p, 0);
    FindIs(p + rest, p, Some(0));
    assert (p + rest)[|p|..] == rest;
  }

  /** A piece without the pattern is passed over. */
  lemma SegAfterSkips(s: string, rest: seq<string>, p: string)
    requires rest != [] && After(s, p) == None
    ensures SegAfter([s] + rest, p) == SegAfter(rest, p)
  {
    assert ([s] + rest)[1..] == rest;
  }

  lemma SegAfterFinds(s: string, rest: seq<string>, p: string)
    ensures SegAfter([p + s] + rest, p) == Some([s] + rest)
  {
    AfterPrefix(p, s);
    assert ([p + s] + rest)[1..] == rest;
  }

  /** From the key, the digits come two pieces later. */
  lemma HexOfKey(e: AbiEntry, more: seq<string>, keys: Keys)
    requires Sane(keys)
    ensures SegAfter([keys.selector, ":", keys.mark + e.hex] + more, keys.mark) == Some([e.hex] + more)
  {
    var t: seq<string> := [keys.mark + e.hex] + more;
    assert [keys.selector, ":", keys.mark + e.hex] + more == [keys.selector] + ([":"] + t);
    SegAfterSkips(keys.selector, [":"] + t, keys.mark);
    SegAfterSkips(":", t, keys.mark);
    SegAfterFinds(e.hex, more, keys.mark);
  }

  lemma HexOfName(e: AbiEntry, more: seq<string>, keys: Keys)
    requires Sane(keys) && e.name == keys.selector
    ensures SegAfter(Middle(e, keys)[2..] + more, keys.mark) == Some([e.hex] + more)
  {
    var t: seq<string> := [keys.selector, ":", keys.mark + e.hex] + more;
    assert Middle(e, keys)[2..] + more == [e.name] + ([","] + t);
    SegAfterSkips(e.name, [","] + t, keys.mark);
    SegAfterSkips(",", t, keys.mark);
    HexOfKey(e, more, keys);
  }

  /** The value right after a key and a colon. */
  lemma FieldAfterColon(value: string, more: seq<string>)
    requires more != []
    ensures SegField([":", value] + more) == Some(value)
  {
    var rest: seq<string> := [value] + more;
    var colon: string := ":";
    assert colon + "" == colon;
    assert [":", value] + more == [colon + ""] + rest;
    SegAfterFinds("", rest, ":");
    assert ([""] + rest)[1] == value;
  }

  lemma NoColon(s: string)
    requires ':' !in s
    ensures After(s, ":") == None
  {
    forall j: nat
      ensures !At(s, ":", j)
    {
      if j + 1 <= |s| {
        assert s[j..j + 1][0] == s[j];
      }
    }
    FindIs(s, ":", None);
  }

  /** Read from the value of the name, the next field is the selector's. */
  lemma FieldAfterName(e: AbiEntry, more: seq<string>, keys: Keys)
    requires Sane(keys) && more != []
    ensures SegField(Middle(e, keys)[3..] + more) == Some(keys.mark + e.hex)
  {
    var t: seq<string> := [":", keys.mark + e.hex] + more;
    var u: seq<string> := [keys.selector] + t;
    assert Middle(e, keys)[3..] + more == [","] + u;
    NoColon(",");
    NoColon(keys.selector);
    SegAfterSkips(",", u, ":");
    SegAfterSkips(keys.selector, t, ":");
    FieldAfterColon(keys.mark + e.hex, more);
  }

  lemma LastKeyIs(segs: seq<string>, w: string, i: nat)
    requires 0 < i < |segs| - 1 && segs[i] == w
    requires forall j :: i < j < |segs| - 1 ==> segs[j] != w
    ensures LastKey(segs, w) == Some(i)
  {
  }

  /** The name found for the selector key of an entry. */
  function ReadName(e: AbiEntry, keys: Keys): string {
    if e.name == keys.name then keys.mark + e.hex else e.name
  }

  lemma NameOfKey(pre: seq<string>, e: AbiEntry, more: seq<string>, keys: Keys)
    requires pre != [] && more != [] && Sane(keys)
    ensures SegName(pre + Middle(e, keys) + more, |pre| + 4, keys) == ReadName(e, keys)
  {
    var mid := Middle(e, keys);
    var segs := pre + mid + more;
    var before := segs[..|pre| + 4];
    assert before == pre + [keys.name, ":", e.name, ","];
    if e.name == keys.name {
      LastKeyIs(before, keys.name, |pre| + 2);
      assert segs[|pre| + 3..] == mid[3..] + more;
      FieldAfterName(e, more, keys);
    } else {
      LastKeyIs(before, keys.name, |pre|);
      NameField(pre, e, more, keys);
    }
  }

  lemma NameField(pre: seq<string>, e: AbiEntry, more: seq<string>, keys: Keys)
    requires more != []
    ensures SegField((pre + Middle(e, keys) + more)[|pre| + 1..]) == Some(e.name)
  {
    var mid := Middle(e, keys);
    assert (pre + mid + more)[|pre| + 1..] == [":", e.name] + (mid[3..] + more);
    FieldAfterColon(e.name, mid[3..] + more);
  }

  lemma EntryAtKey(pre: seq<string>, e: AbiEntry, more: seq<string>, keys: Keys)
    requires pre != [] && more != [] && Sane(keys) && EightHexDigits(e.hex)
    ensures SegEntry(pre + Middle(e, keys) + more, |pre| + 4, keys) == [Method(ReadName(e, keys), Lower(e.hex))]
  {
    var segs := pre + Middle(e, keys) + more;
    NameOfKey(pre, e, more, keys);
    assert segs[|pre| + 4..] == [keys.selector, ":", keys.mark + e.hex] + more;
    HexOfKey(e, more, keys);
    HexIsTaken(e.hex, 8);
  }

  /** A name that reads like the selector key is taken for one. */
  lemma EntryAtName(pre: seq<string>, e: AbiEntry, more: seq<string>, keys: Keys)
    requires pre != [] && more != [] && Sane(keys) && EightHexDigits(e.hex) && e.name == keys.selector
    ensures SegEntry(pre + Middle(e, keys) + more, |pre| + 2, keys) == [Method(e.name, Lower(e.hex))]
  {
    var mid := Middle(e, keys);
    var segs := pre + mid + more;
    var before := segs[..|pre| + 2];
    assert before == pre + [keys.name, ":"];
    LastKeyIs(before, keys.name, |pre|);
    NameField(pre, e, more, keys);
    assert segs[|pre| + 2..] == mid[2..] + more;
    HexOfName(e, more, keys);
    HexIsTaken(e.hex, 8);
  }

  // ---------------------------------------------------------------------
  // The whole scan
  // ---------------------------------------------------------------------

  /** The pairs an entry gives: one, or two when its name is the selector key. */
  function Read(e: AbiEntry, keys: Keys): seq<Method> {
    var m := Method(ReadName(e, keys), Lower(e.hex));
    if e.name == keys.selector then [m, m] else [m]
  }

  function ReadAll(entries: seq<AbiEntry>, keys: Keys): seq<Method> {
    if entries == [] then [] else Read(entries[0], keys) + ReadAll(entries[1..], keys)
  }

  lemma {:induction false} SkipPieces(segs: seq<string>, k: nat, hi: nat, w: string, entry: nat -> seq<Method>)
    requires k <= hi < |segs| && forall i :: k < i <= hi ==> segs[i] != w
    ensures SegScan(segs, k, w, entry) == SegScan(segs, hi, w, entry)
    decreases hi - k
  {
    if k < hi {
      SkipPieces(segs, k + 1, hi, w, entry);
    }
  }

  lemma TakeKey(segs: seq<string>, k: nat, w: string, entry: nat -> seq<Method>)
    requires k + 2 < |segs| && segs[k + 1] == w
    ensures SegScan(segs, k, w, entry) == entry(k + 1) + SegScan(segs, k + 2, w, entry)
  {
  }

  /** Past the key and the value of the name; the value counts when it reads like the other key. */
  lemma ScanNameField(segs: seq<string>, a: nat, w: string, entry: nat -> seq<Method>)
    requires 0 < a && a + 5 < |segs| && segs[a] != w && segs[a + 1] != w && segs[a + 3] != w
    ensures SegScan(segs, a - 1, w, entry)
            == (if segs[a + 2] == w then entry(a + 2) else []) + SegScan(segs, a + 3, w, entry)
  {
    SkipPieces(segs, a - 1, a + 1, w, entry);
    if segs[a + 2] == w {
      TakeKey(segs, a + 1, w, entry);
    } else {
      SkipPieces(segs, a + 1, a + 3, w, entry);
    }
  }

  lemma ScanSelectorField(segs: seq<string>, k: nat, w: string, entry: nat -> seq<Method>)
    requires k + 3 < |segs| && segs[k + 1] == w && segs[k + 3] != w
    ensures SegScan(segs, k, w, entry) == entry(k + 1) + SegScan(segs, k + 3, w, entry)
  {
    TakeKey(segs, k, w, entry);
    SkipPieces(segs, k + 2, k + 3, w, entry);
  }

  predicate HoldsEntry(segs: seq<string>, a: nat, e: AbiEntry, keys: Keys) {
    && 0 < a && a + 7 < |segs|
    && segs[a] == keys.name && segs[a + 1] == ":" && segs[a + 2] == e.name && segs[a + 3] == ","
    && segs[a + 4] == keys.selector && segs[a + 5] == ":" && segs[a + 6] == keys.mark + e.hex
  }

  lemma MiddleHoldsEntry(pre: seq<string>, e: AbiEntry, more: seq<string>, keys: Keys)
    requires pre != [] && more != []
    ensures HoldsEntry(pre + Middle(e, keys) + more, |pre|, e, keys)
  {
  }

  /** Scanning over one entry, from the end of its lead to its digits. */
  lemma ScanEntry(segs: seq<string>, a: nat, e: AbiEntry, keys: Keys, entry: nat -> seq<Method>)
    requires HoldsEntry(segs, a, e, keys) && Sane(keys) && EightHexDigits(e.hex)
    requires var m := Method(ReadName(e, keys), Lower(e.hex));
             && entry(a + 4) == [m]
             && (e.name == keys.selector ==> entry(a + 2) == [m])
    ensures SegScan(segs, a - 1, keys.selector, entry)
            == Read(e, keys) + SegScan(segs, a + 6, keys.selector, entry)
  {
    var w, m := keys.selector, Method(ReadName(e, keys), Lower(e.hex));
    ScanNameField(segs, a, w, entry);
    ScanSelectorField(segs, a + 3, w, entry);
    Regroup(if e.name == w then [m] else [], [m], SegScan(segs, a + 6, w, entry));
  }

  lemma EntriesRead(pre: seq<string>, e: AbiEntry, more: seq<string>, keys: Keys)
    requires pre != [] && more != [] && Sane(keys) && EightHexDigits(e.hex)
    ensures var m := Method(ReadName(e, keys), Lower(e.hex));
            var entry := SegEntriesOf(pre + Middle(e, keys) + more, keys);
            entry(|pre| + 4) == [m] && (e.name == keys.selector ==> entry(|pre| + 2) == [m])
  {
    EntryAtKey(pre, e, more, keys);
    if e.name == keys.selector {
      EntryAtName(pre, e, more, keys);
    }
  }

  /** Over the texts between the entries nothing is read. */
  lemma SkipLead(pre: seq<string>, lead: string, more: seq<string>, p: nat, keys: Keys, entry: nat -> seq<Method>)
    requires |pre| - 1 <= p <= |pre| && KeyFree(lead, keys)
    ensures var parts := Text.Split(lead, '"');
            SegScan(pre + parts + more, p, keys.selector, entry)
            == SegScan(pre + parts + more, |pre| + |parts| - 1, keys.selector, entry)
  {
    var parts := Text.Split(lead, '"');
    var segs := pre + parts + more;
    forall i | p < i <= |pre| + |parts| - 1
      ensures segs[i] != keys.selector
    {
      assert segs[i] == parts[i - |pre|];
    }
    SkipPieces(segs, p, |pre| + |parts| - 1, keys.selector, entry);
  }

  /** One entry and the text before it, with anything around. */
  lemma ScanLeadAndEntry(pre: seq<string>, e: AbiEntry, more: seq<string>, p: nat, keys: Keys,
                         lead: seq<string>, entry: nat -> seq<Method>)
    requires Sane(keys) && WellFormed(e, keys) && |pre| - 1 <= p <= |pre| && more != []
    requires lead == Text.Split(e.lead, '"')
    requires entry == SegEntriesOf(pre + lead + Middle(e, keys) + more, keys)
    ensures var segs := pre + lead + Middle(e, keys) + more;
            SegScan(segs, p, keys.selector, entry)
            == Read(e, keys) + SegScan(segs, |pre| + |lead| + 6, keys.selector, entry)
  {
    var mid := Middle(e, keys);
    EntriesRead(pre + lead, e, more, keys);
    MiddleHoldsEntry(pre + lead, e, more, keys);
    ScanLeadThenEntry(pre, lead, mid, more, e, p, keys, entry);
  }

  lemma ScanLeadThenEntry(pre: seq<string>, lead: seq<string>, mid: seq<string>, more: seq<string>,
                          e: AbiEntry, p: nat, keys: Keys, entry: nat -> seq<Method>)
    requires Sane(keys) && WellFormed(e, keys) && |pre| - 1 <= p <= |pre|
    requires lead == Text.Split(e.lead, '"')
    requires HoldsEntry(pre + lead + mid + more, |pre + lead|, e, keys)
    requires var m := Method(ReadName(e, keys), Lower(e.hex));
             && entry(|pre + lead| + 4) == [m]
             && (e.name == keys.selector ==> entry(|pre + lead| + 2) == [m])
    ensures var segs := pre + lead + mid + more;
            SegScan(segs, p, keys.selector, entry)
            == Read(e, keys) + SegScan(segs, |pre| + |lead| + 6, keys.selector, entry)
  {
    var segs := pre + lead + mid + more;
    assert segs == pre + lead + (mid + more);
    SkipLead(pre, e.lead, mid + more, p, keys, entry);
    ScanEntry(segs, |pre + lead|, e, keys, entry);
  }

  lemma ScanTail(pre: seq<string>, tail: string, p: nat, keys: Keys)
    requires |pre| - 1 <= p <= |pre| && KeyFree(tail, keys)
    ensures var segs := pre + Text.Split(tail, '"');
            SegScan(segs, p, keys.selector, SegEntriesOf(segs, keys)) == []
  {
    var segs := pre + Text.Split(tail, '"');
    assert segs + [] == segs;
    SkipLead(pre, tail, [], p, keys, SegEntriesOf(segs, keys));
  }

  /** The pieces up to the end of an entry. */
  function Done(pre: seq<string>, e: AbiEntry, keys: Keys): seq<string> {
    pre + Text.Split(e.lead, '"') + Middle(e, keys)
  }

  lemma PiecesShift(pre: seq<string>, entries: seq<AbiEntry>, tail: string, keys: Keys)
    requires entries != []
    ensures pre + Pieces(entries, tail, keys) == Done(pre, entries[0], keys) + Pieces(entries[1..], tail, keys)
  {
  }

  function ScanFrom(segs: seq<string>, p: nat, keys: Keys): seq<Method>
    requires p < |segs|
  {
    SegScan(segs, p, keys.selector, SegEntriesOf(segs, keys))
  }

  /** Scanning over an entry and the text before it, with anything around. */
  lemma ScanOne(pre: seq<string>, e: AbiEntry, more: seq<string>, p: nat, keys: Keys)
    requires Sane(keys) && WellFormed(e, keys) && |pre| - 1 <= p <= |pre| && more != []
    ensures var segs, done := Done(pre, e, keys) + more, Done(pre, e, keys);
            ScanFrom(segs, p, keys) == Read(e, keys) + ScanFrom(segs, |done| - 1, keys)
  {
    var lead := Text.Split(e.lead, '"');
    assert |Done(pre, e, keys)| - 1 == |pre| + |lead| + 6;
    ScanLeadAndEntry(pre, e, more, p, keys, lead, SegEntriesOf(Done(pre, e, keys) + more, keys));
  }

  lemma {:induction false} ScanEntries(pre: seq<string>, entries: seq<AbiEntry>, tail: string, p: nat, keys: Keys)
    requires Sane(keys) && AllWellFormed(entries, keys) && KeyFree(tail, keys)
    requires |pre| - 1 <= p <= |pre|
    ensures ScanFrom(pre + Pieces(entries, tail, keys), p, keys) == ReadAll(entries, keys)
    decreases |entries|
  {
    if entries == [] {
      ScanTail(pre, tail, p, keys);
    } else {
      var e, rest := entries[0], entries[1..];
      var more, done := Pieces(rest, tail, keys), Done(pre, e, keys);
      assert WellFormed(e, keys) && AllWellFormed(rest, keys);
      ScanEntries(done, rest, tail, |done| - 1, keys);
      ScanOne(pre, e, more, p, keys);
      PiecesShift(pre, entries, tail, keys);
    }
  }

  /**
   What is read from a printed bundle, for all entries with quote-free names: one
   pair an entry, its name and its selector in lower case; but an entry named
   "name" is read under its own selector text, and one named "selector" twice.
   */
  lemma PrintedBundleReads(entries: seq<AbiEntry>, tail: string)
    requires AllWellFormed(entries, KEYS) && KeyFree(tail, KEYS)
    ensures Methods(Print(entries, tail, KEYS)) == ReadAll(entries, KEYS)
  {
    LiteralsAreSane();
    PrintedReads(entries, tail, KEYS);
  }

  lemma PrintedReads(entries: seq<AbiEntry>, tail: string, keys: Keys)
    requires Sane(keys) && AllWellFormed(entries, keys) && KeyFree(tail, keys)
    ensures var ca := Print(entries, tail, keys);
            Scan(ca, 0, Quoted(keys.selector), EntriesOf(ca, keys)) == ReadAll(entries, keys)
  {
    var segs := Pieces(entries, tail, keys);
    PrintIsJoined(entries, tail, keys);
    PiecesAreFree(entries, tail, keys);
    MethodsByPieces(segs, keys);
    ScanEntries([], entries, tail, 0, keys);
    assert [] + segs == segs;
  }

  /** What the bundle declares: each name with its selector in lower case. */
  function Table(entries: seq<AbiEntry>): seq<Method> {
    seq(|entries|, i requires 0 <= i < |entries| => Method(entries[i].name, Lower(entries[i].hex)))
  }

  /** No name reads like one of the two keys. */
  predicate NamesAvoidKeys(entries: seq<AbiEntry>, keys: Keys) {
    forall i :: 0 <= i < |entries| ==> entries[i].name != keys.name && entries[i].name != keys.selector
  }

  lemma TableCons(entries: seq<AbiEntry>)
    requires entries != []
    ensures Table(entries) == [Method(entries[0].name, Lower(entries[0].hex))] + Table(entries[1..])
  {
  }

  lemma {:induction false} ReadsAtLeastOneEach(entries: seq<AbiEntry>, keys: Keys)
    ensures |ReadAll(entries, keys)| >= |entries|
  {
    if entries != [] {
      ReadsAtLeastOneEach(entries[1..], keys);
    }
  }

  lemma {:induction false} ReadsTableIff(entries: seq<AbiEntry>, keys: Keys)
    requires Sane(keys) && AllWellFormed(entries, keys)
    ensures ReadAll(entries, keys) == Table(entries) <==> NamesAvoidKeys(entries, keys)
  {
    if entries != [] {
      var e, rest := entries[0], entries[1..];
      assert WellFormed(e, keys);
      ReadsTableIff(rest, keys);
      ReadsAtLeastOneEach(rest, keys);
      TableCons(entries);
      ReadNameKept(e, keys);
      var m := Method(ReadName(e, keys), Lower(e.hex));
      if ReadAll(entries, keys) == Table(entries) {
        assert e.name != keys.selector;
        assert ReadAll(entries, keys) == [m] + ReadAll(rest, keys);
        assert ReadAll(entries, keys)[0] == m && ReadAll(entries, keys)[1..] == ReadAll(rest, keys);
        assert Table(entries)[1..] == Table(rest);
        AvoidCons(entries, keys);
      }
    }
  }

  lemma AvoidCons(entries: seq<AbiEntry>, keys: Keys)
    requires entries != [] && NamesAvoidKeys(entries[1..], keys)
    requires entries[0].name != keys.name && entries[0].name != keys.selector
    ensures NamesAvoidKeys(entries, keys)
  {
    forall i | 0 <= i < |entries|
      ensures entries[i].name != keys.name && entries[i].name != keys.selector
    {
      assert i > 0 ==> entries[i] == entries[1..][i - 1];
    }
  }

  lemma ReadNameKept(e: AbiEntry, keys: Keys)
    requires Sane(keys) && EightHexDigits(e.hex)
    ensures ReadName(e, keys) == e.name <==> e.name != keys.name
  {
    HexIsFree(e, keys);
  }

  /**
   The scanner inverts the printer, up to lower case, exactly on the bundles in
   which no method is called like one of the two keys.
   */
  lemma RoundTripIff(entries: seq<AbiEntry>, tail: string)
    requires AllWellFormed(entries, KEYS) && KeyFree(tail, KEYS)
    ensures Methods(Print(entries, tail, KEYS)) == Table(entries) <==> NamesAvoidKeys(entries, KEYS)
  {
    LiteralsAreSane();
    PrintedBundleReads(entries, tail);
    ReadsTableIff(entries, KEYS);
  }

  lemma KeyFreeEmpty(keys: Keys)
    requires keys.name != "" && keys.selector != ""
    ensures KeyFree("", keys)
  {
    assert Text.Split("", '"') == [""];
  }

  lemma OneEntryPrints(e: AbiEntry, keys: Keys)
    requires e.lead == ""
    ensures Print([e], "", keys) == PrintEntry(e, keys)
  {
    assert [e][1..] == [];
  }

  lemma ReadsOne(e: AbiEntry, keys: Keys)
    requires e.name != keys.name && e.name != keys.selector
    ensures ReadAll([e], keys) == [Method(e.name, Lower(e.hex))]
  {
    assert [e][1..] == [];
  }

  /** One method as it stands in a bundle. */
  lemma OneMethodReads(name: string, hex: string)
    requires Text.Free(name, '"') && EightHexDigits(hex) && name != "name" && name != "selector"
    ensures Methods(Quoted("name") + ":" + Quoted(name) + "," + Quoted("selector") + ":" + Quoted("0x" + hex))
            == [Method(name, Lower(hex))]
  {
    var e := AbiEntry("", name, hex);
    LiteralsAreSane();
    KeyFreeEmpty(KEYS);
    PrintedBundleReads([e], "");
    OneEntryPrints(e, KEYS);
    ReadsOne(e, KEYS);
  }

  // A bundle with a selector but no name.

  lemma {:induction false} HexIsTakenUpTo(hex: string, rest: string, n: nat)
    requires Hex.HexText(hex) && (rest == "" || !Hex.IsHexDigit(rest[0]))
    ensures TakeHex(hex + rest, n) == if |hex| <= n then hex else hex[..n]
  {
    if hex == "" {
      assert hex + rest == rest;
    } else if n > 0 {
      assert (hex + rest)[1..] == hex[1..] + rest;
      HexIsTakenUpTo(hex[1..], rest, n - 1);
    }
  }

  /** The pieces of such a bundle. */
  function Nameless(value: string, keys: Keys): seq<string> {
    ["", keys.selector, ":", keys.mark + value, ""]
  }

  lemma NamelessIsJoined(value: string, keys: Keys)
    ensures Joined(Nameless(value, keys)) == Quoted(keys.selector) + ":" + Quoted(keys.mark + value)
  {
    var last: seq<string> := [""];
    var colon: string := ":";
    JoinedCons(keys.mark + value, last);
    JoinedPair(keys.selector, colon, [keys.mark + value] + last);
    JoinedCons("", [keys.selector, colon] + ([keys.mark + value] + last));
    assert Nameless(value, keys) == [""] + ([keys.selector, colon] + ([keys.mark + value] + last));
    assert Joined(last) == "";
  }

  lemma NamelessEntry(value: string, keys: Keys)
    requires Sane(keys)
    ensures SegEntry(Nameless(value, keys), 1, keys) == Entry(UNKNOWN_NAME, TakeHex(value, 8))
  {
    var segs, last := Nameless(value, keys), [keys.mark + value, ""];
    var colon: string := ":";
    SegAfterFinds(value, [""], keys.mark);
    assert last == [keys.mark + value] + [""];
    SegAfterSkips(colon, last, keys.mark);
    SegAfterSkips(keys.selector, [colon] + last, keys.mark);
    assert segs[1..] == [keys.selector] + ([colon] + last);
  }

  lemma NamelessScan(segs: seq<string>, w: string, entry: nat -> seq<Method>)
    requires |segs| == 5 && segs[1] == w && segs[3] != w
    ensures SegScan(segs, 0, w, entry) == entry(1)
  {
    assert SegScan(segs, 3, w, entry) == [];
    assert SegScan(segs, 2, w, entry) == [];
  }

  lemma NamelessMethods(value: string, keys: Keys)
    requires Sane(keys) && Text.Free(value, '"') && keys.mark + value != keys.selector
    ensures Scan(Joined(Nameless(value, keys)), 0, Quoted(keys.selector),
                 EntriesOf(Joined(Nameless(value, keys)), keys))
            == Entry(UNKNOWN_NAME, TakeHex(value, 8))
  {
    var segs := Nameless(value, keys);
    MethodsByPieces(segs, keys);
    NamelessScan(segs, keys.selector, SegEntriesOf(segs, keys));
    NamelessEntry(value, keys);
  }

  lemma NamelessDigits(hex: string, rest: string, keys: Keys)
    requires Sane(keys) && |keys.selector| > 0 && keys.mark[0] != keys.selector[0]
    requires Hex.HexText(hex) && Text.Free(rest, '"') && (rest == "" || !Hex.IsHexDigit(rest[0]))
    ensures var ca := Quoted(keys.selector) + ":" + Quoted(keys.mark + (hex + rest));
            Scan(ca, 0, Quoted(keys.selector), EntriesOf(ca, keys))
            == if |hex| < 8 then [] else [Method(UNKNOWN_NAME, Lower(hex[..8]))]
  {
    NamelessIsJoined(hex + rest, keys);
    assert (keys.mark + (hex + rest))[0] == keys.mark[0];
    NamelessMethods(hex + rest, keys);
    HexIsTakenUpTo(hex, rest, 8);
    assert |hex| == 8 ==> hex[..8] == hex;
  }

  /**
   A selector without a name is read under "?", by its first eight digits; with
   fewer than eight digits, whatever follows them, it is passed over.
   */
  lemma NamelessReads(hex: string, rest: string)
    requires Hex.HexText(hex) && Text.Free(rest, '"') && (rest == "" || !Hex.IsHexDigit(rest[0]))
    ensures Methods(Quoted("selector") + ":" + Quoted("0x" + (hex + rest)))
            == if |hex| < 8 then [] else [Method("?", Lower(hex[..8]))]
  {
    LiteralsAreSane();
    NamelessDigits(hex, rest, KEYS);
  }

  // ---------------------------------------------------------------------
  // Execution
  // ---------------------------------------------------------------------

  /** The fields of the receipt that vary. */
  datatype Receipt = Receipt(id: nat, status: nat, selector: string, methodName: string, to: string)

  function Selector(data: string): string {
    var d := Hex.StripMarks(data);
    Lower(if |d| <= 8 then d else d[..8])
  }

  predicate IsFirst(methods: seq<Method>, sel: string, i: nat) {
    && i < |methods| && methods[i].selector == sel
    && forall j :: 0 <= j < i ==> methods[j].selector != sel
  }

  /** The first method with the selector. */
  function FirstWith(methods: seq<Method>, sel: string): (r: Option<nat>)
    ensures r.Some? <==> exists i :: 0 <= i < |methods| && methods[i].selector == sel
    ensures r.Some? ==> IsFirst(methods, sel, r.value)
  {
    if methods == [] then None
    else if methods[0].selector == sel then Some(0)
    else
      assert forall i :: 0 < i < |methods| ==> methods[i] == methods[1..][i - 1];
      Shift(FirstWith(methods[1..], sel), 1)
  }

  /** Bytes that are not UTF-8 count as an empty bundle. */
  function BundleText(ca: Option<string>): string {
    match ca
    case Some(s) => s
    case None => ""
  }

  function NameOrUnknown(methods: seq<Method>, sel: string): string {
    match FirstWith(methods, sel)
    case Some(i) => methods[i].name
    case None => UNKNOWN_METHOD
  }

  function ExecuteTx(ca: Option<string>, to: string, data: string, id: nat): Receipt {
    var methods := Methods(BundleText(ca));
    var sel := Selector(data);
    var name := NameOrUnknown(methods, sel);
    Receipt(id, if name == UNKNOWN_METHOD then 2 else 1, sel, name, to)
  }

  /**
   Status 1 is given exactly when the first method with the calldata's selector
   is not called like the marker of an unknown one; that method is reported.
   */
  lemma StatusIffResolved(ca: Option<string>, to: string, data: string, id: nat)
    ensures var r, methods, sel := ExecuteTx(ca, to, data, id), Methods(BundleText(ca)), Selector(data);
            && (r.status == 1 <==> exists i: nat :: IsFirst(methods, sel, i) && methods[i].name != UNKNOWN_METHOD)
            && (r.status != 1 ==> r.status == 2 && r.methodName == "<inconnu>")
            && forall i: nat :: IsFirst(methods, sel, i) ==> r.methodName == methods[i].name
  {
    ResolvedName(Methods(BundleText(ca)), Selector(data));
  }

  /** A bundle that cannot be read has no methods. */
  lemma UnreadableBundleRefuses(to: string, data: string, id: nat)
    ensures ExecuteTx(None, to, data, id).status == 2
    ensures ExecuteTx(None, to, data, id).methodName == "<inconnu>"
  {
    FindIs("", Quoted(KEYS.selector), None);
    assert ""[0..] == "";
    assert Methods("") == [];
  }

  lemma ResolvedName(methods: seq<Method>, sel: string)
    ensures NameOrUnknown(methods, sel) != UNKNOWN_METHOD
            <==> exists i: nat :: IsFirst(methods, sel, i) && methods[i].name != UNKNOWN_METHOD
    ensures forall i: nat :: IsFirst(methods, sel, i) ==> NameOrUnknown(methods, sel) == methods[i].name
  {
    forall i: nat | IsFirst(methods, sel, i)
      ensures FirstWith(methods, sel) == Some(i)
    {
    }
  }

  /** Calldata of eight digits behind any number of "0x" selects by them in lower case. */
  lemma SelectorOfCalldata(marks: nat, hex: string, args: string)
    requires EightHexDigits(hex)
    ensures Selector(Hex.Marks(marks) + (hex + args)) == Lower(hex)
  {
    var d := hex + args;
    assert d[1] == hex[1] && Hex.IsHexDigit(hex[1]);
    Hex.MarksAreStripped(marks, d);
    assert d[..8] == hex;
  }

  lemma {:induction false} UnmatchedSkip(x: seq<Method>, y: seq<Method>, sel: string)
    requires forall i :: 0 <= i < |x| ==> x[i].selector != sel
    ensures NameOrUnknown(x + y, sel) == NameOrUnknown(y, sel)
  {
    if x == [] {
      assert x + y == y;
    } else {
      assert (x + y)[1..] == x[1..] + y;
      UnmatchedSkip(x[1..], y, sel);
    }
  }

  /** The name under which the first entry with the selector is read. */
  function TableName(entries: seq<AbiEntry>, sel: string, keys: Keys): string {
    match FirstWith(Table(entries), sel)
    case Some(i) => ReadName(entries[i], keys)
    case None => UNKNOWN_METHOD
  }

  /** What is read from the entries resolves every selector as their table does: a doubled pair keeps its selector. */
  lemma {:induction false} ReadsResolveAsTable(entries: seq<AbiEntry>, sel: string, keys: Keys)
    ensures NameOrUnknown(ReadAll(entries, keys), sel) == TableName(entries, sel, keys)
  {
    if entries != [] {
      var e, rest := entries[0], entries[1..];
      var m := Method(ReadName(e, keys), Lower(e.hex));
      TableCons(entries);
      if m.selector == sel {
        assert ReadAll(entries, keys)[0] == m;
      } else {
        UnmatchedSkip(Read(e, keys), ReadAll(rest, keys), sel);
        ReadsResolveAsTable(rest, sel, keys);
        TableNameOfRest(entries, sel, keys);
      }
    }
  }

  lemma TableNameOfRest(entries: seq<AbiEntry>, sel: string, keys: Keys)
    requires entries != [] && Lower(entries[0].hex) != sel
    ensures TableName(entries, sel, keys) == TableName(entries[1..], sel, keys)
  {
    TableCons(entries);
    assert Table(entries)[1..] == Table(entries[1..]);
  }

  /** A name that is read under its selector text is not the marker. */
  lemma ReadNameIsMarkerIff(e: AbiEntry)
    ensures ReadName(e, KEYS) == UNKNOWN_METHOD <==> e.name == UNKNOWN_METHOD
  {
    if e.name == KEYS.name {
      assert (KEYS.mark + e.hex)[0] == '0';
    }
  }

  lemma ResolvesByTable(entries: seq<AbiEntry>, sel: string)
    ensures TableName(entries, sel, KEYS) != UNKNOWN_METHOD
            <==> exists i: nat :: IsFirst(Table(entries), sel, i) && entries[i].name != UNKNOWN_METHOD
    ensures forall i: nat :: IsFirst(Table(entries), sel, i) ==>
              TableName(entries, sel, KEYS) == ReadName(entries[i], KEYS)
  {
    forall i: nat | IsFirst(Table(entries), sel, i)
      ensures FirstWith(Table(entries), sel) == Some(i)
      ensures ReadName(entries[i], KEYS) == UNKNOWN_METHOD <==> entries[i].name == UNKNOWN_METHOD
    {
      ReadNameIsMarkerIff(entries[i]);
    }
  }

  /**
   On every printed bundle: a transaction succeeds exactly when its selector is in
   the table and the first such method is not called like the marker.  The receipt
   reports the name under which that method is read, which is its own unless it is
   called "name".
   */
  lemma ExecutesTheTable(entries: seq<AbiEntry>, tail: string, to: string, data: string, id: nat)
    requires AllWellFormed(entries, KEYS) && KeyFree(tail, KEYS)
    ensures var r := ExecuteTx(Some(Print(entries, tail, KEYS)), to, data, id);
            && (r.status == 1 <==> exists i: nat :: IsFirst(Table(entries), Selector(data), i)
                                                    && entries[i].name != UNKNOWN_METHOD)
            && forall i: nat :: IsFirst(Table(entries), Selector(data), i) ==>
                 && r.methodName == ReadName(entries[i], KEYS)
                 && (r.methodName == entries[i].name <==> entries[i].name != KEYS.name)
  {
    var sel := Selector(data);
    PrintedBundleReads(entries, tail);
    ReadsResolveAsTable(entries, sel, KEYS);
    ResolvesByTable(entries, sel);
    LiteralsAreSane();
    forall i: nat | IsFirst(Table(entries), sel, i)
      ensures ReadName(entries[i], KEYS) == entries[i].name <==> entries[i].name != KEYS.name
    {
      assert WellFormed(entries[i], KEYS);
      ReadNameKept(entries[i], KEYS);
    }
  }

  lemma InTableIffFirst(methods: seq<Method>, sel: string)
    ensures (exists i :: 0 <= i < |methods| && methods[i].selector == sel)
            <==> exists i: nat :: IsFirst(methods, sel, i)
  {
    var r := FirstWith(methods, sel);
    if r.Some? {
      assert IsFirst(methods, sel, r.value);
    }
  }

  lemma TableSelectors(entries: seq<AbiEntry>, sel: string)
    ensures (exists i :: 0 <= i < |entries| && Lower(entries[i].hex) == sel)
            <==> exists i :: 0 <= i < |Table(entries)| && Table(entries)[i].selector == sel
  {
    var t := Table(entries);
    if i :| 0 <= i < |entries| && Lower(entries[i].hex) == sel {
      assert t[i].selector == sel;
    }
  }

  /** What calldata calls: its first eight characters. */
  function Called(rest: string): string {
    if |rest| <= 8 then rest else rest[..8]
  }

  /** The entry has the selector that the eight digits write. */
  predicate Calls(called: string, e: AbiEntry) {
    EightHexDigits(called) && EightHexDigits(e.hex) && Hex.Number(called) == Hex.Number(e.hex)
  }

  lemma CallsIffSameSelector(called: string, e: AbiEntry)
    requires EightHexDigits(e.hex)
    ensures Calls(called, e) <==> Lower(e.hex) == Lower(called)
  {
    if EightHexDigits(called) {
      LowerIffSameNumber(e.hex, called);
    } else if Lower(e.hex) == Lower(called) {
      forall i | 0 <= i < |called|
        ensures Hex.IsHexDigit(called[i])
      {
        assert Lower(e.hex)[i] == LowerChar(e.hex[i]) && Lower(called)[i] == LowerChar(called[i]);
        LowerDigit(e.hex[i], e.hex[i]);
      }
    }
  }

  /**
   With no method called like the marker, and the calldata being `rest` behind
   any number of "0x": status 1 exactly when its first eight characters are digits
   that write the number of some printed selector, in whatever case.
   */
  lemma SucceedsIffInTable(
    entries: seq<AbiEntry>, tail: string, to: string, marks: nat, rest: string, id: nat)
    requires AllWellFormed(entries, KEYS) && KeyFree(tail, KEYS) && !Hex.Marked(rest)
    requires forall i :: 0 <= i < |entries| ==> entries[i].name != UNKNOWN_METHOD
    ensures ExecuteTx(Some(Print(entries, tail, KEYS)), to, Hex.Marks(marks) + rest, id).status == 1
            <==> exists i :: 0 <= i < |entries| && Calls(Called(rest), entries[i])
  {
    var data := Hex.Marks(marks) + rest;
    Hex.MarksAreStripped(marks, rest);
    ExecutesTheTable(entries, tail, to, data, id);
    InTableIffFirst(Table(entries), Selector(data));
    TableSelectors(entries, Selector(data));
    forall i | 0 <= i < |entries|
      ensures Calls(Called(rest), entries[i]) <==> Lower(entries[i].hex) == Selector(data)
    {
      assert WellFormed(entries[i], KEYS);
      CallsIffSameSelector(Called(rest), entries[i]);
    }
  }

  /** The receipt tells what was called, in lower case, where, and under which id. */
  lemma ReceiptTellsTheCall(ca: Option<string>, to: string, marks: nat, rest: string, id: nat)
    requires !Hex.Marked(rest)
    ensures var r := ExecuteTx(ca, to, Hex.Marks(marks) + rest, id);
            r.id == id && r.to == to && r.selector == Lower(Called(rest))
  {
    Hex.MarksAreStripped(marks, rest);
  }

  /** Calling a printed method by its selector succeeds, whatever case, marks and arguments are. */
  lemma PrintedMethodIsCallable(
    entries: seq<AbiEntry>, tail: string, k: nat, marks: nat, to: string, hex: string, args: string, id: nat)
    requires AllWellFormed(entries, KEYS) && KeyFree(tail, KEYS)
    requires forall i :: 0 <= i < |entries| ==> entries[i].name != UNKNOWN_METHOD
    requires k < |entries| && EightHexDigits(hex) && EightHexDigits(entries[k].hex)
    requires Hex.Number(hex) == Hex.Number(entries[k].hex)
    ensures var data := Hex.Marks(marks) + (hex + args);
            ExecuteTx(Some(Print(entries, tail, KEYS)), to, data, id).status == 1
  {
    var rest := hex + args;
    assert rest[1] == hex[1] && Hex.IsHexDigit(hex[1]);
    assert Called(rest) == hex;
    SucceedsIffInTable(entries, tail, to, marks, rest, id);
    assert Calls(hex, entries[k]);
  }
}
