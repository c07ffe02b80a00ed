/**
 The persistent key space in key order, and the prefix scan that reads one
 contract's slots back from it.

 Keys are compared byte by byte; on UTF-8 text that is the order of the
 characters, so keys are strings here.
 */
module OrderedStore {
  import opened Words
  import Text
  import opened Wrappers

  type Key = string
  type Value = seq<Byte>
  type Entries = seq<(Key, Value)>

  /** Strict lexicographic order. */
  predicate Less(a: Key, b: Key) {
    b != "" && (a == "" || a[0] < b[0] || (a[0] == b[0] && Less(a[1..], b[1..])))
  }

  lemma {:induction false} LessTotal(a: Key, b: Key)
    ensures a == b || Less(a, b) || Less(b, a)
  {
    if a != "" && b != "" && a[0] == b[0] {
      LessTotal(a[1..], b[1..]);
      assert a == [a[0]] + a[1..] && b == [b[0]] + b[1..];
    }
  }

  lemma {:induction false} LessTransitive(a: Key, b: Key, c: Key)
    requires Less(a, b) && Less(b, c)
    ensures Less(a, c)
  {
    if a != "" && a[0] == b[0] == c[0] {
      LessTransitive(a[1..], b[1..], c[1..]);
    }
  }

  lemma {:induction false} LessIrreflexive(a: Key)
    ensures !Less(a, a)
  {
    if a != "" {
      LessIrreflexive(a[1..]);
    }
  }

  /** At `n` the keys first differ, and `a` ends there or has the smaller character. */
  predicate DiffersAt(a: Key, b: Key, n: nat) {
    n <= |a| && n < |b| && a[..n] == b[..n] && (n == |a| || a[n] < b[n])
  }

  lemma StartsAlike(a: Key, b: Key, n: nat)
    requires DiffersAt(a, b, n)
    ensures n > 0 ==> |a| > 0 && |b| > 0 && a[0] == b[0]
  {
    if n > 0 {
      assert a[..n][0] == b[..n][0];
    }
  }

  lemma DiffersLater(a: Key, b: Key, n: nat)
    requires a != "" && b != "" && a[0] == b[0]
    ensures DiffersAt(a, b, n + 1) <==> DiffersAt(a[1..], b[1..], n)
    ensures !DiffersAt(a, b, 0)
  {
    if n + 1 <= |a| && n + 1 < |b| {
      assert a[..n + 1] == [a[0]] + a[1..][..n] && b[..n + 1] == [b[0]] + b[1..][..n];
    }
  }

  /** The order of the keys: at the first difference the smaller character, or the end, comes first. */
  lemma {:induction false} LessByFirstDifference(a: Key, b: Key)
    ensures Less(a, b) <==> exists n: nat :: DiffersAt(a, b, n)
  {
    if a == "" || b == "" || a[0] != b[0] {
      assert DiffersAt(a, b, 0) <==> Less(a, b);
      if n: nat :| DiffersAt(a, b, n) {
        StartsAlike(a, b, n);
      }
    } else {
      LessByFirstDifference(a[1..], b[1..]);
      DiffersLater(a, b, 0);
      if n: nat :| DiffersAt(a[1..], b[1..], n) {
        DiffersLater(a, b, n);
      }
      if n: nat :| DiffersAt(a, b, n) {
        DiffersLater(a, b, n - 1);
      }
    }
  }

  lemma LessAsymmetric(a: Key, b: Key)
    requires Less(a, b)
    ensures !Less(b, a)
  {
    if Less(b, a) {
      LessTransitive(a, b, a);
      LessIrreflexive(a);
    }
  }

  /** No key with the prefix sorts before the prefix. */
  lemma {:induction false} PrefixIsFirst(p: Key, k: Key)
    requires p <= k
    ensures !Less(k, p)
  {
    if p != "" {
      assert p[1..] <= k[1..];
      PrefixIsFirst(p[1..], k[1..]);
    }
  }

  /** Past the prefix, once a key lacks it every later key does. */
  lemma {:induction false} PrefixesAreContiguous(p: Key, k: Key, later: Key)
    requires !Less(k, p) && !(p <= k) && Less(k, later)
    ensures !(p <= later)
  {
    if k != "" && p[0] == k[0] && later[0] == k[0] {
      assert !(p[1..] <= k[1..]) by {
        assert p == [p[0]] + p[1..] && k == [k[0]] + k[1..];
      }
      PrefixesAreContiguous(p[1..], k[1..], later[1..]);
    }
  }

  ghost predicate Sorted(e: Entries) {
    forall i, j :: 0 <= i < j < |e| ==> Less(e[i].0, e[j].0)
  }

  // ---------------------------------------------------------------------
  // The key space
  // ---------------------------------------------------------------------

  /** The number of keys before `k`: where the database's cursor goes for `k`. */
  function Seek(e: Entries, k: Key): (i: nat)
    ensures i <= |e|
  {
    if e == [] || !Less(e[0].0, k) then 0 else 1 + Seek(e[1..], k)
  }

  function Get(e: Entries, k: Key): Option<Value> {
    var i := Seek(e, k);
    if i < |e| && e[i].0 == k then Some(e[i].1) else None
  }

  function Put(e: Entries, k: Key, v: Value): Entries {
    var i := Seek(e, k);
    e[..i] + [(k, v)] + (if i < |e| && e[i].0 == k then e[i + 1..] else e[i..])
  }

  lemma {:induction false} SeekSplits(e: Entries, k: Key)
    requires Sorted(e)
    ensures forall i :: 0 <= i < Seek(e, k) ==> Less(e[i].0, k)
    ensures forall i :: Seek(e, k) <= i < |e| ==> !Less(e[i].0, k)
  {
    if e != [] {
      if Less(e[0].0, k) {
        SeekSplits(e[1..], k);
      } else {
        forall i | 0 <= i < |e|
          ensures !Less(e[i].0, k)
        {
          if i > 0 && Less(e[i].0, k) {
            LessTransitive(e[0].0, e[i].0, k);
          }
        }
      }
    }
  }

  /** The entries as a map. */
  function Contents(e: Entries): (m: map<Key, Value>) {
    if e == [] then map[]
    else Contents(e[..|e| - 1])[e[|e| - 1].0 := e[|e| - 1].1]
  }

  lemma {:induction false} ContentsKeys(e: Entries, k: Key)
    ensures k in Contents(e) <==> exists i :: 0 <= i < |e| && e[i].0 == k
  {
    if e != [] {
      var n := |e| - 1;
      ContentsKeys(e[..n], k);
      if k in Contents(e) && k != e[n].0 {
        var i :| 0 <= i < n && e[..n][i].0 == k;
        assert e[i].0 == k;
      }
      if i :| 0 <= i < |e| && e[i].0 == k {
        if i < n {
          assert e[..n][i].0 == k;
        }
      }
    }
  }

  lemma {:induction false} ContentsAppend(a: Entries, b: Entries)
    ensures Contents(a + b) == Contents(a) + Contents(b)
  {
    if b == [] {
      assert a + b == a;
    } else {
      var n := |b| - 1;
      assert (a + b)[..|a + b| - 1] == a + b[..n];
      ContentsAppend(a, b[..n]);
    }
  }

  lemma ContentsSingle(k: Key, v: Value)
    ensures Contents([(k, v)]) == map[k := v]
  {
    var e: Entries := [(k, v)];
    assert e[..0] == [];
  }

  /** One entry between two stretches, the later of which does not repeat its key. */
  lemma ContentsInsert(a: Entries, k: Key, v: Value, b: Entries)
    requires forall i :: 0 <= i < |b| ==> b[i].0 != k
    ensures Contents(a + [(k, v)] + b) == (Contents(a) + Contents(b))[k := v]
  {
    ContentsAppend(a + [(k, v)], b);
    ContentsAppend(a, [(k, v)]);
    ContentsSingle(k, v);
    ContentsKeys(b, k);
  }

  lemma SortedAfter(e: Entries, i: nat)
    requires Sorted(e) && i < |e|
    ensures var rest := e[i + 1..]; forall j :: 0 <= j < |rest| ==> rest[j].0 != e[i].0
    ensures e == e[..i] + [(e[i].0, e[i].1)] + e[i + 1..]
  {
    LessIrreflexive(e[i].0);
  }

  lemma ContentsLookup(e: Entries, i: nat)
    requires Sorted(e) && i < |e|
    ensures e[i].0 in Contents(e) && Contents(e)[e[i].0] == e[i].1
  {
    SortedAfter(e, i);
    ContentsInsert(e[..i], e[i].0, e[i].1, e[i + 1..]);
  }

  lemma PutKeepsSorted(e: Entries, k: Key, v: Value)
    requires Sorted(e)
    ensures Sorted(Put(e, k, v))
  {
    SeekSplits(e, k);
    var s := Seek(e, k);
    var hit := s < |e| && e[s].0 == k;
    var rest := if hit then e[s + 1..] else e[s..];
    forall i | 0 <= i < |rest|
      ensures Less(k, rest[i].0)
    {
      if !hit {
        LessTotal(k, rest[i].0);
        if i > 0 {
          LessTotal(k, e[s].0);
          LessTransitive(k, e[s].0, rest[i].0);
        }
      }
    }
    forall i, j | 0 <= i < s && 0 <= j < |rest|
      ensures Less(e[i].0, rest[j].0)
    {
      LessTransitive(e[i].0, k, rest[j].0);
    }
  }

  lemma ContentsReplace(a: Entries, k: Key, before: Value, v: Value, b: Entries)
    requires forall i :: 0 <= i < |b| ==> b[i].0 != k
    ensures Contents(a + [(k, v)] + b) == Contents(a + [(k, before)] + b)[k := v]
  {
    ContentsInsert(a, k, before, b);
    ContentsInsert(a, k, v, b);
    LastWriteStays(Contents(a) + Contents(b), k, before, v);
  }

  lemma LastWriteStays(m: map<Key, Value>, k: Key, before: Value, v: Value)
    ensures m[k := before][k := v] == m[k := v]
  {
  }

  lemma ContentsPlace(a: Entries, k: Key, v: Value, b: Entries)
    requires forall i :: 0 <= i < |b| ==> b[i].0 != k
    ensures Contents(a + [(k, v)] + b) == Contents(a + b)[k := v]
  {
    ContentsInsert(a, k, v, b);
    ContentsAppend(a, b);
  }

  lemma SeekMisses(e: Entries, k: Key)
    requires Sorted(e) && !(Seek(e, k) < |e| && e[Seek(e, k)].0 == k)
    ensures var rest := e[Seek(e, k)..]; forall j :: 0 <= j < |rest| ==> rest[j].0 != k
  {
    SeekSplits(e, k);
    var s := Seek(e, k);
    if s < |e| {
      LessTotal(e[s].0, k);
      forall j | s < j < |e|
        ensures e[j].0 != k
      {
        LessAsymmetric(k, e[s].0);
      }
    }
  }

  lemma SeekMissesKeys(e: Entries, k: Key)
    requires Sorted(e) && !(Seek(e, k) < |e| && e[Seek(e, k)].0 == k)
    ensures forall i :: 0 <= i < |e| ==> e[i].0 != k
  {
    SeekMisses(e, k);
    SeekSplits(e, k);
    LessIrreflexive(k);
    var rest := e[Seek(e, k)..];
    forall i | Seek(e, k) <= i < |e|
      ensures e[i].0 != k
    {
      assert e[i] == rest[i - Seek(e, k)];
    }
  }

  lemma PutReplaces(e: Entries, k: Key, v: Value, i: nat)
    requires Sorted(e) && i < |e| && e[i].0 == k
    ensures Contents(e[..i] + [(k, v)] + e[i + 1..]) == Contents(e)[k := v]
  {
    SortedAfter(e, i);
    ContentsReplace(e[..i], k, e[i].1, v, e[i + 1..]);
  }

  lemma PutPlaces(e: Entries, k: Key, v: Value, i: nat)
    requires i <= |e| && forall j :: 0 <= j < |e[i..]| ==> e[i..][j].0 != k
    ensures Contents(e[..i] + [(k, v)] + e[i..]) == Contents(e)[k := v]
  {
    assert e == e[..i] + e[i..];
    ContentsPlace(e[..i], k, v, e[i..]);
  }

  /** A write is a map update, and a read is a map look-up. */
  lemma PutIsUpdate(e: Entries, k: Key, v: Value)
    requires Sorted(e)
    ensures Contents(Put(e, k, v)) == Contents(e)[k := v]
  {
    var i := Seek(e, k);
    if i < |e| && e[i].0 == k {
      PutReplaces(e, k, v, i);
    } else {
      SeekMisses(e, k);
      PutPlaces(e, k, v, i);
    }
  }

  lemma GetIsLookup(e: Entries, k: Key)
    requires Sorted(e)
    ensures Get(e, k) == if k in Contents(e) then Some(Contents(e)[k]) else None
  {
    var s := Seek(e, k);
    if s < |e| && e[s].0 == k {
      ContentsLookup(e, s);
    } else {
      SeekMissesKeys(e, k);
      ContentsKeys(e, k);
    }
  }

  // ---------------------------------------------------------------------
  // The prefix scan
  // ---------------------------------------------------------------------

  /** All entries whose key has the prefix, in key order. */
  function Matching(e: Entries, p: Key): Entries {
    if e == [] then []
    else
      var last := e[|e| - 1];
      Matching(e[..|e| - 1], p) + (if p <= last.0 then [last] else [])
  }

  lemma {:induction false} MatchingNone(e: Entries, p: Key)
    requires forall i :: 0 <= i < |e| ==> !(p <= e[i].0)
    ensures Matching(e, p) == []
  {
    if e != [] {
      MatchingNone(e[..|e| - 1], p);
    }
  }

  lemma {:induction false} MatchingAll(e: Entries, p: Key)
    requires forall i :: 0 <= i < |e| ==> p <= e[i].0
    ensures Matching(e, p) == e
  {
    if e != [] {
      MatchingAll(e[..|e| - 1], p);
    }
  }

  lemma {:induction false} MatchingAppend(a: Entries, b: Entries, p: Key)
    ensures Matching(a + b, p) == Matching(a, p) + Matching(b, p)
  {
    if b == [] {
      assert a + b == a;
    } else {
      assert (a + b)[..|a + b| - 1] == a + b[..|b| - 1];
      MatchingAppend(a, b[..|b| - 1], p);
    }
  }

  lemma BeforeSeekNoPrefix(e: Entries, p: Key)
    requires Sorted(e)
    ensures forall i :: 0 <= i < Seek(e, p) ==> !(p <= e[i].0)
  {
    SeekSplits(e, p);
    forall i | 0 <= i < Seek(e, p)
      ensures !(p <= e[i].0)
    {
      if p <= e[i].0 {
        PrefixIsFirst(p, e[i].0);
      }
    }
  }

  lemma AfterFirstMissNoPrefix(e: Entries, p: Key, hi: nat)
    requires Sorted(e) && Seek(e, p) <= hi <= |e|
    requires hi < |e| ==> !(p <= e[hi].0)
    ensures forall i :: hi <= i < |e| ==> !(p <= e[i].0)
  {
    SeekSplits(e, p);
    forall i | hi < i < |e|
      ensures !(p <= e[i].0)
    {
      PrefixesAreContiguous(p, e[hi].0, e[i].0);
    }
  }

  lemma MatchingOfThree(a: Entries, b: Entries, c: Entries, p: Key)
    requires forall i :: 0 <= i < |a| ==> !(p <= a[i].0)
    requires forall i :: 0 <= i < |b| ==> p <= b[i].0
    requires forall i :: 0 <= i < |c| ==> !(p <= c[i].0)
    ensures Matching(a + b + c, p) == b
  {
    MatchingNone(a, p);
    MatchingAll(b, p);
    MatchingNone(c, p);
    MatchingAppend(a + b, c, p);
    MatchingAppend(a, b, p);
  }

  lemma MatchingMiddle(e: Entries, p: Key, lo: nat, hi: nat)
    requires lo <= hi <= |e|
    requires forall i :: 0 <= i < lo ==> !(p <= e[i].0)
    requires forall i :: lo <= i < hi ==> p <= e[i].0
    requires forall i :: hi <= i < |e| ==> !(p <= e[i].0)
    ensures e[lo..hi] == Matching(e, p)
  {
    var a, b, c := e[..lo], e[lo..hi], e[hi..];
    assert e == a + b + c;
    MatchingOfThree(a, b, c, p);
  }

  /** The stretch of a sorted key space a prefix scan walks over is all that matches. */
  lemma ScannedIsMatching(e: Entries, p: Key, lo: nat, hi: nat)
    requires Sorted(e) && lo == Seek(e, p) <= hi <= |e|
    requires forall i :: lo <= i < hi ==> p <= e[i].0
    requires hi < |e| ==> !(p <= e[hi].0)
    ensures e[lo..hi] == Matching(e, p)
  {
    BeforeSeekNoPrefix(e, p);
    AfterFirstMissNoPrefix(e, p, hi);
    MatchingMiddle(e, p, lo, hi);
  }

  class RocksDb {
    var entries: Entries

    constructor ()
      ensures entries == [] && Sorted(entries)
    {
      entries := [];
    }

    method Read(key: Key) returns (r: Option<Value>)
      requires Sorted(entries)
      ensures r == if key in Contents(entries) then Some(Contents(entries)[key]) else None
    {
      GetIsLookup(entries, key);
      r := Get(entries, key);
    }

    method Write(key: Key, value: Value)
      requires Sorted(entries)
      modifies this
      ensures Sorted(entries)
      ensures Contents(entries) == old(Contents(entries))[key := value]
      ensures entries == Put(old(entries), key, value)
    {
      PutKeepsSorted(entries, key, value);
      PutIsUpdate(entries, key, value);
      entries := Put(entries, key, value);
    }

    /** Walks forward from the prefix and stops at the first key without it. */
    method ScanPrefix(prefix: Key) returns (results: Entries)
      requires Sorted(entries)
      ensures results == Matching(entries, prefix)
    {
      results := [];
      var start := Seek(entries, prefix);
      var i := start;
      while i < |entries|
        invariant start <= i <= |entries|
        invariant results == entries[start..i]
        invariant forall j :: start <= j < i ==> prefix <= entries[j].0
      {
        if !(prefix <= entries[i].0) {
          break;
        }
        results := results + [entries[i]];
        i := i + 1;
      }
      ScannedIsMatching(entries, prefix, start, i);
    }
  }

  function Restrict(m: map<Key, Value>, p: Key): map<Key, Value> {
    map k | k in m && p <= k :: m[k]
  }

  lemma RestrictUpdate(m: map<Key, Value>, p: Key, k: Key, v: Value)
    ensures Restrict(m[k := v], p) == if p <= k then Restrict(m, p)[k := v] else Restrict(m, p)
  {
  }

  lemma {:induction false} MatchingContents(e: Entries, p: Key)
    ensures Contents(Matching(e, p)) == Restrict(Contents(e), p)
  {
    if e != [] {
      var n := |e| - 1;
      MatchingContents(e[..n], p);
      RestrictUpdate(Contents(e[..n]), p, e[n].0, e[n].1);
      var m := Matching(e[..n], p);
      if p <= e[n].0 {
        assert Matching(e, p)[..|m|] == m;
      } else {
        assert Matching(e, p) == m;
      }
    }
  }

  lemma {:induction false} MatchingSorted(e: Entries, p: Key)
    requires Sorted(e)
    ensures Sorted(Matching(e, p))
    ensures forall i :: 0 <= i < |Matching(e, p)| ==> Matching(e, p)[i] in e
  {
    if e != [] {
      var n := |e| - 1;
      MatchingSorted(e[..n], p);
      var m := Matching(e[..n], p);
      forall i | 0 <= i < |m|
        ensures m[i] in e && Less(m[i].0, e[n].0)
      {
        assert m[i] in e[..n];
      }
    }
  }

  /**
   The scan is exact: its keys are those of the store that have the prefix,
   each with its value, in order.
   */
  lemma ScanIsExact(e: Entries, p: Key)
    requires Sorted(e)
    ensures Contents(Matching(e, p)) == Restrict(Contents(e), p)
    ensures Sorted(Matching(e, p))
  {
    MatchingContents(e, p);
    MatchingSorted(e, p);
  }

  // ---------------------------------------------------------------------
  // Reloading one contract
  // ---------------------------------------------------------------------

  function Prefix(contract: string): (p: Key)
    ensures p != ""
  {
    "storage:" + contract + ":"
  }

  function SlotKey(contract: string, slot: string): Key {
    Prefix(contract) + slot
  }

  /** Strips the prefix from the front as often as it is there. */
  function TrimStartMatches(s: string, p: string): string
    requires p != ""
  {
    if p <= s then TrimStartMatches(s[|p|..], p) else s
  }

  /** The slot map built from scanned entries, later ones overriding. */
  function Load(scanned: Entries, p: Key): map<string, Value>
    requires p != ""
  {
    if scanned == [] then map[]
    else
      var (k, v) := scanned[|scanned| - 1];
      Load(scanned[..|scanned| - 1], p)[TrimStartMatches(k, p) := v]
  }

  method ReloadContract(db: RocksDb, contract: string) returns (slots: map<string, Value>)
    requires Sorted(db.entries)
    ensures slots == Load(Matching(db.entries, Prefix(contract)), Prefix(contract))
  {
    var prefix := Prefix(contract);
    var scanned := db.ScanPrefix(prefix);
    ScanIsExact(db.entries, prefix);
    MatchingHavePrefix(db.entries, prefix);
    slots := map[];
    for i := 0 to |scanned|
      invariant slots == Load(scanned[..i], prefix)
    {
      assert scanned[..i + 1][..i] == scanned[..i];
      var (key, value) := scanned[i];
      if prefix <= key {
        slots := slots[TrimStartMatches(key, prefix) := value];
      }
    }
    assert scanned[..|scanned|] == scanned;
  }

  lemma {:induction false} MatchingHavePrefix(e: Entries, p: Key)
    ensures forall i :: 0 <= i < |Matching(e, p)| ==> p <= Matching(e, p)[i].0
  {
    if e != [] {
      MatchingHavePrefix(e[..|e| - 1], p);
    }
  }

  /** The slots a key space holds for a contract. */
  function SlotsOf(m: map<Key, Value>, contract: string): map<string, Value> {
    var p := Prefix(contract);
    map s | s in (set k | k in m && p <= k :: k[|p|..]) && p + s in m :: m[p + s]
  }

  /** No key of the contract would be stripped twice. */
  predicate KeysClean(m: map<Key, Value>, contract: string) {
    forall k :: k in m && Prefix(contract) <= k ==> !(Prefix(contract) <= k[|Prefix(contract)|..])
  }

  lemma {:induction false} LoadIsSlots(e: Entries, contract: string)
    requires forall i :: 0 <= i < |e| ==> Prefix(contract) <= e[i].0
    requires KeysClean(Contents(e), contract)
    ensures Load(e, Prefix(contract)) == SlotsOf(Contents(e), contract)
  {
    var p := Prefix(contract);
    if e != [] {
      var n := |e| - 1;
      var (k, v) := e[n];
      var m, m' := Contents(e[..n]), Contents(e);
      var s := k[|p|..];
      assert k == p + s;
      forall i | 0 <= i < n
        ensures e[i].0 in m'
      {
        ContentsKeys(e, e[i].0);
      }
      forall k' | k' in m
        ensures p <= k' && !(p <= k'[|p|..])
      {
        ContentsKeys(e[..n], k');
      }
      LoadIsSlots(e[..n], contract);
      assert m' == m[k := v];
      assert k in m';
      assert TrimStartMatches(k, p) == s;
      SlotsUpdate(m, contract, s, v);
    }
  }

  lemma SlotsUpdate(m: map<Key, Value>, contract: string, slot: string, v: Value)
    ensures SlotsOf(m[SlotKey(contract, slot) := v], contract) == SlotsOf(m, contract)[slot := v]
  {
    var p := Prefix(contract);
    var k := SlotKey(contract, slot);
    var a, b := SlotsOf(m[k := v], contract), SlotsOf(m, contract)[slot := v];
    assert k[|p|..] == slot;
    forall s | s in a
      ensures s in b && a[s] == b[s]
    {
      var k' :| k' in m[k := v] && p <= k' && s == k'[|p|..];
      assert k' == p + s;
    }
    forall s | s in b
      ensures s in a
    {
      if s != slot {
        var k' :| k' in m && p <= k' && s == k'[|p|..];
        assert k' in m[k := v];
      }
    }
  }

  lemma SlotsKept(m: map<Key, Value>, contract: string, k: Key, v: Value)
    requires !(Prefix(contract) <= k)
    ensures SlotsOf(m[k := v], contract) == SlotsOf(m, contract)
  {
  }

  // ---------------------------------------------------------------------
  // Reload after commits
  // ---------------------------------------------------------------------

  datatype Commit = Commit(contract: string, slot: string, value: Value)

  const VERSION_ONE: Value := [0, 0, 0, 0, 0, 0, 0, 1]

  function VersionKey(contract: string): Key {
    "version:" + contract
  }

  function CommitSlot(e: Entries, c: Commit): Entries {
    Put(Put(e, SlotKey(c.contract, c.slot), c.value), VersionKey(c.contract), VERSION_ONE)
  }

  function CommitAll(commits: seq<Commit>): Entries {
    if commits == [] then []
    else CommitSlot(CommitAll(commits[..|commits| - 1]), commits[|commits| - 1])
  }

  /** What a contract's slots ought to be: the last value committed to each. */
  function Latest(commits: seq<Commit>, contract: string): map<string, Value> {
    if commits == [] then map[]
    else
      var c := commits[|commits| - 1];
      var before := Latest(commits[..|commits| - 1], contract);
      if c.contract == contract then before[c.slot := c.value] else before
  }

  function Reloaded(e: Entries, contract: string): map<string, Value> {
    Load(Matching(e, Prefix(contract)), Prefix(contract))
  }

  /**
   The commit cannot be mistaken when `contract` is reloaded: another contract's
   key does not fall under its prefix, and its own slot is not stripped again.
   */
  predicate Unmistakable(contract: string, c: Commit) {
    var p := "storage:" + contract + ":";
    if c.contract == contract then !(p <= c.slot) else !(p <= "storage:" + c.contract + ":" + c.slot)
  }

  lemma VersionKeyIsApart(contract: string, other: string)
    ensures !(Prefix(contract) <= VersionKey(other))
  {
    assert Prefix(contract)[0] == 's';
    assert VersionKey(other)[0] == 'v';
  }

  /** A commit is two map updates. */
  lemma CommitContents(e: Entries, c: Commit)
    requires Sorted(e)
    ensures Sorted(CommitSlot(e, c))
    ensures Contents(CommitSlot(e, c))
            == Contents(e)[SlotKey(c.contract, c.slot) := c.value][VersionKey(c.contract) := VERSION_ONE]
  {
    var k := SlotKey(c.contract, c.slot);
    var e1 := Put(e, k, c.value);
    PutKeepsSorted(e, k, c.value);
    PutIsUpdate(e, k, c.value);
    PutKeepsSorted(e1, VersionKey(c.contract), VERSION_ONE);
    PutIsUpdate(e1, VersionKey(c.contract), VERSION_ONE);
  }

  /** What a commit leaves in the key space: the slot, and version 1 in eight bytes for the contract. */
  lemma CommitLeaves(e: Entries, c: Commit)
    requires Sorted(e)
    ensures var m := Contents(CommitSlot(e, c));
            && ("storage:" + c.contract + ":" + c.slot) in m && m["storage:" + c.contract + ":" + c.slot] == c.value
            && ("version:" + c.contract) in m && m["version:" + c.contract] == [0, 0, 0, 0, 0, 0, 0, 1]
  {
    CommitContents(e, c);
    VersionKeyIsApart(c.contract, c.contract);
    assert Prefix(c.contract) <= SlotKey(c.contract, c.slot);
  }

  lemma SlotUpdates(m: map<Key, Value>, contract: string, c: Commit)
    requires KeysClean(m, contract) && Unmistakable(contract, c)
    ensures var m' := m[SlotKey(c.contract, c.slot) := c.value];
            && KeysClean(m', contract)
            && SlotsOf(m', contract)
               == if c.contract == contract then SlotsOf(m, contract)[c.slot := c.value] else SlotsOf(m, contract)
  {
    var k := SlotKey(c.contract, c.slot);
    if c.contract == contract {
      SlotsUpdate(m, contract, c.slot, c.value);
      assert k[|Prefix(contract)|..] == c.slot;
    } else {
      SlotsKept(m, contract, k, c.value);
    }
  }

  lemma VersionUpdates(m: map<Key, Value>, contract: string, other: string, v: Value)
    requires KeysClean(m, contract)
    ensures KeysClean(m[VersionKey(other) := v], contract)
    ensures SlotsOf(m[VersionKey(other) := v], contract) == SlotsOf(m, contract)
  {
    VersionKeyIsApart(contract, other);
    SlotsKept(m, contract, VersionKey(other), v);
  }

  lemma CommitUpdates(e: Entries, contract: string, c: Commit)
    requires Sorted(e) && KeysClean(Contents(e), contract) && Unmistakable(contract, c)
    ensures Sorted(CommitSlot(e, c)) && KeysClean(Contents(CommitSlot(e, c)), contract)
    ensures SlotsOf(Contents(CommitSlot(e, c)), contract)
            == if c.contract == contract then SlotsOf(Contents(e), contract)[c.slot := c.value]
               else SlotsOf(Contents(e), contract)
  {
    CommitContents(e, c);
    SlotUpdates(Contents(e), contract, c);
    VersionUpdates(Contents(e)[SlotKey(c.contract, c.slot) := c.value], contract, c.contract, VERSION_ONE);
  }

  lemma {:induction false} SlotsAreLatest(commits: seq<Commit>, contract: string)
    requires forall i :: 0 <= i < |commits| ==> Unmistakable(contract, commits[i])
    ensures Sorted(CommitAll(commits)) && KeysClean(Contents(CommitAll(commits)), contract)
    ensures SlotsOf(Contents(CommitAll(commits)), contract) == Latest(commits, contract)
  {
    if commits != [] {
      var n := |commits| - 1;
      SlotsAreLatest(commits[..n], contract);
      CommitUpdates(CommitAll(commits[..n]), contract, commits[n]);
    }
  }

  lemma SlotsOfRestrict(m: map<Key, Value>, contract: string)
    ensures SlotsOf(Restrict(m, Prefix(contract)), contract) == SlotsOf(m, contract)
  {
    var p := Prefix(contract);
    var r := Restrict(m, p);
    assert (set k | k in r && p <= k :: k[|p|..]) == (set k | k in m && p <= k :: k[|p|..]);
    assert forall s :: p + s in r <==> p + s in m;
  }

  lemma ReloadIsSlots(e: Entries, contract: string)
    requires Sorted(e) && KeysClean(Contents(e), contract)
    ensures Reloaded(e, contract) == SlotsOf(Contents(e), contract)
  {
    var p := Prefix(contract);
    ScanIsExact(e, p);
    MatchingHavePrefix(e, p);
    LoadIsSlots(Matching(e, p), contract);
    SlotsOfRestrict(Contents(e), contract);
  }

  /**
   After any sequence of commits, none of which can be mistaken for a slot of
   the contract, a reload is exactly the contract's latest slot map.
   */
  lemma ReloadIsLatest(commits: seq<Commit>, contract: string)
    requires forall i :: 0 <= i < |commits| ==> Unmistakable(contract, commits[i])
    ensures Reloaded(CommitAll(commits), contract) == Latest(commits, contract)
  {
    SlotsAreLatest(commits, contract);
    ReloadIsSlots(CommitAll(commits), contract);
  }

  predicate ColonFree(s: string) {
    Text.Free(s, ':')
  }

  lemma PrefixNamesContract(contract: string, other: string, slot: string)
    requires ColonFree(contract) && ColonFree(other)
    requires Prefix(contract) <= SlotKey(other, slot)
    ensures contract == other
  {
    var k := SlotKey(other, slot);
    var rest := k[|Prefix(contract)|..];
    assert k == Prefix(contract) + rest;
    assert k[8..] == contract + [':'] + rest;
    assert k[8..] == other + [':'] + slot;
    Text.FieldsAgree(contract, other, ':', rest, slot);
  }

  /** Addresses and slots without ':' are never mistaken. */
  lemma ColonFreeIsUnmistakable(contract: string, c: Commit)
    requires ColonFree(contract) && ColonFree(c.contract) && ColonFree(c.slot)
    ensures Unmistakable(contract, c)
  {
    assert Prefix(contract)[7] == ':';
    if c.contract != contract && Prefix(contract) <= SlotKey(c.contract, c.slot) {
      PrefixNamesContract(contract, c.contract, c.slot);
    }
  }

  /** For one commit the condition is exact, whatever the value. */
  lemma OneCommitReloadsIffUnmistakable(contract: string, c: Commit)
    ensures Reloaded(CommitAll([c]), contract) == Latest([c], contract) <==> Unmistakable(contract, c)
  {
    assert [c][..0] == [];
    if Unmistakable(contract, c) {
      ReloadIsLatest([c], contract);
    } else {
      var p := Prefix(contract);
      var k := SlotKey(c.contract, c.slot);
      var e := CommitAll([c]);
      assert p <= k;
      assert CommitAll([]) == [];
      PutKeepsSorted([], k, c.value);
      PutIsUpdate([], k, c.value);
      var e1 := Put([], k, c.value);
      PutKeepsSorted(e1, VersionKey(c.contract), VERSION_ONE);
      PutIsUpdate(e1, VersionKey(c.contract), VERSION_ONE);
      VersionKeyIsApart(contract, c.contract);
      assert Contents([]) == map[];
      assert Contents(e) == map[k := c.value, VersionKey(c.contract) := VERSION_ONE];
      ScanIsExact(e, p);
      var r := Matching(e, p);
      ContentsKeys(r, k);
      MatchingHavePrefix(e, p);
      var slot := TrimStartMatches(k, p);
      LoadKeys(r, p, k);
      if c.contract == contract {
        assert k[|p|..] == c.slot;
        TrimShortens(c.slot, p);
        assert slot != c.slot;
        assert Latest([c], contract).Keys == {c.slot};
      } else {
        assert Latest([c], contract) == map[];
      }
    }
  }

  lemma {:induction false} TrimShortens(s: string, p: string)
    requires p != ""
    ensures |TrimStartMatches(s, p)| <= |s|
    ensures p <= s ==> |TrimStartMatches(s, p)| < |s|
  {
    if p <= s {
      TrimShortens(s[|p|..], p);
    }
  }

  lemma {:induction false} LoadKeys(e: Entries, p: Key, k: Key)
    requires p != "" && k in Contents(e)
    ensures TrimStartMatches(k, p) in Load(e, p)
  {
    var n := |e| - 1;
    if e[n].0 != k {
      LoadKeys(e[..n], p, k);
    }
  }
}
