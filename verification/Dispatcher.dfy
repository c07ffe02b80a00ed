/**
 What the scanners find in a dispatcher laid out the way a compiler does:
 DUP1 PUSH4 selector EQ PUSH2 target JUMPI for each function, then the body.
 */
module Dispatcher {
  import opened Words
  import opened EvmBytecode
  import opened SlurachainVm
  import opened Wrappers

  datatype Entry = Entry(selector: U32, target: nat)

  /** The eleven bytes of one function: DUP1 PUSH4 selector EQ PUSH2 target JUMPI. */
  function Assemble(e: Entry): (c: Code)
    ensures |c| == 11
  {
    [0x80, 0x63] + ToBe(e.selector, 4) + [0x14, 0x61] + ToBe(e.target, 2) + [0x57]
  }

  function AssembleAll(table: seq<Entry>): (c: Code)
    ensures |c| == 11 * |table|
  {
    if table == [] then [] else Assemble(table[0]) + AssembleAll(table[1..])
  }

  predicate DispatcherOpcode(b: Byte) {
    b == DUP1 || b == PUSH4 || b == EQ || b == PUSH2 || b == JUMPI
  }

  predicate CleanSelector(selector: U32) {
    forall i :: 0 <= i < 4 ==> !DispatcherOpcode(ToBe(selector, 4)[i])
  }

  /** No immediate byte of the entry looks like an opcode of the pattern. */
  predicate Clean(e: Entry) {
    && e.target < 65536
    && CleanSelector(e.selector)
    && (forall i :: 0 <= i < 2 ==> !DispatcherOpcode(ToBe(e.target, 2)[i]))
  }

  predicate CleanTable(table: seq<Entry>) {
    forall k :: 0 <= k < |table| ==> Clean(table[k])
  }

  predicate CleanBody(body: Code) {
    forall i :: 0 <= i < |body| ==> body[i] != PUSH4
  }

  /** The entry lies at `at`, part by part. */
  predicate Holds(code: Code, at: nat, e: Entry) {
    && at + 11 <= |code|
    && code[at] == DUP1 && code[at + 1] == PUSH4
    && code[at + 2..at + 6] == ToBe(e.selector, 4)
    && code[at + 6] == EQ && code[at + 7] == PUSH2
    && code[at + 8..at + 10] == ToBe(e.target, 2)
    && code[at + 10] == JUMPI
  }

  predicate Laid(code: Code, table: seq<Entry>) {
    && 11 * |table| <= |code|
    && forall k :: 0 <= k < |table| ==> Holds(code, 11 * k, table[k])
  }

  predicate CleanFrom(code: Code, at: nat) {
    forall i :: at <= i < |code| ==> code[i] != PUSH4
  }

  lemma SliceOfSlice(code: Code, a: nat, b: nat, i: nat, j: nat)
    requires a <= b <= |code| && i <= j <= b - a
    ensures code[a..b][i..j] == code[a + i..a + j]
  {
    var s, t := code[a..b][i..j], code[a + i..a + j];
    assert |s| == |t|;
    forall k | 0 <= k < |s|
      ensures s[k] == t[k]
    {
      assert s[k] == code[a..b][i + k] == code[a + i + k];
    }
  }

  lemma AssembledParts(e: Entry)
    ensures Holds(Assemble(e), 0, e)
  {
    var c := Assemble(e);
    assert c[2..6] == ToBe(e.selector, 4);
    assert c[8..10] == ToBe(e.target, 2);
  }

  lemma HoldsElsewhere(e: Entry, code: Code, at: nat)
    requires at + 11 <= |code| && code[at..at + 11] == Assemble(e)
    ensures Holds(code, at, e)
  {
    AssembledParts(e);
    var c := code[at..at + 11];
    SliceOfSlice(code, at, at + 11, 2, 6);
    SliceOfSlice(code, at, at + 11, 8, 10);
    assert c[0] == code[at] && c[1] == code[at + 1] && c[6] == code[at + 6]
        && c[7] == code[at + 7] && c[10] == code[at + 10];
  }

  lemma {:induction false} EntryAt(table: seq<Entry>, body: Code, k: nat)
    requires k < |table|
    ensures 11 * k + 11 <= |AssembleAll(table) + body|
    ensures (AssembleAll(table) + body)[11 * k..11 * k + 11] == Assemble(table[k])
  {
    if k > 0 {
      EntryAt(table[1..], body, k - 1);
      var rest := AssembleAll(table[1..]) + body;
      assert AssembleAll(table) + body == Assemble(table[0]) + rest;
      assert (AssembleAll(table) + body)[11 * k..11 * k + 11] == rest[11 * (k - 1)..11 * (k - 1) + 11];
    }
  }

  lemma AssembledIsLaid(table: seq<Entry>, body: Code)
    ensures Laid(AssembleAll(table) + body, table)
    ensures CleanBody(body) ==> CleanFrom(AssembleAll(table) + body, 11 * |table|)
  {
    var code := AssembleAll(table) + body;
    forall k | 0 <= k < |table|
      ensures Holds(code, 11 * k, table[k])
    {
      EntryAt(table, body, k);
      HoldsElsewhere(table[k], code, 11 * k);
    }
    forall i | 11 * |table| <= i < |code|
      ensures code[i] == body[i - 11 * |table|]
    {
    }
  }

  lemma Be32Reads(code: Code, i: nat, selector: U32)
    requires i + 4 <= |code| && code[i..i + 4] == ToBe(selector, 4)
    ensures Be32(code, i) == selector
  {
    var s := ToBe(selector, 4);
    assert ToBe(selector, 4) == ToBe(selector / 256, 3) + [selector % 256];
    assert ToBe(selector / 256, 3) == ToBe(selector / 256 / 256, 2) + [selector / 256 % 256];
    assert ToBe(selector / 256 / 256, 2) == ToBe(selector / 256 / 256 / 256, 1) + [selector / 256 / 256 % 256];
    assert ToBe(selector / 256 / 256 / 256, 1) == [] + [selector / 256 / 256 / 256 % 256];
    assert code[i] == s[0] && code[i + 1] == s[1] && code[i + 2] == s[2] && code[i + 3] == s[3];
  }

  lemma Be16Reads(code: Code, i: nat, target: nat)
    requires i + 2 <= |code| && target < 65536 && code[i..i + 2] == ToBe(target, 2)
    ensures Be16(code, i) == target
  {
    var s := ToBe(target, 2);
    assert ToBe(target, 2) == ToBe(target / 256, 1) + [target % 256];
    assert ToBe(target / 256, 1) == [] + [target / 256 % 256];
    assert code[i] == s[0] && code[i + 1] == s[1];
  }

  // ---------------------------------------------------------------------
  // Direct search
  // ---------------------------------------------------------------------

  /** The target of the first entry for the selector. */
  function FirstTarget(table: seq<Entry>, selector: U32): (r: Option<nat>) {
    if table == [] then None
    else if table[0].selector == selector then Some(table[0].target)
    else FirstTarget(table[1..], selector)
  }

  /** Inside the table a selector only reads where the assembler put it. */
  lemma NoStraySelector(code: Code, e: Entry, selector: U32, at: nat, r: nat)
    requires Holds(code, at, e) && r < 11 && at + r + 4 <= |code|
    requires CleanSelector(selector)
    ensures SelectorAt(code, selector, at + r) ==> r == 2 && e.selector == selector
  {
    var s := code[at + r..at + r + 4];
    if r == 2 {
      if e.selector != selector {
        SelectorBytesDiffer(e.selector, selector);
      }
    } else {
      var o := if r == 0 then 0 else if r == 1 then 1 else if r <= 6 then 6
               else if r == 7 then 7 else 10;
      assert s[o - r] == code[at + o];
      assert DispatcherOpcode(s[o - r]);
    }
  }

  lemma EqPatternHits(code: Code, e: Entry, at: nat)
    requires Holds(code, at, e) && e.target < 65536 && 0 < e.target < |code|
    ensures SearchAt(code, e.selector, at + 2) == Some(e.target)
  {
    Be16Reads(code, at + 8, e.target);
  }

  lemma {:induction false} SearchSkips(code: Code, selector: U32, lo: nat, hi: nat)
    requires lo <= hi
    requires forall pos :: lo <= pos < hi && pos + 4 <= |code| ==> !SelectorAt(code, selector, pos)
    ensures hi + 4 <= |code| ==> SearchFrom(code, selector, lo) == SearchFrom(code, selector, hi)
    decreases hi - lo
  {
    if lo < hi && hi + 4 <= |code| {
      SearchSkips(code, selector, lo + 1, hi);
    }
  }

  lemma {:induction false} FirstIndex(table: seq<Entry>, selector: U32) returns (k: nat)
    requires FirstTarget(table, selector).Some?
    ensures k < |table| && table[k].selector == selector
    ensures table[k].target == FirstTarget(table, selector).value
    ensures forall m :: 0 <= m < k ==> table[m].selector != selector
  {
    if table[0].selector == selector {
      k := 0;
    } else {
      var k' := FirstIndex(table[1..], selector);
      k := k' + 1;
      assert forall m :: 1 <= m < k ==> table[m] == table[1..][m - 1];
    }
  }

  lemma NoStraySelectorBefore(code: Code, table: seq<Entry>, k: nat, pos: nat)
    requires Laid(code, table) && CleanTable(table) && k < |table|
    requires forall m :: 0 <= m < k ==> table[m].selector != table[k].selector
    requires pos < 11 * k + 2 && pos + 4 <= |code|
    ensures !SelectorAt(code, table[k].selector, pos)
  {
    var m, r := pos / 11, pos % 11;
    assert Holds(code, 11 * m, table[m]) && Clean(table[k]);
    NoStraySelector(code, table[m], table[k].selector, 11 * m, r);
  }

  lemma SearchReachesEntry(code: Code, table: seq<Entry>, k: nat)
    requires Laid(code, table) && CleanTable(table) && k < |table|
    requires forall m :: 0 <= m < k ==> table[m].selector != table[k].selector
    ensures SearchFrom(code, table[k].selector, 0) == SearchFrom(code, table[k].selector, 11 * k + 2)
  {
    forall pos | 0 <= pos < 11 * k + 2 && pos + 4 <= |code|
      ensures !SelectorAt(code, table[k].selector, pos)
    {
      NoStraySelectorBefore(code, table, k, pos);
    }
    assert Holds(code, 11 * k, table[k]);
    SearchSkips(code, table[k].selector, 0, 11 * k + 2);
  }

  lemma SearchHits(code: Code, e: Entry, at: nat)
    requires Holds(code, at, e) && e.target < 65536 && 0 < e.target < |code|
    ensures SearchFrom(code, e.selector, at + 2) == Some(e.target)
  {
    EqPatternHits(code, e, at);
    assert SelectorAt(code, e.selector, at + 2);
  }

  lemma SearchFindsEntry(code: Code, table: seq<Entry>, k: nat)
    requires Laid(code, table) && CleanTable(table) && k < |table|
    requires forall m :: 0 <= m < k ==> table[m].selector != table[k].selector
    requires 0 < table[k].target < |code|
    ensures SearchFrom(code, table[k].selector, 0) == Some(table[k].target)
  {
    SearchReachesEntry(code, table, k);
    assert Holds(code, 11 * k, table[k]) && Clean(table[k]);
    SearchHits(code, table[k], 11 * k);
  }

  /**
   The direct search finds, for every selector of the table except zero, the
   target of its first entry, if that lies in the code; for selector zero it
   answers 0.
   */
  lemma DirectSearchFindsFirst(table: seq<Entry>, body: Code, selector: U32)
    requires CleanTable(table) && FirstTarget(table, selector).Some?
    requires selector != 0 ==> 0 < FirstTarget(table, selector).value < |AssembleAll(table) + body|
    ensures FunctionOffset(AssembleAll(table) + body, selector)
            == if selector == 0 then Some(0) else FirstTarget(table, selector)
  {
    if selector != 0 {
      AssembledIsLaid(table, body);
      var k := FirstIndex(table, selector);
      SearchFindsEntry(AssembleAll(table) + body, table, k);
    }
  }

  /** The selector's bytes lie nowhere in the code. */
  predicate FreeOf(code: Code, selector: U32) {
    forall pos :: 0 <= pos && pos + 4 <= |code| ==> !SelectorAt(code, selector, pos)
  }

  lemma {:induction false} AbsentFromTable(table: seq<Entry>, selector: U32, k: nat)
    requires FirstTarget(table, selector).None? && k < |table|
    ensures table[k].selector != selector
  {
    if k > 0 {
      AbsentFromTable(table[1..], selector, k - 1);
    }
  }

  lemma AbsentFromCode(table: seq<Entry>, body: Code, selector: U32, pos: nat)
    requires CleanTable(table) && CleanSelector(selector) && FreeOf(body, selector)
    requires FirstTarget(table, selector).None? && pos + 4 <= |AssembleAll(table) + body|
    ensures !SelectorAt(AssembleAll(table) + body, selector, pos)
  {
    var code := AssembleAll(table) + body;
    AssembledIsLaid(table, body);
    if pos < 11 * |table| {
      var m, r := pos / 11, pos % 11;
      assert Holds(code, 11 * m, table[m]);
      NoStraySelector(code, table[m], selector, 11 * m, r);
      AbsentFromTable(table, selector, m);
    } else {
      assert code[pos..pos + 4] == body[pos - 11 * |table|..pos - 11 * |table| + 4];
      assert !SelectorAt(body, selector, pos - 11 * |table|);
    }
  }

  /**
   For a body free of the selector the direct search decides the table: it
   answers the target of the first entry, and nothing exactly for selectors
   that no entry has.
   */
  lemma DirectSearchDecidesTable(table: seq<Entry>, body: Code, selector: U32)
    requires CleanTable(table) && CleanSelector(selector) && FreeOf(body, selector) && selector != 0
    requires FirstTarget(table, selector).Some? ==>
               0 < FirstTarget(table, selector).value < |AssembleAll(table) + body|
    ensures FunctionOffset(AssembleAll(table) + body, selector) == FirstTarget(table, selector)
  {
    var code := AssembleAll(table) + body;
    if FirstTarget(table, selector).Some? {
      DirectSearchFindsFirst(table, body, selector);
    } else if |code| >= 10 {
      forall pos: nat | Occurs(code, selector, pos)
        ensures false
      {
        AbsentFromCode(table, body, selector, pos);
      }
      DirectSearchIsExact(code, selector);
    }
  }

  // ---------------------------------------------------------------------
  // A split dispatcher
  // ---------------------------------------------------------------------

  /** A comparison with a pivot that sends the selectors that pass it to the target. */
  datatype Pivot = Pivot(selector: U32, op: Byte, target: nat)

  /** DUP1 PUSH4 pivot, the comparison, PUSH2 target JUMPI. */
  function AssemblePivot(p: Pivot): (c: Code)
    ensures |c| == 11
  {
    [0x80, 0x63] + ToBe(p.selector, 4) + [p.op, 0x61] + ToBe(p.target, 2) + [0x57]
  }

  /** The comparison, then one PUSH4 of the selector. */
  function Split(front: Code, p: Pivot, selector: U32, rest: Code): Code {
    front + AssemblePivot(p) + [0x63] + ToBe(selector, 4) + rest
  }

  /** Neither part of a pattern nor a jump destination. */
  predicate Inert(b: Byte) {
    !DispatcherOpcode(b) && b != JUMPDEST
  }

  predicate AllInert(code: Code) {
    forall i :: 0 <= i < |code| ==> Inert(code[i])
  }

  predicate QuietPivot(p: Pivot) {
    && p.target < 65536
    && AllInert(ToBe(p.selector, 4)) && AllInert(ToBe(p.target, 2))
    && p.op != DUP1 && p.op != PUSH4 && p.op != PUSH2 && p.op != JUMPI && p.op != JUMPDEST
  }

  /** What lies where in the split code, the comparison starting at `at`. */
  predicate SplitAt(code: Code, at: nat, p: Pivot, selector: U32) {
    && at + 17 <= |code|
    && code[at] == DUP1 && code[at + 1] == PUSH4 && code[at + 2..at + 6] == ToBe(p.selector, 4)
    && code[at + 6] == p.op && code[at + 7] == PUSH2 && code[at + 8..at + 10] == ToBe(p.target, 2)
    && code[at + 10] == JUMPI && code[at + 11] == PUSH4 && code[at + 12..at + 16] == ToBe(selector, 4)
    && forall i :: 0 <= i < |code| && !(at <= i <= at + 1) && !(at + 6 <= i <= at + 7) && !(at + 10 <= i <= at + 11)
         ==> Inert(code[i])
  }

  lemma PivotParts(p: Pivot)
    ensures var c := AssemblePivot(p);
            && c[0] == DUP1 && c[1] == PUSH4 && c[2..6] == ToBe(p.selector, 4)
            && c[6] == p.op && c[7] == PUSH2 && c[8..10] == ToBe(p.target, 2) && c[10] == JUMPI
  {
  }

  lemma SplitIsInert(front: Code, p: Pivot, selector: U32, rest: Code, i: nat)
    requires AllInert(front) && AllInert(rest) && AllInert(ToBe(selector, 4)) && QuietPivot(p)
    requires i < |Split(front, p, selector, rest)|
    requires !(|front| <= i <= |front| + 1) && !(|front| + 6 <= i <= |front| + 7)
    requires !(|front| + 10 <= i <= |front| + 11)
    ensures Inert(Split(front, p, selector, rest)[i])
  {
    var code, at := Split(front, p, selector, rest), |front|;
    PivotParts(p);
    if i < at {
      assert code[i] == front[i];
    } else if i < at + 11 {
      var c := AssemblePivot(p);
      assert code[i] == c[i - at];
      assert i < at + 6 ==> c[i - at] == c[2..6][i - at - 2];
      assert i > at + 7 ==> c[i - at] == c[8..10][i - at - 8];
    } else if i < at + 16 {
      assert code[i] == ToBe(selector, 4)[i - at - 12];
    } else {
      assert code[i] == rest[i - at - 16];
    }
  }

  lemma SplitIsLaid(front: Code, p: Pivot, selector: U32, rest: Code)
    requires AllInert(front) && AllInert(rest) && rest != [] && AllInert(ToBe(selector, 4)) && QuietPivot(p)
    ensures SplitAt(Split(front, p, selector, rest), |front|, p, selector)
  {
    var code, at := Split(front, p, selector, rest), |front|;
    PivotParts(p);
    var c := AssemblePivot(p);
    assert code[at..at + 11] == c;
    SliceOfSlice(code, at, at + 11, 2, 6);
    SliceOfSlice(code, at, at + 11, 8, 10);
    assert code[at + 12..at + 16] == ToBe(selector, 4);
    forall k | 0 <= k < 11
      ensures code[at + k] == c[k]
    {
    }
    forall i | 0 <= i < |code| && !(at <= i <= at + 1) && !(at + 6 <= i <= at + 7) && !(at + 10 <= i <= at + 11)
      ensures Inert(code[i])
    {
      SplitIsInert(front, p, selector, rest, i);
    }
  }

  /** Where the selector can be read: not across the opcodes of the comparison. */
  lemma NoSelectorAcross(code: Code, at: nat, p: Pivot, selector: U32, pos: nat, i: nat)
    requires SplitAt(code, at, p, selector) && AllInert(ToBe(selector, 4))
    requires pos + 4 <= |code| && pos <= i < pos + 4 && !Inert(code[i])
    ensures !SelectorAt(code, selector, pos)
  {
    assert code[pos..pos + 4][i - pos] == code[i];
  }

  /** An occurrence with an EQ branch is the pivot itself, compared by EQ. */
  lemma EqBranchIsThePivot(code: Code, at: nat, p: Pivot, selector: U32, pos: nat, q: nat)
    requires SplitAt(code, at, p, selector) && QuietPivot(p) && AllInert(ToBe(selector, 4))
    requires forall i :: 0 <= i && i + 4 <= at ==> !SelectorAt(code, selector, i)
    requires Occurs(code, selector, pos) && pos + 4 <= q < pos + 20 && EqBranchAt(code, q)
    ensures p.op == 0x14 && p.selector == selector && Be16(code, q + 2) == p.target && 0 < p.target < |code|
  {
    assert q == at + 6;
    Be16Reads(code, at + 8, p.target);
    if pos + 4 > at && pos <= at + 1 {
      NoSelectorAcross(code, at, p, selector, pos, if pos <= at then at else at + 1);
    }
    assert pos == at + 2;
    Be32Reads(code, at + 2, p.selector);
    Be32Reads(code, at + 2, selector);
  }

  /** A pivot whose branch is taken is the one of the split. */
  lemma PivotIsTheSplit(code: Code, at: nat, p: Pivot, selector: U32, base: nat, op: nat, q: nat)
    requires SplitAt(code, at, p, selector) && QuietPivot(p)
    requires PivotBranch(code, selector, base, op, q)
    ensures base == at && op == at + 6 && q == at + 7
    ensures TakesBranch(p.op, selector, p.selector) && Be16(code, q + 1) == p.target && 0 < p.target < |code|
  {
    assert base == at;
    Be32Reads(code, at + 2, p.selector);
    Be16Reads(code, at + 8, p.target);
    assert q == at + 7;
  }

  predicate Passes(p: Pivot, selector: U32) {
    || (p.op == 0x11 && selector > p.selector)
    || (p.op == 0x10 && selector < p.selector)
    || (p.op == 0x14 && selector == p.selector)
  }

  lemma ResolvedIsTheTarget(code: Code, at: nat, p: Pivot, selector: U32, pos: nat, o: nat)
    requires SplitAt(code, at, p, selector) && QuietPivot(p) && AllInert(ToBe(selector, 4))
    requires forall i :: 0 <= i && i + 4 <= at ==> !SelectorAt(code, selector, i)
    requires Occurs(code, selector, pos) && Resolvable(code, selector, pos) && ResolvesTo(code, selector, pos, o)
    ensures Passes(p, selector) && o == p.target && 0 < p.target < |code|
  {
    if HasEqBranch(code, pos) {
      var q: nat :| FirstEq(code, pos, q) && o == Be16(code, q + 2);
      EqBranchIsThePivot(code, at, p, selector, pos, q);
    } else if HasPivot(code, selector, pos) {
      var base: nat :| NearestPivot(code, selector, pos, 1, base, o);
      var op: nat, q: nat :| FirstAmong(code, selector, base, base, op, q) && o == Be16(code, q + 1);
      PivotIsTheSplit(code, at, p, selector, base, op, q);
    } else {
      assert false;
    }
  }

  lemma PassedPivotResolves(code: Code, at: nat, p: Pivot, selector: U32)
    requires SplitAt(code, at, p, selector) && QuietPivot(p)
    requires Passes(p, selector) && 0 < p.target < |code|
    ensures Occurs(code, selector, at + 12) && Resolvable(code, selector, at + 12)
  {
    Be32Reads(code, at + 2, p.selector);
    Be16Reads(code, at + 8, p.target);
    assert PivotBranch(code, selector, at, at + 6, at + 7);
    assert Pivots(code, selector, at);
    assert HasPivot(code, selector, at + 12);
  }

  /**
   On a comparison with a pivot, followed by the selector without a branch of its
   own, the direct search answers the comparison's target exactly for a selector
   above the pivot behind GT (0x11), below it behind LT (0x10) and equal to it
   behind EQ (0x14), if the target lies in the code; and nothing for any other.
   */
  lemma DirectSearchTakesSplit(front: Code, p: Pivot, selector: U32, rest: Code)
    requires AllInert(front) && AllInert(rest) && rest != [] && AllInert(ToBe(selector, 4)) && QuietPivot(p)
    requires selector != 0 && FreeOf(front, selector)
    ensures FunctionOffset(Split(front, p, selector, rest), selector)
            == if && 0 < p.target < |Split(front, p, selector, rest)|
                  && (|| (p.op == 0x11 && selector > p.selector)
                      || (p.op == 0x10 && selector < p.selector)
                      || (p.op == 0x14 && selector == p.selector))
               then Some(p.target) else None
  {
    var code, at := Split(front, p, selector, rest), |front|;
    SplitIsLaid(front, p, selector, rest);
    forall i | 0 <= i && i + 4 <= at
      ensures !SelectorAt(code, selector, i)
    {
      assert code[i..i + 4] == front[i..i + 4];
      assert !SelectorAt(front, selector, i);
    }
    DirectSearchIsExact(code, selector);
    var r := FunctionOffset(code, selector);
    if r.Some? {
      var pos: nat :| FirstResolvable(code, selector, 0, pos) && ResolvesTo(code, selector, pos, r.value);
      ResolvedIsTheTarget(code, at, p, selector, pos, r.value);
    } else if Passes(p, selector) && 0 < p.target < |code| {
      PassedPivotResolves(code, at, p, selector);
    }
  }

  // ---------------------------------------------------------------------
  // Auto-detection
  // ---------------------------------------------------------------------

  /** The heuristic test on a target: past the 50-byte margin and inside the code. */
  predicate Plausible(e: Entry, k: nat, size: nat) {
    11 * k + 1 + 50 < e.target < size
  }

  /** What the scan records at the PUSH4 of entry `k`. */
  function Record(code: Code, e: Entry, k: nat, found: map<string, FunctionMetadata>)
    : map<string, FunctionMetadata>
  {
    match BranchTarget(code, 11 * k + 1, 5)
    case None => found
    case Some(t) => found[FunctionName(e.selector) := CreateFunctionMetadata(e.selector, t)]
  }

  function Recorded(code: Code, table: seq<Entry>, k: nat, found: map<string, FunctionMetadata>)
    : map<string, FunctionMetadata>
    requires k <= |table|
    decreases |table| - k
  {
    if k == |table| then found
    else Recorded(code, table, k + 1, Record(code, table[k], k, found))
  }

  lemma {:induction false} BranchTargetsArePlausible(code: Code, i: nat, j: nat)
    requires 5 <= j <= 15
    ensures BranchTarget(code, i, j).Some? ==> i + 50 < BranchTarget(code, i, j).value < |code|
    decreases 15 - j
  {
    if j < 15 {
      BranchTargetsArePlausible(code, i, j + 1);
    }
  }

  lemma TargetBytes(code: Code, e: Entry, at: nat)
    requires Holds(code, at, e) && Clean(e)
    ensures code[at + 8] != PUSH2 && code[at + 9] != PUSH2
    ensures code[at + 8] != JUMPI && code[at + 9] != JUMPI
    ensures code[at + 8] != PUSH4 && code[at + 9] != PUSH4
    ensures Be16(code, at + 8) == e.target
  {
    var t := code[at + 8..at + 10];
    assert t[0] == code[at + 8] && t[1] == code[at + 9];
    assert !DispatcherOpcode(ToBe(e.target, 2)[0]) && !DispatcherOpcode(ToBe(e.target, 2)[1]);
    Be16Reads(code, at + 8, e.target);
  }

  lemma BranchOfEntry(code: Code, e: Entry, at: nat)
    requires Holds(code, at, e) && Clean(e)
    ensures BranchTarget(code, at + 1, 5) == Some(e.target)
            <==> at + 51 < e.target < |code|
  {
    var i := at + 1;
    TargetBytes(code, e, at);
    BranchTargetsArePlausible(code, i, 5);
    assert BranchTarget(code, i, 8) == BranchTarget(code, i, 9);
    assert BranchTarget(code, i, 7) == BranchTarget(code, i, 8);
    assert BranchTarget(code, i, 6) == BranchTarget(code, i, 7);
  }

  lemma OnlyPush4(code: Code, e: Entry, at: nat, j: nat)
    requires Holds(code, at, e) && Clean(e) && j < 11
    ensures code[at + j] == PUSH4 <==> j == 1
  {
    TargetBytes(code, e, at);
    if 2 <= j < 6 {
      assert code[at + j] == code[at + 2..at + 6][j - 2];
      assert !DispatcherOpcode(ToBe(e.selector, 4)[j - 2]);
    }
  }

  lemma {:induction false} DetectSkips(code: Code, lo: nat, hi: nat, found: map<string, FunctionMetadata>)
    requires lo <= hi
    requires forall i :: lo <= i < hi && i < |code| ==> code[i] != PUSH4
    ensures DetectFrom(code, lo, found) == DetectFrom(code, hi, found)
    decreases hi - lo
  {
    if lo < hi {
      DetectSkips(code, lo + 1, hi, found);
    }
  }

  lemma DetectAcross(code: Code, e: Entry, at: nat, found: map<string, FunctionMetadata>)
    requires Holds(code, at, e) && Clean(e)
    ensures DetectFrom(code, at, found)
            == DetectFrom(code, at + 11,
                          match BranchTarget(code, at + 1, 5)
                          case None => found
                          case Some(t) =>
                            found[FunctionName(e.selector) := CreateFunctionMetadata(e.selector, t)])
  {
    forall p | at <= p < at + 11
      ensures code[p] == PUSH4 <==> p == at + 1
    {
      OnlyPush4(code, e, at, p - at);
    }
    DetectSkips(code, at, at + 1, found);
    BranchTargetsArePlausible(code, at + 1, 5);
    if at + 11 < |code| {
      Be32Reads(code, at + 2, e.selector);
      DetectSkips(code, at + 2, at + 11, DetectAt(code, at + 1, found));
    }
  }

  lemma DetectEntry(code: Code, e: Entry, k: nat, found: map<string, FunctionMetadata>)
    requires Holds(code, 11 * k, e) && Clean(e)
    ensures DetectFrom(code, 11 * k, found)
            == DetectFrom(code, 11 * (k + 1), Record(code, e, k, found))
  {
    var at := 11 * k;
    assert at + 11 == 11 * (k + 1);
    DetectAcross(code, e, at, found);
  }

  lemma DetectBody(code: Code, at: nat, found: map<string, FunctionMetadata>)
    requires at <= |code| && CleanFrom(code, at)
    ensures DetectFrom(code, at, found) == found
  {
    DetectSkips(code, at, |code|, found);
  }

  /** From entry `k` on, the scan records what the table from `k` on prescribes. */
  lemma {:induction false} DetectEntries(code: Code, table: seq<Entry>, k: nat, found: map<string, FunctionMetadata>)
    requires Laid(code, table) && CleanTable(table) && CleanFrom(code, 11 * |table|)
    requires k <= |table|
    ensures DetectFrom(code, 11 * k, found) == Recorded(code, table, k, found)
    decreases |table| - k
  {
    if k == |table| {
      DetectBody(code, 11 * k, found);
    } else {
      var found' := Record(code, table[k], k, found);
      assert DetectFrom(code, 11 * k, found) == DetectFrom(code, 11 * (k + 1), found') by {
        assert Holds(code, 11 * k, table[k]) && Clean(table[k]);
        DetectEntry(code, table[k], k, found);
      }
      DetectEntries(code, table, k + 1, found');
    }
  }

  predicate Distinct(table: seq<Entry>) {
    forall i, j :: 0 <= i < j < |table| ==> table[i].selector != table[j].selector
  }

  predicate IsFiled(m: map<string, FunctionMetadata>, e: Entry) {
    var name := FunctionName(e.selector);
    name in m && m[name] == CreateFunctionMetadata(e.selector, e.target)
  }

  /** The map with one function for each entry and nothing else. */
  ghost predicate IsTable(m: map<string, FunctionMetadata>, table: seq<Entry>) {
    && (forall k :: 0 <= k < |table| ==> IsFiled(m, table[k]))
    && (forall name :: name in m ==> exists k :: 0 <= k < |table| && name == FunctionName(table[k].selector))
  }

  // The same filling of a map, with the names and the recorded functions as lists.

  predicate DistinctNames(names: seq<string>) {
    forall i, j :: 0 <= i < j < |names| ==> names[i] != names[j]
  }

  function Fill(names: seq<string>, offers: seq<Option<FunctionMetadata>>, k: nat, found: map<string, FunctionMetadata>)
    : map<string, FunctionMetadata>
    requires k <= |names| == |offers|
    decreases |names| - k
  {
    if k == |names| then found
    else Fill(names, offers, k + 1, match offers[k]
                                    case None => found
                                    case Some(f) => found[names[k] := f])
  }

  predicate Filed(m: map<string, FunctionMetadata>, name: string, offer: Option<FunctionMetadata>) {
    match offer
    case None => name !in m
    case Some(f) => name in m && m[name] == f
  }

  /** Each function is recorded under its name, and nothing else is added. */
  lemma {:induction false} FillContents(names: seq<string>, offers: seq<Option<FunctionMetadata>>, k: nat,
                                        found: map<string, FunctionMetadata>)
    requires k <= |names| == |offers| && DistinctNames(names)
    requires forall i :: k <= i < |names| ==> names[i] !in found
    ensures var r := Fill(names, offers, k, found);
            && (forall i :: k <= i < |names| ==> Filed(r, names[i], offers[i]))
            && (forall name :: name in found ==> name in r && r[name] == found[name])
            && (forall name :: name in r ==> name in found || name in names)
            && (forall i :: 0 <= i < k && names[i] !in found ==> names[i] !in r)
    decreases |names| - k
  {
    if k < |names| {
      var found' := match offers[k]
                    case None => found
                    case Some(f) => found[names[k] := f];
      FillContents(names, offers, k + 1, found');
    }
  }

  function Names(table: seq<Entry>): seq<string> {
    seq(|table|, i requires 0 <= i < |table| => FunctionName(table[i].selector))
  }

  function OfferOf(code: Code, e: Entry, k: nat): Option<FunctionMetadata> {
    match BranchTarget(code, 11 * k + 1, 5)
    case None => None
    case Some(t) => Some(CreateFunctionMetadata(e.selector, t))
  }

  function Offers(code: Code, table: seq<Entry>): seq<Option<FunctionMetadata>> {
    seq(|table|, i requires 0 <= i < |table| => OfferOf(code, table[i], i))
  }

  lemma {:induction false} RecordedIsFill(code: Code, table: seq<Entry>, k: nat, found: map<string, FunctionMetadata>)
    requires k <= |table|
    ensures Recorded(code, table, k, found) == Fill(Names(table), Offers(code, table), k, found)
    decreases |table| - k
  {
    if k < |table| {
      RecordedIsFill(code, table, k + 1, Record(code, table[k], k, found));
    }
  }

  lemma NamesAreDistinct(table: seq<Entry>)
    requires Distinct(table)
    ensures DistinctNames(Names(table))
  {
    forall i, j | 0 <= i < j < |table|
      ensures Names(table)[i] != Names(table)[j]
    {
      NamesDiffer(table[i].selector, table[j].selector);
    }
  }

  lemma OfferIsPlausible(code: Code, e: Entry, k: nat)
    requires Holds(code, 11 * k, e) && Clean(e)
    ensures OfferOf(code, e, k) == Some(CreateFunctionMetadata(e.selector, e.target))
            <==> Plausible(e, k, |code|)
  {
    BranchOfEntry(code, e, 11 * k);
  }

  /** A filled map is the table exactly when every offer is the table's function. */
  lemma FilledIsTable(m: map<string, FunctionMetadata>, table: seq<Entry>, offers: seq<Option<FunctionMetadata>>)
    requires |offers| == |table|
    requires forall i :: 0 <= i < |table| ==> Filed(m, Names(table)[i], offers[i])
    requires forall name :: name in m ==> name in Names(table)
    ensures IsTable(m, table)
            <==> forall k :: 0 <= k < |table| ==>
                   offers[k] == Some(CreateFunctionMetadata(table[k].selector, table[k].target))
  {
    forall k | 0 <= k < |table|
      ensures offers[k] == Some(CreateFunctionMetadata(table[k].selector, table[k].target))
              <==> IsFiled(m, table[k])
    {
      assert Filed(m, Names(table)[k], offers[k]);
    }
    forall name | name in m
      ensures exists k :: 0 <= k < |table| && name == FunctionName(table[k].selector)
    {
      var k :| 0 <= k < |table| && Names(table)[k] == name;
      assert name == FunctionName(table[k].selector);
    }
  }

  lemma RecordedIsTable(code: Code, table: seq<Entry>)
    requires Laid(code, table) && CleanTable(table) && Distinct(table)
    ensures IsTable(Recorded(code, table, 0, map[]), table)
            <==> forall k :: 0 <= k < |table| ==> Plausible(table[k], k, |code|)
  {
    var names, offers := Names(table), Offers(code, table);
    RecordedIsFill(code, table, 0, map[]);
    NamesAreDistinct(table);
    FillContents(names, offers, 0, map[]);
    FilledIsTable(Fill(names, offers, 0, map[]), table, offers);
    forall k | 0 <= k < |table|
      ensures offers[k] == Some(CreateFunctionMetadata(table[k].selector, table[k].target))
              <==> Plausible(table[k], k, |code|)
    {
      assert Holds(code, 11 * k, table[k]) && Clean(table[k]);
      OfferIsPlausible(code, table[k], k);
    }
  }

  /**
   For distinct selectors, auto-detection recovers exactly the table if and
   only if every target lies past the 50-byte margin and inside the code.
   */
  lemma AutoDetectRecoversTable(table: seq<Entry>, body: Code)
    requires CleanTable(table) && CleanBody(body)
    requires Distinct(table)
    ensures IsTable(DetectFrom(AssembleAll(table) + body, 0, map[]), table)
            <==> forall k :: 0 <= k < |table| ==> Plausible(table[k], k, |AssembleAll(table) + body|)
  {
    var code := AssembleAll(table) + body;
    AssembledIsLaid(table, body);
    DetectEntries(code, table, 0, map[]);
    RecordedIsTable(code, table);
  }

  /**
   Where auto-detection recovers the table, the function table saved for the
   contract and the direct search agree on every entry exactly when no
   selector is zero.
   */
  lemma ScannersAgree(table: seq<Entry>, body: Code)
    requires CleanTable(table) && CleanBody(body)
    requires Distinct(table) && table != []
    requires forall k :: 0 <= k < |table| ==> Plausible(table[k], k, |AssembleAll(table) + body|)
    ensures var code := AssembleAll(table) + body;
            IsTable(Detected(code), table)
            && ((forall k :: 0 <= k < |table| ==>
                   FunctionOffset(code, table[k].selector)
                   == Some(Detected(code)[FunctionName(table[k].selector)].offset))
                <==> forall k :: 0 <= k < |table| ==> table[k].selector != 0)
  {
    var code := AssembleAll(table) + body;
    AutoDetectRecoversTable(table, body);
    var r := DetectFrom(code, 0, map[]);
    assert FunctionName(table[0].selector) in r;
    assert Detected(code) == r;
    forall k | 0 <= k < |table|
      ensures FunctionOffset(code, table[k].selector)
              == Some(if table[k].selector == 0 then 0 else table[k].target)
    {
      DistinctFirst(table, k);
      DirectSearchFindsFirst(table, body, table[k].selector);
    }
  }

  lemma {:induction false} DistinctFirst(table: seq<Entry>, k: nat)
    requires Distinct(table) && k < |table|
    ensures FirstTarget(table, table[k].selector) == Some(table[k].target)
  {
    if k > 0 {
      assert table[0].selector != table[k].selector;
      DistinctFirst(table[1..], k - 1);
    }
  }
}
