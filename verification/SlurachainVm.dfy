/**
 The byte-code scanners of the virtual machine: dispatcher auto-detection,
 which fills a module's function table, and the direct search for the entry
 offset of one selector.

 Every scanner is a method with the loops of the program, proved equal to a
 recursive function.  What those functions find in any code is said further
 down, what they find in an assembled one in `Dispatcher`.
 */
module SlurachainVm {
  import opened Words
  import opened EvmBytecode
  import Hex
  import opened Wrappers

  datatype FunctionMetadata = FunctionMetadata(
    name: string, offset: nat, selector: U32, payable: bool)

  datatype Module = Module(bytecode: Code, functions: map<string, FunctionMetadata>)

  function Be32(code: Code, i: nat): (r: U32)
    requires i + 4 <= |code|
  {
    ((code[i] as int * 256 + code[i + 1]) * 256 + code[i + 2]) * 256 + code[i + 3]
  }

  function Be16(code: Code, i: nat): (r: nat)
    requires i + 2 <= |code|
    ensures r < 65536
  {
    code[i] as int * 256 + code[i + 1]
  }

  function FunctionName(selector: U32): string {
    "function_" + Hex.Encode(ToBe(selector, 4))
  }

  function CreateFunctionMetadata(selector: U32, offset: nat): FunctionMetadata {
    FunctionMetadata(FunctionName(selector), offset, selector, false)
  }

  const FALLBACK := FunctionMetadata("fallback", 100, 0, true)

  // ---------------------------------------------------------------------
  // Auto-detection
  // ---------------------------------------------------------------------

  /** The JUMPI among the 15 bytes after a PUSH4 at `i` whose PUSH2 target is plausible. */
  function BranchTarget(code: Code, i: nat, j: nat): (r: Option<nat>)
    requires 5 <= j <= 15
    decreases 15 - j
  {
    if j == 15 then None
    else if i + j < |code| && code[i + j] == JUMPI && code[i + j - 3] == PUSH2 then
      var offset := Be16(code, i + j - 2);
      if i + 50 < offset < |code| then Some(offset) else BranchTarget(code, i, j + 1)
    else BranchTarget(code, i, j + 1)
  }

  function DetectAt(code: Code, i: nat, found: map<string, FunctionMetadata>)
    : map<string, FunctionMetadata>
    requires i + 10 < |code|
  {
    if code[i] != PUSH4 then found
    else
      match BranchTarget(code, i, 5)
      case None => found
      case Some(offset) =>
        var m := CreateFunctionMetadata(Be32(code, i + 1), offset);
        found[m.name := m]
  }

  function DetectFrom(code: Code, i: nat, found: map<string, FunctionMetadata>)
    : map<string, FunctionMetadata>
    decreases |code| - i
  {
    if i + 10 >= |code| then found
    else DetectFrom(code, i + 1, DetectAt(code, i, found))
  }

  /** Fifty bytes behind a PUSH4, or the last byte. */
  function GuessedOffset(code: Code, i: nat): nat
    requires i < |code|
  {
    if i + 50 < |code| - 1 then i + 50 else |code| - 1
  }

  function HeuristicAt(code: Code, i: nat, found: map<string, FunctionMetadata>)
    : map<string, FunctionMetadata>
    requires i + 4 < |code|
  {
    if code[i] != PUSH4 then found
    else
      var selector := Be32(code, i + 1);
      if 0x100 < selector < 0xffff_ffff then
        var m := CreateFunctionMetadata(selector, GuessedOffset(code, i));
        found[m.name := m]
      else found
  }

  function HeuristicFrom(code: Code, i: nat, found: map<string, FunctionMetadata>)
    : map<string, FunctionMetadata>
    decreases |code| - i
  {
    if i + 4 >= |code| then found
    else HeuristicFrom(code, i + 1, HeuristicAt(code, i, found))
  }

  /** The table detection arrives at for a code that is not empty. */
  function Detected(code: Code): map<string, FunctionMetadata> {
    var table := DetectFrom(code, 0, map[]);
    if |table| > 0 then table
    else
      var guessed := HeuristicFrom(code, 0, map[]);
      if |guessed| > 0 then guessed else map[FALLBACK.name := FALLBACK]
  }

  // ---------------------------------------------------------------------
  // Direct search
  // ---------------------------------------------------------------------

  predicate InCode(code: Code, offset: nat) {
    0 < offset < |code|
  }

  /** EQ PUSH2 JUMPI at `q`, with a target inside the code. */
  predicate EqBranchAt(code: Code, q: nat) {
    q + 4 < |code| && code[q] == EQ && code[q + 1] == PUSH2 && code[q + 4] == JUMPI
    && InCode(code, Be16(code, q + 2))
  }

  /** PUSH2 JUMPI at `q`, with a target inside the code. */
  predicate BranchAt(code: Code, q: nat) {
    q + 3 < |code| && code[q] == PUSH2 && code[q + 3] == JUMPI && InCode(code, Be16(code, q + 1))
  }

  /** EQ PUSH2 JUMPI within 20 bytes after the selector. */
  function EqPattern(code: Code, pos: nat, k: nat): (r: Option<nat>)
    requires k <= 20
    decreases 20 - k
  {
    if k == 20 then None
    else if EqBranchAt(code, pos + k) then Some(Be16(code, pos + k + 2))
    else EqPattern(code, pos, k + 1)
  }

  /** PUSH2 JUMPI in the bytes [j, hi) after `base`. */
  function JumpPattern(code: Code, base: nat, j: nat, hi: nat): (r: Option<nat>)
    decreases hi - j
  {
    if j >= hi then None
    else if BranchAt(code, base + j) then Some(Be16(code, base + j + 1))
    else JumpPattern(code, base, j + 1, hi)
  }

  predicate TakesBranch(op: Byte, selector: U32, pivot: U32) {
    (op == 0x11 && selector > pivot) || (op == 0x10 && selector < pivot)
    || (op == 0x14 && selector == pivot)
  }

  /** The comparison operator in the bytes [k, 16) after a DUP1 PUSH4 at `base`. */
  function OperatorPattern(code: Code, selector: U32, base: nat, pivot: U32, k: nat): (r: Option<nat>)
    requires k <= 16
    decreases 16 - k
  {
    if k == 16 then None
    else
      var hit := if base + k < |code| && TakesBranch(code[base + k], selector, pivot)
                 then JumpPattern(code, base, k + 1, k + 10) else None;
      if hit.Some? then hit else OperatorPattern(code, selector, base, pivot, k + 1)
  }

  predicate IsPivot(code: Code, base: nat) {
    base + 10 < |code| && code[base] == DUP1 && code[base + 1] == PUSH4
  }

  /** What a DUP1 PUSH4 comparison at `base` leads to. */
  function PivotTarget(code: Code, selector: U32, base: nat): (r: Option<nat>) {
    if IsPivot(code, base) then OperatorPattern(code, selector, base, Be32(code, base + 2), 6) else None
  }

  /** DUP1 PUSH4 comparison in the 30 bytes before the selector. */
  function HierarchyPattern(code: Code, selector: U32, pos: nat, back: nat): (r: Option<nat>)
    requires back <= 30
    decreases 30 - back
  {
    if back == 30 then None
    else
      var hit := if pos >= back then PivotTarget(code, selector, pos - back) else None;
      if hit.Some? then hit else HierarchyPattern(code, selector, pos, back + 1)
  }

  /** The nearest JUMPDEST ten to a hundred bytes ahead with a clear window. */
  function JumpdestFallback(code: Code, pos: nat, k: nat): (r: Option<nat>)
    requires k <= 100
    decreases 100 - k
  {
    if k == 100 then None
    else if pos + k < |code| && code[pos + k] == JUMPDEST && WindowClear(code, pos + k)
    then Some(pos + k)
    else JumpdestFallback(code, pos, k + 1)
  }

  function SearchAt(code: Code, selector: U32, pos: nat): (r: Option<nat>) {
    var a := EqPattern(code, pos, 4);
    if a.Some? then a
    else
      var b := HierarchyPattern(code, selector, pos, 1);
      if b.Some? then b else JumpdestFallback(code, pos, 10)
  }

  predicate SelectorAt(code: Code, selector: U32, pos: nat)
    requires pos + 4 <= |code|
  {
    code[pos..pos + 4] == ToBe(selector, 4)
  }

  function SearchFrom(code: Code, selector: U32, pos: nat): (r: Option<nat>)
    decreases |code| - pos
  {
    if pos + 4 >= |code| then None
    else
      var hit := if SelectorAt(code, selector, pos) then SearchAt(code, selector, pos) else None;
      if hit.Some? then hit else SearchFrom(code, selector, pos + 1)
  }

  function FunctionOffset(code: Code, selector: U32): (r: Option<nat>) {
    if |code| < 10 then None
    else if selector == 0 then Some(0)
    else SearchFrom(code, selector, 0)
  }

  // ---------------------------------------------------------------------
  // What the searches find
  // ---------------------------------------------------------------------

  // Each search returns the first of what it looks for, and nothing only where
  // there is none.  Positions are those in the code.

  lemma {:induction false} EqPatternIsFirst(code: Code, pos: nat, k: nat)
    requires k <= 20
    ensures match EqPattern(code, pos, k)
            case None => forall q :: pos + k <= q < pos + 20 ==> !EqBranchAt(code, q)
            case Some(o) =>
              exists q :: pos + k <= q < pos + 20 && EqBranchAt(code, q) && o == Be16(code, q + 2)
                          && forall p :: pos + k <= p < q ==> !EqBranchAt(code, p)
    decreases 20 - k
  {
    if k < 20 && !EqBranchAt(code, pos + k) {
      EqPatternIsFirst(code, pos, k + 1);
    } else if k < 20 {
      assert EqBranchAt(code, pos + k);
    }
  }

  lemma {:induction false} JumpPatternIsFirst(code: Code, base: nat, j: nat, hi: nat)
    ensures match JumpPattern(code, base, j, hi)
            case None => forall q :: base + j <= q < base + hi ==> !BranchAt(code, q)
            case Some(o) =>
              exists q :: base + j <= q < base + hi && BranchAt(code, q) && o == Be16(code, q + 1)
                          && forall p :: base + j <= p < q ==> !BranchAt(code, p)
    decreases hi - j
  {
    if j < hi {
      if BranchAt(code, base + j) {
        assert base + j <= base + j < base + hi;
      } else {
        JumpPatternIsFirst(code, base, j + 1, hi);
      }
    }
  }

  /**
   DUP1 PUSH4 pivot at `base`, at `op` a comparison with the pivot that the
   selector passes, and at `q`, soon after it, a branch.
   */
  predicate PivotBranch(code: Code, selector: U32, base: nat, op: nat, q: nat) {
    && base + 10 < |code| && code[base] == DUP1 && code[base + 1] == PUSH4
    && base + 6 <= op < base + 16 && op < |code| && TakesBranch(code[op], selector, Be32(code, base + 2))
    && op < q < op + 10 && BranchAt(code, q)
  }

  /** The first branch behind the comparison at `op`. */
  ghost predicate FirstBehind(code: Code, selector: U32, base: nat, op: nat, q: nat) {
    PivotBranch(code, selector, base, op, q)
    && forall p: nat :: PivotBranch(code, selector, base, op, p) ==> q <= p
  }

  lemma OperatorHits(code: Code, selector: U32, base: nat, k: nat, op: nat)
    requires 6 <= k < 16 && IsPivot(code, base) && op == base + k
    ensures var hit := if op < |code| && TakesBranch(code[op], selector, Be32(code, base + 2))
                       then JumpPattern(code, base, k + 1, k + 10) else None;
            match hit
            case None => forall q: nat :: !PivotBranch(code, selector, base, op, q)
            case Some(o) => exists q: nat :: FirstBehind(code, selector, base, op, q) && o == Be16(code, q + 1)
  {
    JumpPatternIsFirst(code, base, k + 1, k + 10);
    if op < |code| && TakesBranch(code[op], selector, Be32(code, base + 2)) {
      match JumpPattern(code, base, k + 1, k + 10)
      case None =>
      case Some(o) =>
        var q: nat :| base + k + 1 <= q < base + k + 10 && BranchAt(code, q) && o == Be16(code, q + 1)
                      && forall p :: base + k + 1 <= p < q ==> !BranchAt(code, p);
        assert FirstBehind(code, selector, base, op, q);
    }
  }

  /** Of all comparisons from `from` on that the selector passes, the first that has a branch has it at `q`. */
  ghost predicate FirstAmong(code: Code, selector: U32, base: nat, from: nat, op: nat, q: nat) {
    && from <= op && FirstBehind(code, selector, base, op, q)
    && forall op': nat, q': nat :: from <= op' < op ==> !PivotBranch(code, selector, base, op', q')
  }

  lemma {:induction false} OperatorPatternIsFirst(code: Code, selector: U32, base: nat, k: nat, from: nat)
    requires 6 <= k <= 16 && IsPivot(code, base) && from == base + k
    ensures match OperatorPattern(code, selector, base, Be32(code, base + 2), k)
            case None => forall op: nat, q: nat :: from <= op ==> !PivotBranch(code, selector, base, op, q)
            case Some(o) =>
              exists op: nat, q: nat :: FirstAmong(code, selector, base, from, op, q) && o == Be16(code, q + 1)
    decreases 16 - k
  {
    if k < 16 {
      var pivot := Be32(code, base + 2);
      OperatorHits(code, selector, base, k, from);
      var hit := if from < |code| && TakesBranch(code[from], selector, pivot)
                 then JumpPattern(code, base, k + 1, k + 10) else None;
      if hit.Some? {
        var q: nat :| FirstBehind(code, selector, base, from, q) && hit.value == Be16(code, q + 1);
        assert FirstAmong(code, selector, base, from, from, q);
      } else {
        OperatorPatternIsFirst(code, selector, base, k + 1, from + 1);
        var r := OperatorPattern(code, selector, base, pivot, k + 1);
        if r.Some? {
          var op: nat, q: nat :| FirstAmong(code, selector, base, from + 1, op, q) && r.value == Be16(code, q + 1);
          assert FirstAmong(code, selector, base, from, op, q);
        }
      }
    }
  }

  /** The pivot has a branch that the selector takes. */
  ghost predicate Pivots(code: Code, selector: U32, base: nat) {
    exists op: nat, q: nat :: PivotBranch(code, selector, base, op, q)
  }

  /** The pivot's first such branch goes to `o`. */
  ghost predicate PivotsTo(code: Code, selector: U32, base: nat, o: nat) {
    exists op: nat, q: nat :: FirstAmong(code, selector, base, base, op, q) && o == Be16(code, q + 1)
  }

  lemma PivotHits(code: Code, selector: U32, base: nat)
    ensures match PivotTarget(code, selector, base)
            case None => !Pivots(code, selector, base)
            case Some(o) => PivotsTo(code, selector, base, o)
  {
    if IsPivot(code, base) {
      OperatorPatternIsFirst(code, selector, base, 6, base + 6);
      var hit := PivotTarget(code, selector, base);
      if hit.Some? {
        var op: nat, q: nat :| FirstAmong(code, selector, base, base + 6, op, q) && hit.value == Be16(code, q + 1);
        assert FirstAmong(code, selector, base, base, op, q);
      }
    }
  }

  /** The nearest pivot, at least `back` bytes before, with a branch the selector takes. */
  ghost predicate NearestPivot(code: Code, selector: U32, pos: nat, back: nat, base: nat, o: nat) {
    && pos - 29 <= base <= pos - back
    && PivotsTo(code, selector, base, o)
    && forall near: nat :: base < near <= pos - back ==> !Pivots(code, selector, near)
  }

  /** The right answer of the search from `back` on: the nearest pivot's branch, or nothing without one. */
  ghost predicate NearestAnswer(code: Code, selector: U32, pos: nat, back: nat, r: Option<nat>) {
    match r
    case None => forall base: nat :: pos - 29 <= base <= pos - back ==> !Pivots(code, selector, base)
    case Some(o) => exists base: nat :: NearestPivot(code, selector, pos, back, base, o)
  }

  lemma {:induction false} HierarchyPatternIsFirst(code: Code, selector: U32, pos: nat, back: nat)
    requires 1 <= back <= 30
    ensures NearestAnswer(code, selector, pos, back, HierarchyPattern(code, selector, pos, back))
    decreases 30 - back
  {
    if back < 30 {
      var hit := if pos >= back then PivotTarget(code, selector, pos - back) else None;
      if pos >= back {
        PivotHits(code, selector, pos - back);
      }
      if hit.Some? {
        assert HierarchyPattern(code, selector, pos, back) == hit;
        var base: nat := pos - back;
        assert NearestPivot(code, selector, pos, back, base, hit.value);
      } else {
        HierarchyPatternIsFirst(code, selector, pos, back + 1);
        FartherPivots(code, selector, pos, back, HierarchyPattern(code, selector, pos, back + 1));
      }
    }
  }

  /** What is found farther back is what is found from here, if nothing is here. */
  lemma FartherPivots(code: Code, selector: U32, pos: nat, back: nat, r: Option<nat>)
    requires 1 <= back < 30 && (pos >= back ==> !Pivots(code, selector, pos - back))
    requires NearestAnswer(code, selector, pos, back + 1, r)
    ensures NearestAnswer(code, selector, pos, back, r)
  {
    if r.Some? {
      var farther := back + 1;
      var base: nat :| NearestPivot(code, selector, pos, farther, base, r.value);
      assert NearestPivot(code, selector, pos, back, base, r.value);
    }
  }

  predicate ClearJumpdest(code: Code, p: nat) {
    p < |code| && code[p] == JUMPDEST && WindowClear(code, p)
  }

  lemma {:induction false} JumpdestFallbackIsFirst(code: Code, pos: nat, k: nat)
    requires k <= 100
    ensures match JumpdestFallback(code, pos, k)
            case None => forall p :: pos + k <= p < pos + 100 ==> !ClearJumpdest(code, p)
            case Some(o) => pos + k <= o < pos + 100 && ClearJumpdest(code, o)
                            && forall p :: pos + k <= p < o ==> !ClearJumpdest(code, p)
    decreases 100 - k
  {
    if k < 100 && !ClearJumpdest(code, pos + k) {
      JumpdestFallbackIsFirst(code, pos, k + 1);
    }
  }

  /**
   Whatever the byte code, an offset the JUMPDEST fallback returns is a valid
   jump destination, although the loop only looks 32 bytes back.
   */
  lemma FallbackIsValidJumpDest(code: Code, pos: nat, k: nat)
    requires k <= 100 && JumpdestFallback(code, pos, k).Some?
    ensures ValidJumpDest(code, JumpdestFallback(code, pos, k).value)
    ensures code[JumpdestFallback(code, pos, k).value] == 0x5B
    ensures pos + k <= JumpdestFallback(code, pos, k).value < pos + 100
  {
    JumpdestFallbackIsFirst(code, pos, k);
    ClearWindowIsSwept(code, 0, JumpdestFallback(code, pos, k).value);
  }

  // ---------------------------------------------------------------------
  // The searches as loops
  // ---------------------------------------------------------------------

  /** The window test of the fallback, as the loop over `check_back` does it. */
  method CheckBack(code: Code, p: nat) returns (valid: bool)
    requires p < |code|
    ensures valid <==> WindowClear(code, p)
  {
    for back := 1 to 33
      invariant forall q :: 0 <= q < p && p - back < q ==> !Covers(code, q, p)
    {
      if p >= back {
        var q := p - back;
        if 0x60 <= code[q] <= 0x7F {
          var pushSize := code[q] - 0x5F;
          if q + pushSize >= p {
            assert Covers(code, q, p);
            return false;
          }
        }
      }
    }
    return true;
  }

  method ScanEqPattern(code: Code, pos: nat) returns (r: Option<nat>)
    ensures r == EqPattern(code, pos, 4)
  {
    for k := 4 to 20
      invariant EqPattern(code, pos, 4) == EqPattern(code, pos, k)
    {
      if pos + k + 3 < |code| {
        var q := pos + k;
        if code[q] == EQ && q + 1 < |code| && code[q + 1] == PUSH2
           && q + 4 < |code| && code[q + 4] == JUMPI {
          var offset := Be16(code, q + 2);
          if offset < |code| && offset > 0 {
            return Some(offset);
          }
        }
      }
    }
    return None;
  }

  method ScanOperators(code: Code, selector: U32, base: nat) returns (r: Option<nat>)
    requires IsPivot(code, base)
    ensures r == PivotTarget(code, selector, base)
    ensures match r
            case None => !Pivots(code, selector, base)
            case Some(o) => PivotsTo(code, selector, base, o)
  {
    PivotHits(code, selector, base);
    var pivot := Be32(code, base + 2);
    for k := 6 to 16
      invariant OperatorPattern(code, selector, base, pivot, 6)
             == OperatorPattern(code, selector, base, pivot, k)
    {
      if base + k < |code| && TakesBranch(code[base + k], selector, pivot) {
        for j := k + 1 to k + 10
          invariant JumpPattern(code, base, k + 1, k + 10) == JumpPattern(code, base, j, k + 10)
        {
          if base + j + 3 < |code| && code[base + j] == PUSH2 && code[base + j + 3] == JUMPI {
            var offset := Be16(code, base + j + 1);
            if offset < |code| && offset > 0 {
              return Some(offset);
            }
          }
        }
      }
    }
    return None;
  }

  method ScanPivots(code: Code, selector: U32, pos: nat) returns (r: Option<nat>)
    ensures r == HierarchyPattern(code, selector, pos, 1)
  {
    for back := 1 to 30
      invariant HierarchyPattern(code, selector, pos, 1) == HierarchyPattern(code, selector, pos, back)
    {
      if pos >= back {
        var base := pos - back;
        if base + 10 < |code| && code[base] == DUP1 && code[base + 1] == PUSH4 {
          r := ScanOperators(code, selector, base);
          if r.Some? {
            return;
          }
        }
      }
    }
    return None;
  }

  method ScanHierarchy(code: Code, selector: U32, pos: nat) returns (r: Option<nat>)
    ensures r == HierarchyPattern(code, selector, pos, 1)
    ensures NearestAnswer(code, selector, pos, 1, r)
  {
    r := ScanPivots(code, selector, pos);
    HierarchyPatternIsFirst(code, selector, pos, 1);
  }

  method ScanJumpdest(code: Code, pos: nat) returns (r: Option<nat>)
    ensures r == JumpdestFallback(code, pos, 10)
  {
    for k := 10 to 100
      invariant JumpdestFallback(code, pos, 10) == JumpdestFallback(code, pos, k)
    {
      if pos + k < |code| && code[pos + k] == JUMPDEST {
        var valid := CheckBack(code, pos + k);
        if valid {
          return Some(pos + k);
        }
      }
    }
    return None;
  }

  method FindFunctionOffset(code: Code, selector: U32) returns (r: Option<nat>)
    ensures r == FunctionOffset(code, selector)
  {
    if |code| < 10 {
      return None;
    }
    if selector == 0 {
      return Some(0);
    }
    var selectorBytes := ToBe(selector, 4);
    var pos := 0;
    while pos < |code| - 4
      invariant 0 <= pos <= |code| - 4
      invariant SearchFrom(code, selector, 0) == SearchFrom(code, selector, pos)
    {
      if code[pos..pos + 4] == selectorBytes {
        r := ScanEqPattern(code, pos);
        if r.Some? {
          return;
        }
        r := ScanHierarchy(code, selector, pos);
        if r.Some? {
          return;
        }
        r := ScanJumpdest(code, pos);
        if r.Some? {
          return;
        }
      }
      pos := pos + 1;
    }
    return None;
  }

  // ---------------------------------------------------------------------
  // The virtual machine's module table
  // ---------------------------------------------------------------------

  /** The module as it is before its functions are saved. */
  function Loaded(modules: map<string, Module>, address: string, code: Code): Module {
    if address !in modules then Module(code, map[])
    else if |modules[address].bytecode| == 0 then modules[address].(bytecode := code)
    else modules[address]
  }

  class Vm {
    var modules: map<string, Module>

    constructor ()
      ensures modules == map[]
    {
      modules := map[];
    }

    /** Scans for the table; what is left of the loop is what its suffix finds. */
    method ScanDispatcher(code: Code) returns (found: map<string, FunctionMetadata>)
      ensures found == DetectFrom(code, 0, map[])
    {
      found := map[];
      var i := 0;
      while i + 10 < |code|
        invariant DetectFrom(code, 0, map[]) == DetectFrom(code, i, found)
      {
        ghost var before := found;
        if code[i] == PUSH4 {
          var selector := Be32(code, i + 1);
          var j := 5;
          var matched := false;
          while j < 15 && !matched
            invariant 5 <= j <= 15
            invariant !matched ==>
                        found == before && BranchTarget(code, i, 5) == BranchTarget(code, i, j)
            invariant matched ==> found == DetectAt(code, i, before)
            decreases 15 - j, !matched
          {
            if i + j < |code| && code[i + j] == JUMPI {
              if j >= 3 && code[i + j - 3] == PUSH2 {
                var offset := Be16(code, i + j - 2);
                if offset > i + 50 && offset < |code| {
                  found := found[FunctionName(selector) := CreateFunctionMetadata(selector, offset)];
                  matched := true;
                }
              }
            }
            if !matched {
              j := j + 1;
            }
          }
        }
        assert found == DetectAt(code, i, before);
        i := i + 1;
      }
    }

    method HeuristicFunctionDetection(code: Code) returns (found: map<string, FunctionMetadata>)
      ensures found == HeuristicFrom(code, 0, map[])
    {
      found := map[];
      var i := 0;
      while i < |code| - 4
        invariant HeuristicFrom(code, 0, map[]) == HeuristicFrom(code, i, found)
      {
        if code[i] == PUSH4 {
          var selector := Be32(code, i + 1);
          if selector > 0x100 && selector != 0xffff_ffff {
            var offset := if i + 50 < |code| - 1 then i + 50 else |code| - 1;
            found := found[FunctionName(selector) := CreateFunctionMetadata(selector, offset)];
          }
        }
        i := i + 1;
      }
    }

    method LoadBytecode(address: string, code: Code)
      modifies this
      ensures modules == old(modules)[address := Loaded(old(modules), address, code)]
    {
      if address !in modules {
        modules := modules[address := Module(code, map[])];
      } else if |modules[address].bytecode| == 0 && |code| > 0 {
        modules := modules[address := modules[address].(bytecode := code)];
      }
    }

    method SaveDetectedFunctions(address: string, found: map<string, FunctionMetadata>)
      modifies this
      ensures modules == old(modules)[address :=
                if address in old(modules)
                then old(modules)[address].(functions := old(modules)[address].functions + found)
                else Module([], found)]
    {
      if address in modules {
        var m := modules[address];
        modules := modules[address := m.(functions := m.functions + found)];
      } else {
        modules := modules[address := Module([], found)];
      }
    }

    /**
     Loads the code into the module, unless it has one, and merges the detected
     functions into its table.  The code scanned is the argument, also when
     the module keeps an earlier one.
     */
    method AutoDetectContractFunctions(address: string, code: Code)
      modifies this
      ensures modules == old(modules)[address :=
                var m := Loaded(old(modules), address, code);
                if |code| == 0 then m else m.(functions := m.functions + Detected(code))]
    {
      LoadBytecode(address, code);
      if |code| == 0 {
        return;
      }
      var found := ScanDispatcher(code);
      if |found| == 0 {
        found := HeuristicFunctionDetection(code);
      }
      if |found| == 0 {
        found := map[FALLBACK.name := FALLBACK];
      }
      assert found == Detected(code);
      SaveDetectedFunctions(address, found);
    }
  }

  // ---------------------------------------------------------------------
  // What the direct search answers
  // ---------------------------------------------------------------------

  /** The search looks here: the last four bytes of the code are not looked at. */
  predicate Occurs(code: Code, selector: U32, pos: nat) {
    pos + 4 < |code| && SelectorAt(code, selector, pos)
  }

  /** The first EQ branch near the selector. */
  predicate FirstEq(code: Code, pos: nat, q: nat) {
    pos + 4 <= q < pos + 20 && EqBranchAt(code, q) && forall p :: pos + 4 <= p < q ==> !EqBranchAt(code, p)
  }

  predicate HasEqBranch(code: Code, pos: nat) {
    exists q :: pos + 4 <= q < pos + 20 && EqBranchAt(code, q)
  }

  ghost predicate HasPivot(code: Code, selector: U32, pos: nat) {
    exists base: nat :: pos - 29 <= base < pos && Pivots(code, selector, base)
  }

  predicate HasJumpdest(code: Code, pos: nat) {
    exists p :: pos + 10 <= p < pos + 100 && ClearJumpdest(code, p)
  }

  ghost predicate Resolvable(code: Code, selector: U32, pos: nat) {
    HasEqBranch(code, pos) || HasPivot(code, selector, pos) || HasJumpdest(code, pos)
  }

  /** The offset of an occurrence: by EQ, else by the nearest pivot, else by the next JUMPDEST. */
  ghost predicate ResolvesTo(code: Code, selector: U32, pos: nat, o: nat) {
    if HasEqBranch(code, pos) then exists q: nat :: FirstEq(code, pos, q) && o == Be16(code, q + 2)
    else if HasPivot(code, selector, pos) then exists base: nat :: NearestPivot(code, selector, pos, 1, base, o)
    else
      pos + 10 <= o < pos + 100 && ClearJumpdest(code, o)
      && forall p :: pos + 10 <= p < o ==> !ClearJumpdest(code, p)
  }

  lemma EqSearchIsExact(code: Code, pos: nat)
    ensures EqPattern(code, pos, 4).Some? <==> HasEqBranch(code, pos)
    ensures EqPattern(code, pos, 4).Some? ==>
              exists q: nat :: FirstEq(code, pos, q) && EqPattern(code, pos, 4).value == Be16(code, q + 2)
  {
    EqPatternIsFirst(code, pos, 4);
    if EqPattern(code, pos, 4).Some? {
      var q: nat :| pos + 4 <= q < pos + 20 && EqBranchAt(code, q) && EqPattern(code, pos, 4).value == Be16(code, q + 2)
                    && forall p :: pos + 4 <= p < q ==> !EqBranchAt(code, p);
      assert FirstEq(code, pos, q);
    }
  }

  lemma PivotSearchIsExact(code: Code, selector: U32, pos: nat)
    ensures HierarchyPattern(code, selector, pos, 1).Some? <==> HasPivot(code, selector, pos)
    ensures HierarchyPattern(code, selector, pos, 1).Some? ==>
              exists base: nat ::
                NearestPivot(code, selector, pos, 1, base, HierarchyPattern(code, selector, pos, 1).value)
  {
    HierarchyPatternIsFirst(code, selector, pos, 1);
    var r := HierarchyPattern(code, selector, pos, 1);
    if r.Some? {
      var base: nat :| NearestPivot(code, selector, pos, 1, base, r.value);
      var op: nat, q: nat :| FirstAmong(code, selector, base, base, op, q) && r.value == Be16(code, q + 1);
      assert Pivots(code, selector, base);
    }
  }

  lemma SearchAtIsExact(code: Code, selector: U32, pos: nat)
    ensures SearchAt(code, selector, pos).Some? <==> Resolvable(code, selector, pos)
    ensures SearchAt(code, selector, pos).Some? ==>
              ResolvesTo(code, selector, pos, SearchAt(code, selector, pos).value)
  {
    EqSearchIsExact(code, pos);
    PivotSearchIsExact(code, selector, pos);
    JumpdestFallbackIsFirst(code, pos, 10);
  }

  /** The first occurrence from `from` on that can be resolved. */
  ghost predicate FirstResolvable(code: Code, selector: U32, from: nat, pos: nat) {
    && from <= pos && Occurs(code, selector, pos) && Resolvable(code, selector, pos)
    && forall p: nat :: from <= p < pos && Occurs(code, selector, p) ==> !Resolvable(code, selector, p)
  }

  ghost predicate NoneResolvable(code: Code, selector: U32, from: nat) {
    forall p: nat :: from <= p && Occurs(code, selector, p) ==> !Resolvable(code, selector, p)
  }

  lemma {:induction false} SearchFromIsFirst(code: Code, selector: U32, from: nat)
    ensures match SearchFrom(code, selector, from)
            case None => NoneResolvable(code, selector, from)
            case Some(o) =>
              exists pos: nat :: FirstResolvable(code, selector, from, pos) && ResolvesTo(code, selector, pos, o)
    decreases |code| - from
  {
    if from + 4 < |code| {
      SearchAtIsExact(code, selector, from);
      var hit := if SelectorAt(code, selector, from) then SearchAt(code, selector, from) else None;
      if hit.Some? {
        assert FirstResolvable(code, selector, from, from);
      } else {
        assert Occurs(code, selector, from) ==> !Resolvable(code, selector, from);
        SearchGoesOn(code, selector, from);
      }
    }
  }

  lemma {:induction false} SearchGoesOn(code: Code, selector: U32, from: nat)
    requires from + 4 < |code|
    requires Occurs(code, selector, from) ==> !Resolvable(code, selector, from)
    ensures match SearchFrom(code, selector, from + 1)
            case None => NoneResolvable(code, selector, from)
            case Some(o) =>
              exists pos: nat :: FirstResolvable(code, selector, from, pos) && ResolvesTo(code, selector, pos, o)
    decreases |code| - from, 0
  {
    SearchFromIsFirst(code, selector, from + 1);
    var r := SearchFrom(code, selector, from + 1);
    if r.Some? {
      var pos: nat :| FirstResolvable(code, selector, from + 1, pos) && ResolvesTo(code, selector, pos, r.value);
      assert FirstResolvable(code, selector, from, pos);
    }
  }

  /**
   Exactly what the direct search answers, for all code and every selector:
   nothing for code shorter than ten bytes, offset 0 for the zero selector; else
   nothing if and only if no occurrence of the selector can be resolved, and
   otherwise the offset that its first resolvable occurrence resolves to.
   */
  lemma DirectSearchIsExact(code: Code, selector: U32)
    ensures match FunctionOffset(code, selector)
            case None => |code| < 10 || (selector != 0 && NoneResolvable(code, selector, 0))
            case Some(o) =>
              && |code| >= 10
              && (if selector == 0 then o == 0
                  else exists pos: nat ::
                         FirstResolvable(code, selector, 0, pos) && ResolvesTo(code, selector, pos, o))
  {
    SearchFromIsFirst(code, selector, 0);
  }

  /** Why an offset may be answered for an occurrence. */
  ghost predicate Justified(code: Code, selector: U32, pos: nat, o: nat) {
    || (exists q: nat :: FirstEq(code, pos, q) && o == Be16(code, q + 2))
    || (exists base: nat, op: nat, q: nat ::
          pos - 29 <= base < pos && PivotBranch(code, selector, base, op, q) && o == Be16(code, q + 1))
    || (pos + 10 <= o < pos + 100 && ValidJumpDest(code, o))
  }

  lemma ResolvedIsJustified(code: Code, selector: U32, pos: nat, o: nat)
    requires Resolvable(code, selector, pos) && ResolvesTo(code, selector, pos, o)
    ensures Justified(code, selector, pos, o) && o < |code|
  {
    if HasEqBranch(code, pos) {
    } else if HasPivot(code, selector, pos) {
      var base: nat :| NearestPivot(code, selector, pos, 1, base, o);
      var op: nat, q: nat :| FirstAmong(code, selector, base, base, op, q) && o == Be16(code, q + 1);
      assert PivotBranch(code, selector, base, op, q);
    } else {
      ClearWindowIsSwept(code, 0, o);
    }
  }

  /**
   An offset answered is 0 for the zero selector, or lies inside the code and
   comes from an occurrence of the selector: as the target of a branch behind an
   EQ, as that of a comparison the selector passes, or as a valid jump
   destination within 100 bytes.
   */
  lemma DirectSearchIsSound(code: Code, selector: U32)
    requires FunctionOffset(code, selector).Some?
    ensures var o := FunctionOffset(code, selector).value;
            || (selector == 0 && o == 0)
            || (o < |code| && exists pos: nat :: Occurs(code, selector, pos) && Justified(code, selector, pos, o))
  {
    if selector != 0 {
      DirectSearchIsExact(code, selector);
      var o := FunctionOffset(code, selector).value;
      var pos: nat :| FirstResolvable(code, selector, 0, pos) && ResolvesTo(code, selector, pos, o);
      ResolvedIsJustified(code, selector, pos, o);
    }
  }

  // ---------------------------------------------------------------------
  // The detected tables
  // ---------------------------------------------------------------------

  lemma SelectorBytesDiffer(a: U32, b: U32)
    requires a != b
    ensures ToBe(a, 4) != ToBe(b, 4)
  {
    assert Pow256(4) == 0x1_0000_0000 by { assert Pow256(2) == 65536 by { assert Pow256(1) == 256; } }
    FromBeToBe(a, 4);
    FromBeToBe(b, 4);
  }

  lemma SelectorDigits(selector: U32)
    ensures var digits := Hex.Encode(ToBe(selector, 4));
            Hex.HexText(digits) && Hex.Number(digits) == selector
  {
    var digits := Hex.Encode(ToBe(selector, 4));
    Hex.DecodeEncode(ToBe(selector, 4));
    Hex.DecodeKeepsNumber(digits);
    assert Pow256(4) == 0x1_0000_0000 by { assert Pow256(2) == 65536 by { assert Pow256(1) == 256; } }
    FromBeToBe(selector, 4);
  }

  /** The name is "function_" and the selector in eight digits of lower case. */
  lemma NameIsSelector(selector: U32)
    ensures var name := FunctionName(selector);
            && |name| == 17 && name[..9] == "function_" && Hex.HexText(name[9..])
            && Hex.Number(name[9..]) == selector
            && forall i :: 9 <= i < 17 ==> !('A' <= name[i] <= 'Z')
  {
    var digits := Hex.Encode(ToBe(selector, 4));
    SelectorDigits(selector);
    NameParts("function_", digits);
  }

  lemma NameParts(front: string, digits: string)
    requires Hex.HexText(digits) && forall i :: 0 <= i < |digits| ==> !('A' <= digits[i] <= 'F')
    ensures var name := front + digits;
            && name[..|front|] == front && name[|front|..] == digits
            && forall i :: |front| <= i < |name| ==> !('A' <= name[i] <= 'Z')
  {
    var name := front + digits;
    forall i | |front| <= i < |name|
      ensures !('A' <= name[i] <= 'Z')
    {
      assert name[i] == digits[i - |front|];
    }
  }

  /** The names under which two selectors are recorded are different. */
  lemma NamesDiffer(a: U32, b: U32)
    requires a != b
    ensures FunctionName(a) != FunctionName(b)
  {
    SelectorBytesDiffer(a, b);
    Hex.DecodeEncode(ToBe(a, 4));
    Hex.DecodeEncode(ToBe(b, 4));
    assert FunctionName(a)[9..] == Hex.Encode(ToBe(a, 4));
    assert FunctionName(b)[9..] == Hex.Encode(ToBe(b, 4));
  }

  /** PUSH2 JUMPI ending at `p`, with a target past the margin and inside the code. */
  predicate PlausibleJump(code: Code, i: nat, p: nat) {
    && 3 <= p < |code| && code[p] == JUMPI && code[p - 3] == PUSH2
    && i + 50 < Be16(code, p - 2) < |code|
  }

  lemma {:induction false} BranchTargetIsFirst(code: Code, i: nat, j: nat)
    requires 5 <= j <= 15
    ensures match BranchTarget(code, i, j)
            case None => forall p :: i + j <= p < i + 15 ==> !PlausibleJump(code, i, p)
            case Some(o) =>
              exists p :: i + j <= p < i + 15 && PlausibleJump(code, i, p) && o == Be16(code, p - 2)
                          && forall p' :: i + j <= p' < p ==> !PlausibleJump(code, i, p')
    decreases 15 - j
  {
    if j < 15 {
      if PlausibleJump(code, i, i + j) {
        assert i + j <= i + j < i + 15;
      } else {
        BranchTargetIsFirst(code, i, j + 1);
      }
    }
  }

  /** The scan records the selector at `i`. */
  predicate Detects(code: Code, i: nat, selector: U32) {
    && i + 10 < |code| && code[i] == PUSH4 && Be32(code, i + 1) == selector
    && BranchTarget(code, i, 5).Some?
  }

  /** The guess records the selector at `i`. */
  predicate Guesses(code: Code, i: nat, selector: U32) {
    && i + 4 < |code| && code[i] == PUSH4 && Be32(code, i + 1) == selector
    && 0x100 < selector < 0xffff_ffff
  }

  ghost predicate LastDetection(code: Code, i: nat, selector: U32) {
    Detects(code, i, selector) && forall j :: i < j ==> !Detects(code, j, selector)
  }

  ghost predicate LastGuess(code: Code, i: nat, selector: U32) {
    Guesses(code, i, selector) && forall j :: i < j ==> !Guesses(code, j, selector)
  }

  lemma DetectAtTells(code: Code, i: nat, found: map<string, FunctionMetadata>, selector: U32)
    requires i + 10 < |code|
    ensures var r, name := DetectAt(code, i, found), FunctionName(selector);
            if Detects(code, i, selector)
            then name in r && r[name] == CreateFunctionMetadata(selector, BranchTarget(code, i, 5).value)
            else (name in r <==> name in found) && (name in r ==> r[name] == found[name])
  {
    if code[i] == PUSH4 && Be32(code, i + 1) != selector {
      NamesDiffer(Be32(code, i + 1), selector);
    }
  }

  lemma HeuristicAtTells(code: Code, i: nat, found: map<string, FunctionMetadata>, selector: U32)
    requires i + 4 < |code|
    ensures var r, name := HeuristicAt(code, i, found), FunctionName(selector);
            if Guesses(code, i, selector)
            then name in r && r[name] == CreateFunctionMetadata(selector, GuessedOffset(code, i))
            else (name in r <==> name in found) && (name in r ==> r[name] == found[name])
  {
    if code[i] == PUSH4 && Be32(code, i + 1) != selector {
      NamesDiffer(Be32(code, i + 1), selector);
    }
  }

  /** The table says of the selector what its last detection from `i` on says, else what it said before. */
  lemma {:induction false} DetectFromTells(code: Code, i: nat, found: map<string, FunctionMetadata>, selector: U32)
    ensures var r, name := DetectFrom(code, i, found), FunctionName(selector);
            && (name in r <==> name in found || exists j :: i <= j && Detects(code, j, selector))
            && ((forall j :: i <= j ==> !Detects(code, j, selector)) && name in found ==> r[name] == found[name])
            && (forall j :: i <= j && LastDetection(code, j, selector) ==>
                  r[name] == CreateFunctionMetadata(selector, BranchTarget(code, j, 5).value))
    decreases |code| - i
  {
    if i + 10 < |code| {
      DetectAtTells(code, i, found, selector);
      DetectFromTells(code, i + 1, DetectAt(code, i, found), selector);
    }
  }

  lemma {:induction false} HeuristicFromTells(code: Code, i: nat, found: map<string, FunctionMetadata>, selector: U32)
    ensures var r, name := HeuristicFrom(code, i, found), FunctionName(selector);
            && (name in r <==> name in found || exists j :: i <= j && Guesses(code, j, selector))
            && ((forall j :: i <= j ==> !Guesses(code, j, selector)) && name in found ==> r[name] == found[name])
            && (forall j :: i <= j && LastGuess(code, j, selector) ==>
                  r[name] == CreateFunctionMetadata(selector, GuessedOffset(code, j)))
    decreases |code| - i
  {
    if i + 4 < |code| {
      HeuristicAtTells(code, i, found, selector);
      HeuristicFromTells(code, i + 1, HeuristicAt(code, i, found), selector);
    }
  }

  lemma {:induction false} DetectedNames(code: Code, i: nat, found: map<string, FunctionMetadata>)
    ensures forall name :: name in DetectFrom(code, i, found) ==>
              name in found || exists selector :: name == FunctionName(selector)
    decreases |code| - i
  {
    if i + 10 < |code| {
      DetectedNames(code, i + 1, DetectAt(code, i, found));
    }
  }

  lemma {:induction false} GuessedNames(code: Code, i: nat, found: map<string, FunctionMetadata>)
    ensures forall name :: name in HeuristicFrom(code, i, found) ==>
              name in found || exists selector :: name == FunctionName(selector)
    decreases |code| - i
  {
    if i + 4 < |code| {
      GuessedNames(code, i + 1, HeuristicAt(code, i, found));
    }
  }

  /**
   The table holds a function for exactly the selectors that some PUSH4 pushes
   with a plausible jump within 15 bytes, with the target of the first such jump
   behind the last such PUSH4; nothing under other names.
   */
  ghost predicate IsDetected(code: Code, table: map<string, FunctionMetadata>) {
    && (forall name :: name in table ==> exists selector :: name == FunctionName(selector))
    && (forall selector: U32 :: FunctionName(selector) in table <==> exists i :: Detects(code, i, selector))
    && (forall selector: U32, i :: LastDetection(code, i, selector) ==>
          table[FunctionName(selector)]
          == FunctionMetadata(FunctionName(selector), BranchTarget(code, i, 5).value, selector, false))
  }

  /**
   The table holds a function for exactly the selectors between 0x100 and
   0xffffffff that some PUSH4 pushes, with an offset 50 bytes behind the last such
   PUSH4, or the last byte; nothing under other names.
   */
  ghost predicate IsGuessed(code: Code, table: map<string, FunctionMetadata>) {
    && (forall name :: name in table ==> exists selector :: name == FunctionName(selector))
    && (forall selector: U32 :: FunctionName(selector) in table <==> exists i :: Guesses(code, i, selector))
    && (forall selector: U32, i: nat :: LastGuess(code, i, selector) ==>
          table[FunctionName(selector)]
          == FunctionMetadata(FunctionName(selector), if i + 50 < |code| - 1 then i + 50 else |code| - 1,
                              selector, false))
  }

  /** What detection records, for all code. */
  lemma DetectionIsExact(code: Code)
    ensures IsDetected(code, DetectFrom(code, 0, map[]))
  {
    DetectedNames(code, 0, map[]);
    forall selector: U32 {
      DetectFromTells(code, 0, map[], selector);
    }
  }

  /** What the guess records, for all code. */
  lemma HeuristicIsExact(code: Code)
    ensures IsGuessed(code, HeuristicFrom(code, 0, map[]))
  {
    GuessedNames(code, 0, map[]);
    forall selector: U32 {
      HeuristicFromTells(code, 0, map[], selector);
    }
  }

  /** Nothing is recorded exactly where neither scan finds anything. */
  lemma EmptyTables(code: Code)
    ensures DetectFrom(code, 0, map[]) == map[] <==> forall i, selector :: !Detects(code, i, selector)
    ensures HeuristicFrom(code, 0, map[]) == map[] <==> forall i, selector :: !Guesses(code, i, selector)
  {
    DetectionIsExact(code);
    HeuristicIsExact(code);
    var scanned, guessed := DetectFrom(code, 0, map[]), HeuristicFrom(code, 0, map[]);
    if i: nat, selector: U32 :| Detects(code, i, selector) {
      assert FunctionName(selector) in scanned;
    }
    if i: nat, selector: U32 :| Guesses(code, i, selector) {
      assert FunctionName(selector) in guessed;
    }
  }

  /**
   What a module gets to know of its code: what the scan detects, if anything;
   else what is guessed, if anything; else one payable "fallback" at offset 100.
   */
  lemma DetectionFallsBack(code: Code)
    ensures (exists i, selector :: Detects(code, i, selector)) ==> IsDetected(code, Detected(code))
    ensures (forall i, selector :: !Detects(code, i, selector)) && (exists i, selector :: Guesses(code, i, selector))
            ==> IsGuessed(code, Detected(code))
    ensures (forall i, selector :: !Detects(code, i, selector)) && (forall i, selector :: !Guesses(code, i, selector))
            ==> Detected(code) == map["fallback" := FunctionMetadata("fallback", 100, 0, true)]
  {
    EmptyTables(code);
    DetectionIsExact(code);
    HeuristicIsExact(code);
  }

  /** A module that is not there, or has no code, gets the code; any other keeps its own; tables stay. */
  lemma LoadedModule(modules: map<string, Module>, address: string, code: Code)
    ensures address !in modules ==> Loaded(modules, address, code) == Module(code, map[])
    ensures address in modules && modules[address].bytecode == [] ==>
              Loaded(modules, address, code) == Module(code, modules[address].functions)
    ensures address in modules && modules[address].bytecode != [] ==>
              Loaded(modules, address, code) == modules[address]
  {
  }
}
