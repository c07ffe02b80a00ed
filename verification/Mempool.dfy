/**
 The pool of pending transactions between submission and block production.

 Production collects the pool, seals the collected transactions into a block
 and then drains their keys; submissions may come in between.  `Machine` is
 that interleaving; `Produce` further down is production without interruption.
 */
module Mempool {
  import opened Words
  import Text

  datatype Tx = Tx(from: string, to: string, value: string, nonce: U64, hash: string)

  /** The key of a transaction in the pool: its four fields, joined by ':'. */
  function KeyOf(tx: Tx): string {
    tx.from + ":" + tx.to + ":" + tx.value + ":" + Text.Decimal(tx.nonce)
  }

  predicate ColonFree(tx: Tx) {
    Text.Free(tx.from, ':') && Text.Free(tx.to, ':') && Text.Free(tx.value, ':')
  }

  /** The two describe the same transfer; the hash text is not part of it. */
  predicate SameTransfer(a: Tx, b: Tx) {
    a.from == b.from && a.to == b.to && a.value == b.value && a.nonce == b.nonce
  }

  /** The key, field by field from the front. */
  lemma KeyByFields(tx: Tx)
    ensures KeyOf(tx) == tx.from + [':'] + (tx.to + [':'] + (tx.value + [':'] + Text.Decimal(tx.nonce)))
  {
    var digits := Text.Decimal(tx.nonce);
    assert tx.to + [':'] + (tx.value + [':'] + digits) == tx.to + [':'] + tx.value + [':'] + digits;
  }

  /** For fields without ':' the key names one transfer. */
  lemma KeyIsInjective(a: Tx, b: Tx)
    requires ColonFree(a) && ColonFree(b) && KeyOf(a) == KeyOf(b)
    ensures SameTransfer(a, b)
  {
    KeyByFields(a);
    KeyByFields(b);
    var va, vb := a.value + [':'] + Text.Decimal(a.nonce), b.value + [':'] + Text.Decimal(b.nonce);
    Text.FieldsAgree(a.from, b.from, ':', a.to + [':'] + va, b.to + [':'] + vb);
    Text.FieldsAgree(a.to, b.to, ':', va, vb);
    Text.FieldsAgree(a.value, b.value, ':', Text.Decimal(a.nonce), Text.Decimal(b.nonce));
    Text.DecimalReadsBack(a.nonce);
    Text.DecimalReadsBack(b.nonce);
  }

  /** A key free of other ':' reads as from, to, value and nonce. */
  lemma KeySplits(tx: Tx)
    requires ColonFree(tx)
    ensures Text.Split(KeyOf(tx), ':') == [tx.from, tx.to, tx.value, Text.Decimal(tx.nonce)]
    ensures Text.DecimalReadsAs(Text.Decimal(tx.nonce), tx.nonce)
  {
    var digits := Text.Decimal(tx.nonce);
    KeyByFields(tx);
    Text.DecimalReadsBack(tx.nonce);
    Text.SplitConcat(tx.from, ':', tx.to + [':'] + (tx.value + [':'] + digits));
    Text.SplitConcat(tx.to, ':', tx.value + [':'] + digits);
    Text.SplitConcat(tx.value, ':', digits);
    Text.SplitFree(tx.from, ':');
    Text.SplitFree(tx.to, ':');
    Text.SplitFree(tx.value, ':');
    Text.SplitFree(digits, ':');
  }

  /** A key has three ':' of its own, and those of the fields. */
  lemma ColonsOfKey(tx: Tx)
    ensures Text.Count(KeyOf(tx), ':')
            == Text.Count(tx.from, ':') + Text.Count(tx.to, ':') + Text.Count(tx.value, ':') + 3
  {
    var digits := Text.Decimal(tx.nonce);
    Text.DecimalReadsBack(tx.nonce);
    Text.CountFree(digits, ':');
    Text.CountConcat(tx.from, ":", ':');
    Text.CountConcat(tx.from + ":", tx.to, ':');
    Text.CountConcat(tx.from + ":" + tx.to, ":", ':');
    Text.CountConcat(tx.from + ":" + tx.to + ":", tx.value, ':');
    Text.CountConcat(tx.from + ":" + tx.to + ":" + tx.value, ":", ':');
    Text.CountConcat(tx.from + ":" + tx.to + ":" + tx.value + ":", digits, ':');
  }

  /** A ':' in a field can be read as the border between two fields instead. */
  lemma ColonCollides(a: Tx) returns (b: Tx)
    requires !ColonFree(a)
    ensures KeyOf(b) == KeyOf(a) && !SameTransfer(a, b)
  {
    if !Text.Free(a.from, ':') {
      var x, y := Text.SplitAt(a.from, ':');
      b := a.(from := x, to := y + ":" + a.to);
      assert b.from + ":" + b.to == a.from + ":" + a.to;
    } else if !Text.Free(a.to, ':') {
      var x, y := Text.SplitAt(a.to, ':');
      b := a.(from := a.from + ":" + x, to := y);
      assert b.from + ":" + b.to == a.from + ":" + a.to;
    } else {
      var x, y := Text.SplitAt(a.value, ':');
      b := a.(to := a.to + ":" + x, value := y);
      assert a.from + ":" + b.to + ":" + b.value == a.from + ":" + a.to + ":" + a.value;
    }
  }

  /**
   The exact reach of the keys: a transaction shares its key with no other
   transfer if and only if none of its fields has a ':'.
   */
  lemma KeyIsUniqueIffColonFree(a: Tx)
    ensures ColonFree(a) <==> forall b :: KeyOf(b) == KeyOf(a) ==> SameTransfer(a, b)
  {
    if ColonFree(a) {
      forall b | KeyOf(b) == KeyOf(a)
        ensures SameTransfer(a, b)
      {
        ColonsOfKey(a);
        ColonsOfKey(b);
        Text.CountFree(a.from, ':');
        Text.CountFree(a.to, ':');
        Text.CountFree(a.value, ':');
        Text.CountFree(b.from, ':');
        Text.CountFree(b.to, ':');
        Text.CountFree(b.value, ':');
        KeyIsInjective(a, b);
      }
    } else {
      var _ := ColonCollides(a);
    }
  }

  // ---------------------------------------------------------------------
  // The interleaved machine
  // ---------------------------------------------------------------------

  type Pool = map<string, Tx>

  datatype Production = Idle | Collected(batch: Pool) | Sealed(batch: Pool)

  datatype Machine = Machine(pending: Pool, production: Production, blocks: seq<Pool>)

  datatype Step = Submit(tx: Tx) | SubmitHashed(tx: Tx) | Collect | Abort | Seal | Drain

  /** The keys production computes for what it collected. */
  function Processed(batch: Pool): set<string> {
    set k | k in batch :: KeyOf(batch[k])
  }

  predicate Enabled(m: Machine, s: Step) {
    match s
    case Submit(_) => true
    case SubmitHashed(_) => true
    case Collect => m.production.Idle?
    case Abort => m.production.Collected?
    case Seal => m.production.Collected?
    case Drain => m.production.Sealed?
  }

  function Take(m: Machine, s: Step): Machine
    requires Enabled(m, s)
  {
    match s
    case Submit(tx) => m.(pending := m.pending[KeyOf(tx) := tx])
    case SubmitHashed(tx) => m.(pending := m.pending[tx.hash := tx])
    case Collect => m.(production := Collected(m.pending))
    case Abort => m.(production := Idle)
    case Seal => m.(production := Sealed(m.production.batch), blocks := m.blocks + [m.production.batch])
    case Drain => m.(pending := m.pending - Processed(m.production.batch), production := Idle)
  }

  predicate Reaches(m: Machine, steps: seq<Step>, end: Machine)
    decreases |steps|
  {
    if steps == [] then end == m
    else Enabled(m, steps[0]) && Reaches(Take(m, steps[0]), steps[1..], end)
  }

  const EMPTY := Machine(map[], Idle, [])

  /** A run can be taken apart at any of its steps. */
  lemma {:induction false} ReachesSplit(m: Machine, steps: seq<Step>, s: nat, end: Machine) returns (mid: Machine)
    requires s < |steps| && Reaches(m, steps, end)
    ensures Reaches(m, steps[..s], mid) && Enabled(mid, steps[s])
    ensures Reaches(Take(mid, steps[s]), steps[s + 1..], end)
    decreases s
  {
    if s == 0 {
      mid := m;
    } else {
      mid := ReachesSplit(Take(m, steps[0]), steps[1..], s - 1, end);
      assert steps[1..][..s - 1] == steps[..s][1..];
      assert steps[1..][s..] == steps[s + 1..];
    }
  }

  /**
   Entering never waits: whatever production is under way, a submission of either
   kind is taken at once, and changes neither the production nor the blocks.
   */
  lemma SubmissionsAreAlwaysTaken(m: Machine, tx: Tx)
    ensures Reaches(m, [Submit(tx)], m.(
              pending := m.pending[tx.from + ":" + tx.to + ":" + tx.value + ":" + Text.Decimal(tx.nonce) := tx]))
    ensures Reaches(m, [SubmitHashed(tx)], m.(pending := m.pending[tx.hash := tx]))
  {
    assert [Submit(tx)][1..] == [] && [SubmitHashed(tx)][1..] == [];
    assert Reaches(Take(m, Submit(tx)), [], Take(m, Submit(tx)));
    assert Reaches(Take(m, SubmitHashed(tx)), [], Take(m, SubmitHashed(tx)));
  }

  /** How many blocks hold the key. */
  function BlocksWith(blocks: seq<Pool>, k: string): nat {
    if blocks == [] then 0
    else BlocksWith(blocks[..|blocks| - 1], k) + (if k in blocks[|blocks| - 1] then 1 else 0)
  }

  /** Still to be put into a block: in the pool and not about to be drained. */
  predicate Waiting(m: Machine, k: string) {
    k in m.pending && !(m.production.Sealed? && k in Processed(m.production.batch))
  }

  // ---------------------------------------------------------------------
  // A key submitted once
  // ---------------------------------------------------------------------

  /** The step submits under the key, or enters something that computes to it. */
  predicate Touches(s: Step, k: string) {
    match s
    case Submit(tx) => KeyOf(tx) == k
    case SubmitHashed(tx) => tx.hash == k || KeyOf(tx) == k
    case _ => false
  }

  predicate Untouched(steps: seq<Step>, k: string) {
    forall i :: 0 <= i < |steps| ==> !Touches(steps[i], k)
  }

  /** Only the transaction itself lies under the key or computes to it. */
  ghost predicate Own(p: Pool, k: string, tx: Tx) {
    forall j :: j in p ==> (j == k ==> p[j] == tx) && (KeyOf(p[j]) == k ==> j == k)
  }

  ghost predicate Without(p: Pool, k: string) {
    forall j :: j in p ==> j != k && KeyOf(p[j]) != k
  }

  function Batch(m: Machine): Pool {
    if m.production.Idle? then map[] else m.production.batch
  }

  ghost predicate Unentered(m: Machine, k: string) {
    && Without(m.pending, k) && Without(Batch(m), k)
    && forall i :: 0 <= i < |m.blocks| ==> Without(m.blocks[i], k)
  }

  /** The transaction is waiting or in exactly one block, and nowhere changed. */
  ghost predicate Accounted(m: Machine, k: string, tx: Tx) {
    && Own(m.pending, k, tx) && Own(Batch(m), k, tx)
    && (forall i :: 0 <= i < |m.blocks| ==> Own(m.blocks[i], k, tx))
    && (k in Batch(m) ==> k in m.pending)
    && BlocksWith(m.blocks, k) == if Waiting(m, k) then 0 else 1
  }

  lemma {:induction false} UntouchedStaysUnentered(m: Machine, steps: seq<Step>, end: Machine, k: string)
    requires Unentered(m, k) && Untouched(steps, k) && Reaches(m, steps, end)
    ensures Unentered(end, k)
    decreases |steps|
  {
    if steps != [] {
      assert !Touches(steps[0], k);
      UntouchedStaysUnentered(Take(m, steps[0]), steps[1..], end, k);
    }
  }

  lemma {:induction false} NoBlockWith(blocks: seq<Pool>, k: string)
    requires forall i :: 0 <= i < |blocks| ==> Without(blocks[i], k)
    ensures BlocksWith(blocks, k) == 0
  {
    if blocks != [] {
      NoBlockWith(blocks[..|blocks| - 1], k);
    }
  }

  lemma SubmitIsAccounted(m: Machine, tx: Tx)
    requires Unentered(m, KeyOf(tx))
    ensures Accounted(Take(m, Submit(tx)), KeyOf(tx), tx)
  {
    var k := KeyOf(tx);
    NoBlockWith(m.blocks, k);
    if m.production.Sealed? {
      assert k !in Processed(m.production.batch);
    }
  }

  /** Among what is its own, the key is drained exactly if it is in the batch. */
  lemma OwnKeyProcessed(batch: Pool, k: string, tx: Tx)
    requires Own(batch, k, tx) && KeyOf(tx) == k
    ensures k in Processed(batch) <==> k in batch
  {
    if k in batch {
      assert KeyOf(batch[k]) == k;
    }
  }

  lemma StepKeepsAccounted(m: Machine, s: Step, k: string, tx: Tx)
    requires Accounted(m, k, tx) && KeyOf(tx) == k
    requires Enabled(m, s) && !Touches(s, k)
    ensures Accounted(Take(m, s), k, tx)
  {
    OwnKeyProcessed(Batch(m), k, tx);
    if s.Seal? {
      var m' := Take(m, s);
      assert m'.blocks[..|m.blocks|] == m.blocks;
    }
  }

  lemma {:induction false} RunKeepsAccounted(m: Machine, steps: seq<Step>, end: Machine, k: string, tx: Tx)
    requires Accounted(m, k, tx) && KeyOf(tx) == k
    requires Untouched(steps, k) && Reaches(m, steps, end)
    ensures Accounted(end, k, tx)
    decreases |steps|
  {
    if steps != [] {
      assert !Touches(steps[0], k);
      StepKeepsAccounted(m, steps[0], k, tx);
      RunKeepsAccounted(Take(m, steps[0]), steps[1..], end, k, tx);
    }
  }

  /**
   In every run of submissions and productions, failed ones included, a
   transaction whose key is submitted once is at each later moment either
   waiting or in exactly one block, and there as it was submitted.  Other keys
   may be submitted any number of times, and under hashes too.
   */
  lemma ExactlyOneBlock(steps: seq<Step>, s: nat, m: Machine)
    requires Reaches(EMPTY, steps, m) && s < |steps| && steps[s].Submit?
    requires forall i :: 0 <= i < |steps| && i != s ==> !Touches(steps[i], KeyOf(steps[s].tx))
    ensures var tx := steps[s].tx;
            var k := KeyOf(tx);
            && BlocksWith(m.blocks, k) == (if Waiting(m, k) then 0 else 1)
            && (Waiting(m, k) ==> m.pending[k] == tx)
            && (forall i :: 0 <= i < |m.blocks| && k in m.blocks[i] ==> m.blocks[i][k] == tx)
            && (forall i, j :: 0 <= i < |m.blocks| && j in m.blocks[i] && KeyOf(m.blocks[i][j]) == k ==> j == k)
  {
    var tx := steps[s].tx;
    var k := KeyOf(tx);
    var mid := ReachesSplit(EMPTY, steps, s, m);
    UntouchedStaysUnentered(EMPTY, steps[..s], mid, k);
    SubmitIsAccounted(mid, tx);
    RunKeepsAccounted(Take(mid, steps[s]), steps[s + 1..], m, k, tx);
    forall i | 0 <= i < |m.blocks|
      ensures Own(m.blocks[i], k, tx)
    {
    }
  }

  // ---------------------------------------------------------------------
  // When a submission is lost
  // ---------------------------------------------------------------------

  /** The pool holds this very transaction under its key. */
  predicate Holds(p: Pool, tx: Tx) {
    KeyOf(tx) in p && p[KeyOf(tx)] == tx
  }

  /** The step puts something else, or the same again, under the key. */
  predicate Overwrites(s: Step, k: string) {
    match s
    case Submit(tx) => KeyOf(tx) == k
    case SubmitHashed(tx) => tx.hash == k
    case _ => false
  }

  /** The production under way, if there is one, goes on to seal its block. */
  predicate Completes(p: Production, rest: seq<Step>)
    decreases |rest|
  {
    match p
    case Idle => false
    case Sealed(_) => true
    case Collected(_) =>
      rest != [] && (rest[0].Seal? || (!rest[0].Abort? && Completes(p, rest[1..])))
  }

  /** The blocks before the one of the production under way. */
  function BlocksBefore(m: Machine): nat {
    if m.production.Sealed? && |m.blocks| > 0 then |m.blocks| - 1 else |m.blocks|
  }

  predicate InBlockFrom(m: Machine, tx: Tx, first: nat) {
    exists i :: first <= i < |m.blocks| && Holds(m.blocks[i], tx)
  }

  /** Neither to be put into a block nor in one from block `first` on. */
  predicate Lost(m: Machine, tx: Tx, first: nat) {
    !Waiting(m, KeyOf(tx)) && !InBlockFrom(m, tx, first)
  }

  /** The batch drains the key without holding the transaction. */
  predicate Displaces(batch: Pool, tx: Tx) {
    KeyOf(tx) in Processed(batch) && !Holds(batch, tx)
  }

  /** In a block, or waiting with no production under way that displaces it. */
  predicate Safe(m: Machine, tx: Tx, first: nat) {
    || InBlockFrom(m, tx, first)
    || (&& first <= |m.blocks|
        && Holds(m.pending, tx)
        && (m.production.Collected? ==> !Displaces(m.production.batch, tx))
        && (m.production.Sealed? ==> KeyOf(tx) !in Processed(m.production.batch)))
  }

  lemma HeldIsProcessed(batch: Pool, tx: Tx)
    requires Holds(batch, tx)
    ensures KeyOf(tx) in Processed(batch)
  {
    assert KeyOf(batch[KeyOf(tx)]) == KeyOf(tx);
  }

  lemma StepKeepsSafe(m: Machine, s: Step, tx: Tx, first: nat)
    requires Safe(m, tx, first) && Enabled(m, s) && !Overwrites(s, KeyOf(tx))
    ensures Safe(Take(m, s), tx, first)
  {
    var m' := Take(m, s);
    if InBlockFrom(m, tx, first) {
      var i :| first <= i < |m.blocks| && Holds(m.blocks[i], tx);
      assert Holds(m'.blocks[i], tx);
    } else if s.Seal? {
      var batch := m.production.batch;
      if KeyOf(tx) in Processed(batch) {
        assert Holds(m'.blocks[|m.blocks|], tx);
      }
    }
  }

  lemma {:induction false} SafeStaysSafe(m: Machine, rest: seq<Step>, end: Machine, tx: Tx, first: nat)
    requires Safe(m, tx, first) && Reaches(m, rest, end)
    requires forall i :: 0 <= i < |rest| ==> !Overwrites(rest[i], KeyOf(tx))
    ensures !Lost(end, tx, first)
    decreases |rest|
  {
    if rest != [] {
      StepKeepsSafe(m, rest[0], tx, first);
      SafeStaysSafe(Take(m, rest[0]), rest[1..], end, tx, first);
    }
  }

  /** Drained without a block, or about to be. */
  predicate Doomed(m: Machine, tx: Tx, first: nat) {
    Lost(m, tx, first) && (m.production.Sealed? || KeyOf(tx) !in m.pending)
    && (m.production.Collected? ==> !Holds(m.production.batch, tx))
  }

  lemma StepKeepsDoomed(m: Machine, s: Step, tx: Tx, first: nat)
    requires Doomed(m, tx, first) && Enabled(m, s) && !Overwrites(s, KeyOf(tx))
    ensures Doomed(Take(m, s), tx, first)
  {
    var m' := Take(m, s);
    forall i | first <= i < |m'.blocks|
      ensures !Holds(m'.blocks[i], tx)
    {
      assert i < |m.blocks| ==> m'.blocks[i] == m.blocks[i];
    }
  }

  lemma {:induction false} DoomedStaysLost(m: Machine, rest: seq<Step>, end: Machine, tx: Tx, first: nat)
    requires Doomed(m, tx, first) && Reaches(m, rest, end)
    requires forall i :: 0 <= i < |rest| ==> !Overwrites(rest[i], KeyOf(tx))
    ensures Lost(end, tx, first)
    decreases |rest|
  {
    if rest != [] {
      StepKeepsDoomed(m, rest[0], tx, first);
      DoomedStaysLost(Take(m, rest[0]), rest[1..], end, tx, first);
    }
  }

  /** While the displacing production has not sealed, its abort saves the transaction. */
  lemma {:induction false} DisplacedIsLostIffSealed(m: Machine, rest: seq<Step>, end: Machine, tx: Tx)
    requires m.production.Collected? && Displaces(m.production.batch, tx) && Holds(m.pending, tx)
    requires Reaches(m, rest, end)
    requires forall i :: 0 <= i < |rest| ==> !Overwrites(rest[i], KeyOf(tx))
    ensures Lost(end, tx, |m.blocks|) <==> Completes(m.production, rest)
    decreases |rest|
  {
    if rest != [] {
      var m' := Take(m, rest[0]);
      assert !Overwrites(rest[0], KeyOf(tx));
      if rest[0].Seal? {
        assert !InBlockFrom(m', tx, |m.blocks|);
        DoomedStaysLost(m', rest[1..], end, tx, |m.blocks|);
      } else if rest[0].Abort? {
        SafeStaysSafe(m', rest[1..], end, tx, |m.blocks|);
      } else {
        DisplacedIsLostIffSealed(m', rest[1..], end, tx);
      }
    }
  }

  ghost predicate LastBlockIsBatch(m: Machine) {
    m.production.Sealed? ==> |m.blocks| > 0 && m.blocks[|m.blocks| - 1] == m.production.batch
  }

  lemma {:induction false} SealedBlockIsLast(m: Machine, steps: seq<Step>, end: Machine)
    requires LastBlockIsBatch(m) && Reaches(m, steps, end)
    ensures LastBlockIsBatch(end)
    decreases |steps|
  {
    if steps != [] {
      SealedBlockIsLast(Take(m, steps[0]), steps[1..], end);
    }
  }

  /**
   Exactly which submissions are lost.  In every run, with whatever submissions
   before, the last entry under a key is neither waiting nor in the block of the
   production under way at its submission or a later one if and only if that
   production goes on to seal its block and drains the key, though it did not
   collect this transaction under it.
   */
  lemma LastSubmissionIsLostIff(before: seq<Step>, mid: Machine, tx: Tx, rest: seq<Step>, end: Machine)
    requires Reaches(EMPTY, before, mid) && Reaches(Take(mid, Submit(tx)), rest, end)
    requires forall i :: 0 <= i < |rest| ==> !Overwrites(rest[i], KeyOf(tx))
    ensures Lost(end, tx, BlocksBefore(mid))
            <==> Completes(mid.production, rest) && Displaces(mid.production.batch, tx)
  {
    SealedBlockIsLast(EMPTY, before, mid);
    var m, first := Take(mid, Submit(tx)), BlocksBefore(mid);
    if mid.production.Idle? {
      SafeStaysSafe(m, rest, end, tx, first);
    } else if !Displaces(mid.production.batch, tx) {
      if mid.production.Sealed? && Holds(mid.production.batch, tx) {
        assert Holds(m.blocks[first], tx);
      }
      SafeStaysSafe(m, rest, end, tx, first);
    } else if mid.production.Collected? {
      DisplacedIsLostIffSealed(m, rest, end, tx);
    } else {
      DoomedStaysLost(m, rest, end, tx, first);
    }
  }

  ghost predicate AtMostOneBlockFrom(m: Machine, tx: Tx, first: nat) {
    forall i, j :: first <= i < j < |m.blocks| ==> !(Holds(m.blocks[i], tx) && Holds(m.blocks[j], tx))
  }

  /** In at most one block, and if in one, then not to be put into another. */
  ghost predicate Settled(m: Machine, tx: Tx, first: nat) {
    var k := KeyOf(tx);
    && AtMostOneBlockFrom(m, tx, first)
    && (InBlockFrom(m, tx, first) ==>
          || (m.production.Sealed? && k in Processed(m.production.batch))
          || (k !in m.pending && k !in Batch(m)))
  }

  lemma StepKeepsSettled(m: Machine, s: Step, tx: Tx, first: nat)
    requires Settled(m, tx, first) && Enabled(m, s) && !Overwrites(s, KeyOf(tx))
    ensures Settled(Take(m, s), tx, first)
  {
    var m' := Take(m, s);
    if s.Seal? {
      forall i | first <= i < |m.blocks| && Holds(m.blocks[i], tx)
        ensures !Holds(m.production.batch, tx)
      {
        assert InBlockFrom(m, tx, first);
      }
      if Holds(m.production.batch, tx) {
        HeldIsProcessed(m.production.batch, tx);
      }
    }
    assert forall i :: 0 <= i < |m.blocks| ==> m'.blocks[i] == m.blocks[i];
  }

  lemma {:induction false} RunKeepsSettled(m: Machine, rest: seq<Step>, end: Machine, tx: Tx, first: nat)
    requires Settled(m, tx, first) && Reaches(m, rest, end)
    requires forall i :: 0 <= i < |rest| ==> !Overwrites(rest[i], KeyOf(tx))
    ensures Settled(end, tx, first)
    decreases |rest|
  {
    if rest != [] {
      StepKeepsSettled(m, rest[0], tx, first);
      RunKeepsSettled(Take(m, rest[0]), rest[1..], end, tx, first);
    }
  }

  lemma SubmitIsSettled(mid: Machine, tx: Tx)
    requires LastBlockIsBatch(mid)
    ensures Settled(Take(mid, Submit(tx)), tx, BlocksBefore(mid))
  {
    if mid.production.Sealed? && Holds(mid.production.batch, tx) {
      HeldIsProcessed(mid.production.batch, tx);
    }
  }

  /**
   And a last entry that is not lost is at each moment either waiting or in
   exactly one of the blocks from the one of the production under way at its
   submission on.
   */
  lemma LastSubmissionIsBlockedOnce(before: seq<Step>, mid: Machine, tx: Tx, rest: seq<Step>, end: Machine)
    requires Reaches(EMPTY, before, mid) && Reaches(Take(mid, Submit(tx)), rest, end)
    requires forall i :: 0 <= i < |rest| ==> !Overwrites(rest[i], KeyOf(tx))
    ensures AtMostOneBlockFrom(end, tx, BlocksBefore(mid))
    ensures InBlockFrom(end, tx, BlocksBefore(mid)) ==> !Waiting(end, KeyOf(tx))
  {
    SealedBlockIsLast(EMPTY, before, mid);
    SubmitIsSettled(mid, tx);
    RunKeepsSettled(Take(mid, Submit(tx)), rest, end, tx, BlocksBefore(mid));
  }

  /** Nothing under another key computes to the key. */
  ghost predicate KeyedAt(p: Pool, k: string) {
    forall j :: j in p ==> (KeyOf(p[j]) == k <==> j == k)
  }

  predicate HashedApart(steps: seq<Step>, k: string) {
    forall i :: 0 <= i < |steps| && steps[i].SubmitHashed? ==> !Touches(steps[i], k)
  }

  lemma {:induction false} RunKeepsKeyedAt(m: Machine, steps: seq<Step>, end: Machine, k: string)
    requires KeyedAt(m.pending, k) && KeyedAt(Batch(m), k)
    requires HashedApart(steps, k) && Reaches(m, steps, end)
    ensures KeyedAt(Batch(end), k)
    decreases |steps|
  {
    if steps != [] {
      assert steps[0].SubmitHashed? ==> !Touches(steps[0], k);
      RunKeepsKeyedAt(Take(m, steps[0]), steps[1..], end, k);
    }
  }

  /**
   For a key that no hashed entry meddles with: its last submission is lost if
   and only if it came with other content while a production that had collected
   the key, and went on to seal its block, was under way.
   */
  lemma ResubmissionIsLostIff(before: seq<Step>, mid: Machine, tx: Tx, rest: seq<Step>, end: Machine)
    requires Reaches(EMPTY, before, mid) && Reaches(Take(mid, Submit(tx)), rest, end)
    requires HashedApart(before, KeyOf(tx))
    requires forall i :: 0 <= i < |rest| ==> !Overwrites(rest[i], KeyOf(tx))
    ensures Lost(end, tx, BlocksBefore(mid))
            <==> Completes(mid.production, rest)
                 && KeyOf(tx) in mid.production.batch && mid.production.batch[KeyOf(tx)] != tx
  {
    var k := KeyOf(tx);
    RunKeepsKeyedAt(EMPTY, before, mid, k);
    LastSubmissionIsLostIff(before, mid, tx, rest, end);
    assert !mid.production.Idle? ==> (k in Processed(mid.production.batch) <==> k in mid.production.batch);
  }

  // ---------------------------------------------------------------------
  // Uninterrupted production
  // ---------------------------------------------------------------------

  /** The pool after one production; `ok` tells whether the block was accepted. */
  function Produce(p: Pool, ok: bool): Pool {
    if ok then p - Processed(p) else p
  }

  lemma ProduceIsARun(m: Machine, ok: bool)
    requires m.production.Idle?
    ensures Reaches(m, if ok then [Collect, Seal, Drain] else [Collect, Abort],
                    Machine(Produce(m.pending, ok), Idle, if ok then m.blocks + [m.pending] else m.blocks))
  {
    var m1 := Take(m, Collect);
    if ok {
      var steps := [Collect, Seal, Drain];
      assert steps[1..] == [Seal, Drain] && steps[1..][1..] == [Drain] && steps[1..][1..][1..] == [];
      var m2 := Take(m1, Seal);
      assert Reaches(Take(m2, Drain), [], Take(m2, Drain));
      assert Reaches(m2, [Drain], Take(m2, Drain)) by { assert [Drain][1..] == []; }
      assert Reaches(m1, [Seal, Drain], Take(m2, Drain)) by { assert [Seal, Drain][1..] == [Drain]; }
    } else {
      var steps := [Collect, Abort];
      assert steps[1..] == [Abort];
      assert Reaches(m1, [Abort], Take(m1, Abort)) by { assert [Abort][1..] == []; }
    }
  }

  ghost predicate KeyedPool(p: Pool) {
    forall k :: k in p ==> KeyOf(p[k]) == k
  }

  /** An accepted production empties a pool of keyed submissions. */
  lemma ProduceEmptiesKeyedPool(p: Pool)
    requires KeyedPool(p)
    ensures Produce(p, true) == map[] && Produce(p, false) == p
  {
    forall k | k in p
      ensures k in Processed(p)
    {
      assert KeyOf(p[k]) == k;
    }
  }

  /**
   A transaction entered under its hash by the other entry point is drained only
   if some collected transaction computes to that very text; otherwise it stays
   and is sealed into the next block again.
   */
  lemma HashedStaysUnlessAKeyMatches(p: Pool, tx: Tx)
    ensures var pool := p[tx.hash := tx];
            tx.hash in Produce(pool, true) <==> forall k :: k in pool ==> KeyOf(pool[k]) != tx.hash
  {
    var pool := p[tx.hash := tx];
    assert tx.hash in Processed(pool) <==> exists k :: k in pool && KeyOf(pool[k]) == tx.hash;
  }
}
