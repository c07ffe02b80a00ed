/**
 The optimistic parallel engine: transactions run against one starting store,
 are validated in ascending id order by comparing the slot versions recorded for
 them, and the valid ones are committed to the store.

 What is recorded is a parameter.  The program as written records nothing: the
 read set of a transaction is made empty and never filled.

 Contract execution is any deterministic program that reads slots one after the
 other, each depending on the answers so far, until it returns its write set or
 its gas is used up.
 */
module ParallelEngine {
  import opened Words
  import Store = OrderedStore
  import opened Wrappers

  type Slot = string
  type Value = seq<Byte>

  /** The slots of each contract, as a reload of the key space gives them. */
  type Storage = map<string, map<Slot, Value>>

  datatype Action = Fetch(slot: Slot) | Finish(writes: map<Slot, Value>)

  datatype Program = Program(gas: nat, decide: seq<Option<Value>> -> Action)

  /** A transaction as submitted: the contract it runs on and what it does. */
  datatype Request = Request(contract: string, program: Program)

  /** A transaction after speculative execution. */
  datatype Transaction = Transaction(
    contract: string, readSet: map<Slot, nat>, writeSet: map<Slot, Value>)

  function Slots(s: Storage, contract: string): map<Slot, Value> {
    if contract in s then s[contract] else map[]
  }

  function Lookup(s: Storage, contract: string, slot: Slot): Option<Value> {
    if slot in Slots(s, contract) then Some(Slots(s, contract)[slot]) else None
  }

  // ---------------------------------------------------------------------
  // Speculative execution
  // ---------------------------------------------------------------------

  /** The write set of the program, given the answers it has had so far. */
  function Execute(r: Request, s: Storage, answers: seq<Option<Value>>): map<Slot, Value>
    decreases r.program.gas - |answers|
  {
    match r.program.decide(answers)
    case Finish(writes) => writes
    case Fetch(slot) =>
      if |answers| >= r.program.gas then map[]
      else Execute(r, s, answers + [Lookup(s, r.contract, slot)])
  }

  /** The slots the program reads on the way. */
  function Reads(r: Request, s: Storage, answers: seq<Option<Value>>): set<Slot>
    decreases r.program.gas - |answers|
  {
    match r.program.decide(answers)
    case Finish(_) => {}
    case Fetch(slot) =>
      if |answers| >= r.program.gas then {}
      else {slot} + Reads(r, s, answers + [Lookup(s, r.contract, slot)])
  }

  function Version(versions: map<Slot, nat>, slot: Slot): nat {
    if slot in versions then versions[slot] else 0
  }

  /** Execution fills the write set; the read set is what else was recorded. */
  function Speculate(r: Request, s: Storage, record: map<Slot, nat>): Transaction {
    Transaction(r.contract, record, Execute(r, s, []))
  }

  /** A program that still asks when its gas is used up has written nothing. */
  lemma {:induction false} StarvedWritesNothing(r: Request, s: Storage, answers: seq<Option<Value>>)
    requires forall a: seq<Option<Value>> :: answers <= a ==> r.program.decide(a).Fetch?
    ensures Execute(r, s, answers) == map[]
    decreases r.program.gas - |answers|
  {
    if |answers| < r.program.gas {
      var slot := r.program.decide(answers).slot;
      StarvedWritesNothing(r, s, answers + [Lookup(s, r.contract, slot)]);
    }
  }

  /** A program depends on the store only through the slots it reads. */
  lemma {:induction false} ExecutionIsLocal(r: Request, s: Storage, s': Storage, answers: seq<Option<Value>>)
    requires forall slot :: slot in Reads(r, s, answers) ==>
               Lookup(s', r.contract, slot) == Lookup(s, r.contract, slot)
    ensures Execute(r, s', answers) == Execute(r, s, answers)
    ensures Reads(r, s', answers) == Reads(r, s, answers)
    decreases r.program.gas - |answers|
  {
    match r.program.decide(answers)
    case Finish(_) =>
    case Fetch(slot) =>
      if |answers| < r.program.gas {
        assert slot in Reads(r, s, answers);
        ExecutionIsLocal(r, s, s', answers + [Lookup(s, r.contract, slot)]);
      }
  }

  // ---------------------------------------------------------------------
  // Validation and commit
  // ---------------------------------------------------------------------

  predicate Valid(tx: Transaction, versions: map<Slot, nat>) {
    forall slot :: slot in tx.readSet ==> Version(versions, slot) == tx.readSet[slot]
  }

  /** The writes of one contract laid over the store. */
  function Persist(s: Storage, contract: string, writes: map<Slot, Value>): Storage {
    if writes == map[] then s else s[contract := Slots(s, contract) + writes]
  }

  function Bump(versions: map<Slot, nat>, writes: map<Slot, Value>): map<Slot, nat> {
    versions + map slot | slot in writes :: 1
  }

  lemma LayOneMore(base: map<Slot, Value>, done: map<Slot, Value>, slot: Slot, v: Value)
    ensures base + done[slot := v] == (base + done)[slot := v]
  {
  }

  lemma BumpOneMore(versions: map<Slot, nat>, done: map<Slot, Value>, slot: Slot, v: Value)
    ensures Bump(versions, done[slot := v]) == Bump(versions, done)[slot := 1]
  {
  }

  datatype Outcome = Outcome(store: Storage, versions: map<Slot, nat>, verdicts: seq<bool>)

  /** `configured` says whether the VM has a storage manager to write to. */
  function CommitOne(o: Outcome, tx: Transaction, configured: bool): Outcome {
    if !Valid(tx, o.versions) then o.(verdicts := o.verdicts + [false])
    else if !configured then o.(verdicts := o.verdicts + [true])
    else Outcome(Persist(o.store, tx.contract, tx.writeSet),
                 Bump(o.versions, tx.writeSet),
                 o.verdicts + [true])
  }

  /** The pass over the first `n` of the transactions, in the order of `ids`. */
  function Pass(active: map<nat, Transaction>, ids: seq<nat>, n: nat, start: Outcome, configured: bool): Outcome
    requires n <= |ids| && forall i :: 0 <= i < |ids| ==> ids[i] in active
  {
    if n == 0 then start
    else CommitOne(Pass(active, ids, n - 1, start, configured), active[ids[n - 1]], configured)
  }

  // ---------------------------------------------------------------------
  // Ascending ids
  // ---------------------------------------------------------------------

  ghost function Least(s: set<nat>): (m: nat)
    requires s != {}
    ensures m in s && forall x :: x in s ==> m <= x
  {
    var y :| y in s;
    if s == {y} then y
    else
      var m := Least(s - {y});
      assert forall x :: x in s ==> x == y || x in s - {y};
      if y < m then y else m
  }

  /** The ids in ascending order. */
  ghost function Ids(s: set<nat>): (ids: seq<nat>)
    ensures forall i :: 0 <= i < |ids| ==> ids[i] in s
  {
    if s == {} then [] else [Least(s)] + Ids(s - {Least(s)})
  }

  lemma {:induction false} IdsAscend(s: set<nat>)
    ensures forall i, j :: 0 <= i < j < |Ids(s)| ==> Ids(s)[i] < Ids(s)[j]
    ensures forall x :: x in s ==> x in Ids(s)
  {
    if s != {} {
      IdsAscend(s - {Least(s)});
      assert forall x :: x in s ==> x == Least(s) || x in s - {Least(s)};
    }
  }

  method SortIds(keys: set<nat>) returns (ids: seq<nat>)
    ensures ids == Ids(keys)
  {
    ids := [];
    var todo := keys;
    while todo != {}
      invariant ids + Ids(todo) == Ids(keys)
      decreases |todo|
    {
      ghost var least := Least(todo);
      var id :| id in todo && forall x :: x in todo ==> id <= x;
      assert id == least;
      ids := ids + [id];
      todo := todo - {id};
    }
  }

  /** Writes the slots one by one, in any order, and marks each with version 1. */
  method WriteSlots(slots: map<Slot, Value>, versions: map<Slot, nat>, writes: map<Slot, Value>)
    returns (slots': map<Slot, Value>, versions': map<Slot, nat>)
    ensures slots' == slots + writes
    ensures versions' == Bump(versions, writes)
  {
    slots', versions' := slots, versions;
    var todo := writes.Keys;
    ghost var done: map<Slot, Value> := map[];
    assert Bump(versions, done) == versions;
    while todo != {}
      invariant PartOf(done, writes, todo)
      invariant slots' == slots + done
      invariant versions' == Bump(versions, done)
      decreases todo
    {
      var slot :| slot in todo;
      LayOneMore(slots, done, slot, writes[slot]);
      BumpOneMore(versions, done, slot, writes[slot]);
      slots' := slots'[slot := writes[slot]];
      versions' := versions'[slot := 1];
      done := done[slot := writes[slot]];
      todo := todo - {slot};
    }
    PartOfAll(done, writes);
  }

  /** `done` is `writes` without the slots of `todo`. */
  ghost predicate PartOf(done: map<Slot, Value>, writes: map<Slot, Value>, todo: set<Slot>) {
    && todo <= writes.Keys
    && done.Keys == writes.Keys - todo
    && forall slot :: slot in done ==> done[slot] == writes[slot]
  }

  lemma PartOfAll(done: map<Slot, Value>, writes: map<Slot, Value>)
    requires PartOf(done, writes, {})
    ensures done == writes
  {
  }

  // ---------------------------------------------------------------------
  // The engine object
  // ---------------------------------------------------------------------

  class OptimisticParallelEngine {
    var storageVersions: map<Slot, nat>
    var activeTransactions: map<nat, Transaction>
    var store: Storage
    const configured: bool

    constructor (configured: bool, store: Storage)
      ensures this.configured == configured && this.store == store
      ensures storageVersions == map[] && activeTransactions == map[]
    {
      this.configured := configured;
      this.store := store;
      storageVersions, activeTransactions := map[], map[];
    }

    method SubmitTransaction(id: nat, tx: Transaction)
      modifies this`activeTransactions
      ensures activeTransactions == old(activeTransactions)[id := tx]
    {
      activeTransactions := activeTransactions[id := tx];
    }

    method ValidateTransactionConflicts(tx: Transaction) returns (ok: bool)
      ensures ok == Valid(tx, storageVersions)
    {
      var todo := tx.readSet.Keys;
      while todo != {}
        invariant todo <= tx.readSet.Keys
        invariant forall slot :: slot in tx.readSet.Keys - todo ==>
                    Version(storageVersions, slot) == tx.readSet[slot]
        decreases |todo|
      {
        var slot :| slot in todo;
        var current := if slot in storageVersions then storageVersions[slot] else 0;
        if current != tx.readSet[slot] {
          return false;
        }
        todo := todo - {slot};
      }
      return true;
    }

    /** Commits the write set; fails without a storage manager. */
    method CommitTransactionChanges(tx: Transaction) returns (ok: bool)
      modifies this`store, this`storageVersions
      ensures ok <==> configured || tx.writeSet == map[]
      ensures store == if configured then Persist(old(store), tx.contract, tx.writeSet) else old(store)
      ensures storageVersions == if configured then Bump(old(storageVersions), tx.writeSet)
                                 else old(storageVersions)
    {
      if tx.writeSet == map[] {
        return true;
      }
      if !configured {
        return false;
      }
      var contractStorage := Slots(store, tx.contract);
      contractStorage, storageVersions := WriteSlots(contractStorage, storageVersions, tx.writeSet);
      store := store[tx.contract := contractStorage];
      return true;
    }

    /** The verdict of each transaction; what the commit answers is not looked at. */
    method ValidateAndCommitBatch() returns (verdicts: seq<bool>)
      modifies this`store, this`storageVersions
      ensures Outcome(store, storageVersions, verdicts)
              == Pass(activeTransactions, Ids(activeTransactions.Keys), |Ids(activeTransactions.Keys)|,
                      Outcome(old(store), old(storageVersions), []), configured)
    {
      var ids := SortIds(activeTransactions.Keys);
      verdicts := [];
      for i := 0 to |ids|
        invariant Outcome(store, storageVersions, verdicts)
               == Pass(activeTransactions, ids, i, Outcome(old(store), old(storageVersions), []), configured)
      {
        var tx := activeTransactions[ids[i]];
        var isValid := ValidateTransactionConflicts(tx);
        if isValid {
          var _ := CommitTransactionChanges(tx);
          verdicts := verdicts + [true];
        } else {
          verdicts := verdicts + [false];
        }
      }
    }
  }

  // ---------------------------------------------------------------------
  // Serializability of one pass
  // ---------------------------------------------------------------------

  /**
   One batch: its requests, the store and versions they all start from, and the
   slot versions recorded for each of them.
   */
  datatype Batch = Batch(
    requests: map<nat, Request>, store: Storage, versions: map<Slot, nat>, records: map<nat, map<Slot, nat>>)

  predicate IdsOf(b: Batch, ids: seq<nat>) {
    forall i :: 0 <= i < |ids| ==> ids[i] in b.requests
  }

  function Record(b: Batch, id: nat): map<Slot, nat> {
    if id in b.records then b.records[id] else map[]
  }

  function Tx(b: Batch, id: nat): Transaction
    requires id in b.requests
  {
    Speculate(b.requests[id], b.store, Record(b, id))
  }

  /** All requests executed against the same starting store. */
  function Speculative(b: Batch): map<nat, Transaction> {
    map id | id in b.requests :: Tx(b, id)
  }

  function ReadBy(b: Batch, id: nat): set<Slot>
    requires id in b.requests
  {
    Reads(b.requests[id], b.store, [])
  }

  /** The engine's pass over the first `n` ids. */
  function After(b: Batch, ids: seq<nat>, n: nat): Outcome
    requires n <= |ids| && IdsOf(b, ids)
  {
    Pass(Speculative(b), ids, n, Outcome(b.store, b.versions, []), true)
  }

  // What the pass has done after `n` ids, as its verdicts tell it.

  function StoreAt(b: Batch, ids: seq<nat>, v: seq<bool>, n: nat): Storage
    requires n <= |ids| && IdsOf(b, ids) && n <= |v|
  {
    if n == 0 then b.store
    else
      var s := StoreAt(b, ids, v, n - 1);
      var tx := Tx(b, ids[n - 1]);
      if v[n - 1] then Persist(s, tx.contract, tx.writeSet) else s
  }

  function VersionsAt(b: Batch, ids: seq<nat>, v: seq<bool>, n: nat): map<Slot, nat>
    requires n <= |ids| && IdsOf(b, ids) && n <= |v|
  {
    if n == 0 then b.versions
    else
      var versions := VersionsAt(b, ids, v, n - 1);
      if v[n - 1] then Bump(versions, Tx(b, ids[n - 1]).writeSet) else versions
  }

  /** The slots, whatever the contract, that commits among the first `n` wrote. */
  function WrittenAt(b: Batch, ids: seq<nat>, v: seq<bool>, n: nat): set<Slot>
    requires n <= |ids| && IdsOf(b, ids) && n <= |v|
  {
    if n == 0 then {}
    else WrittenAt(b, ids, v, n - 1) + (if v[n - 1] then Tx(b, ids[n - 1]).writeSet.Keys else {})
  }

  /** The reference: only the committed transactions, run one after the other. */
  function Serial(b: Batch, ids: seq<nat>, v: seq<bool>, n: nat): Storage
    requires n <= |ids| && IdsOf(b, ids) && n <= |v|
  {
    if n == 0 then b.store
    else
      var s := Serial(b, ids, v, n - 1);
      var r := b.requests[ids[n - 1]];
      if v[n - 1] then Persist(s, r.contract, Execute(r, s, [])) else s
  }

  lemma {:induction false} PrefixDecides(b: Batch, ids: seq<nat>, v: seq<bool>, x: bool, n: nat)
    requires n <= |ids| && IdsOf(b, ids) && n <= |v|
    ensures StoreAt(b, ids, v + [x], n) == StoreAt(b, ids, v, n)
    ensures VersionsAt(b, ids, v + [x], n) == VersionsAt(b, ids, v, n)
  {
    if n > 0 {
      PrefixDecides(b, ids, v, x, n - 1);
    }
  }

  /** A verdict is right when the transaction is valid against the versions of its moment. */
  predicate RightVerdict(b: Batch, ids: seq<nat>, v: seq<bool>, i: nat)
    requires i < |ids| && IdsOf(b, ids) && i < |v|
  {
    v[i] == Valid(Tx(b, ids[i]), VersionsAt(b, ids, v, i))
  }

  lemma AfterOneMore(b: Batch, ids: seq<nat>, n: nat)
    requires 0 < n <= |ids| && IdsOf(b, ids)
    ensures var o, tx := After(b, ids, n - 1), Tx(b, ids[n - 1]);
            var x := Valid(tx, o.versions);
            After(b, ids, n)
            == Outcome(if x then Persist(o.store, tx.contract, tx.writeSet) else o.store,
                       if x then Bump(o.versions, tx.writeSet) else o.versions,
                       o.verdicts + [x])
  {
  }

  lemma VerdictsStayRight(b: Batch, ids: seq<nat>, v: seq<bool>, x: bool)
    requires |v| < |ids| && IdsOf(b, ids)
    requires forall i :: 0 <= i < |v| ==> RightVerdict(b, ids, v, i)
    requires x == Valid(Tx(b, ids[|v|]), VersionsAt(b, ids, v, |v|))
    ensures forall i :: 0 <= i <= |v| ==> RightVerdict(b, ids, v + [x], i)
  {
    forall i | 0 <= i <= |v|
      ensures RightVerdict(b, ids, v + [x], i)
    {
      PrefixDecides(b, ids, v, x, i);
      assert i < |v| ==> RightVerdict(b, ids, v, i);
    }
  }

  /** The engine's pass is the one its verdicts tell, and its verdicts are right. */
  lemma {:induction false} PassFollowsVerdicts(b: Batch, ids: seq<nat>, n: nat)
    requires n <= |ids| && IdsOf(b, ids)
    ensures var o := After(b, ids, n);
            && |o.verdicts| == n
            && o.store == StoreAt(b, ids, o.verdicts, n)
            && o.versions == VersionsAt(b, ids, o.verdicts, n)
            && forall i :: 0 <= i < n ==> RightVerdict(b, ids, o.verdicts, i)
  {
    if n > 0 {
      PassFollowsVerdicts(b, ids, n - 1);
      var v := After(b, ids, n - 1).verdicts;
      var x := Valid(Tx(b, ids[n - 1]), After(b, ids, n - 1).versions);
      AfterOneMore(b, ids, n);
      PrefixDecides(b, ids, v, x, n - 1);
      VerdictsStayRight(b, ids, v, x);
    }
  }

  lemma BumpSets(versions: map<Slot, nat>, writes: map<Slot, Value>, slot: Slot)
    ensures Version(Bump(versions, writes), slot) == if slot in writes then 1 else Version(versions, slot)
  {
  }

  lemma {:induction false} VersionsTellWritten(b: Batch, ids: seq<nat>, v: seq<bool>, n: nat, slot: Slot)
    requires n <= |ids| && IdsOf(b, ids) && n <= |v|
    ensures Version(VersionsAt(b, ids, v, n), slot)
            == if slot in WrittenAt(b, ids, v, n) then 1 else Version(b.versions, slot)
  {
    if n > 0 {
      VersionsTellWritten(b, ids, v, n - 1, slot);
      BumpSets(VersionsAt(b, ids, v, n - 1), Tx(b, ids[n - 1]).writeSet, slot);
    }
  }

  lemma PersistElsewhere(s: Storage, contract: string, writes: map<Slot, Value>, other: string, slot: Slot)
    requires slot !in writes
    ensures Lookup(Persist(s, contract, writes), other, slot) == Lookup(s, other, slot)
  {
  }

  lemma {:induction false} UnwrittenSlotsKept(
    b: Batch, ids: seq<nat>, v: seq<bool>, n: nat, contract: string, slot: Slot)
    requires n <= |ids| && IdsOf(b, ids) && n <= |v| && slot !in WrittenAt(b, ids, v, n)
    ensures Lookup(StoreAt(b, ids, v, n), contract, slot) == Lookup(b.store, contract, slot)
  {
    if n > 0 {
      UnwrittenSlotsKept(b, ids, v, n - 1, contract, slot);
      if v[n - 1] {
        var tx := Tx(b, ids[n - 1]);
        PersistElsewhere(StoreAt(b, ids, v, n - 1), tx.contract, tx.writeSet, contract, slot);
      }
    }
  }

  /**
   Exactly which transactions are valid, whatever was recorded: those whose every
   recorded version is 1 where an earlier commit of the pass wrote the slot, and
   the starting version elsewhere.
   */
  lemma ValidationIsExact(b: Batch, ids: seq<nat>, v: seq<bool>, i: nat)
    requires i < |ids| && IdsOf(b, ids) && i < |v|
    ensures var record := Record(b, ids[i]);
            Valid(Tx(b, ids[i]), VersionsAt(b, ids, v, i))
            <==> forall slot :: slot in record ==>
                   record[slot] == if slot in WrittenAt(b, ids, v, i) then 1 else Version(b.versions, slot)
  {
    forall slot
      ensures Version(VersionsAt(b, ids, v, i), slot)
              == if slot in WrittenAt(b, ids, v, i) then 1 else Version(b.versions, slot)
    {
      VersionsTellWritten(b, ids, v, i, slot);
    }
  }

  /** As written: with nothing recorded every transaction of every pass commits. */
  lemma NothingRecordedCommitsAll(b: Batch, ids: seq<nat>)
    requires IdsOf(b, ids) && forall i :: 0 <= i < |ids| ==> Record(b, ids[i]) == map[]
    ensures var v := After(b, ids, |ids|).verdicts;
            |v| == |ids| && forall i :: 0 <= i < |ids| ==> v[i]
  {
    PassFollowsVerdicts(b, ids, |ids|);
    var v := After(b, ids, |ids|).verdicts;
    forall i | 0 <= i < |ids|
      ensures v[i]
    {
      assert RightVerdict(b, ids, v, i);
      assert Record(b, ids[i]) == map[];
    }
  }

  predicate ReadsStale(b: Batch, ids: seq<nat>, v: seq<bool>, i: nat)
    requires i < |ids| && IdsOf(b, ids) && i < |v|
  {
    !(ReadBy(b, ids[i]) !! WrittenAt(b, ids, v, i))
  }

  /** Without a stale read, running again on the store as it is now writes the same. */
  lemma SameWritesNow(b: Batch, ids: seq<nat>, v: seq<bool>, i: nat)
    requires i < |ids| && IdsOf(b, ids) && i < |v| && !ReadsStale(b, ids, v, i)
    ensures Execute(b.requests[ids[i]], StoreAt(b, ids, v, i), []) == Tx(b, ids[i]).writeSet
  {
    var r := b.requests[ids[i]];
    var now := StoreAt(b, ids, v, i);
    forall slot | slot in Reads(r, b.store, [])
      ensures Lookup(now, r.contract, slot) == Lookup(b.store, r.contract, slot)
    {
      assert slot in ReadBy(b, ids[i]);
      UnwrittenSlotsKept(b, ids, v, i, r.contract, slot);
    }
    ExecutionIsLocal(r, b.store, now, []);
  }

  lemma {:induction false} PassIsSerial(b: Batch, ids: seq<nat>, v: seq<bool>, n: nat)
    requires n <= |ids| && IdsOf(b, ids) && n <= |v|
    requires forall i :: 0 <= i < n && v[i] ==> !ReadsStale(b, ids, v, i)
    ensures StoreAt(b, ids, v, n) == Serial(b, ids, v, n)
  {
    if n > 0 {
      PassIsSerial(b, ids, v, n - 1);
      if v[n - 1] {
        SameWritesNow(b, ids, v, n - 1);
      }
    }
  }

  /**
   A pass in which every slot read is on record, and not with version 1, ends in
   the store that running only its committed transactions serially, in ascending
   id order, ends in; none of them read a slot that an earlier one had written.
   */
  lemma CommittedPassIsSerializable(b: Batch, ids: seq<nat>)
    requires ids == Ids(b.requests.Keys)
    requires forall id, slot :: id in b.requests && slot in ReadBy(b, id) ==>
               slot in Record(b, id) && Record(b, id)[slot] != 1
    ensures var end := After(b, ids, |ids|);
            && |end.verdicts| == |ids|
            && end.store == Serial(b, ids, end.verdicts, |ids|)
            && forall i :: 0 <= i < |ids| && end.verdicts[i] ==> !ReadsStale(b, ids, end.verdicts, i)
  {
    PassFollowsVerdicts(b, ids, |ids|);
    var v := After(b, ids, |ids|).verdicts;
    forall i | 0 <= i < |ids| && v[i]
      ensures !ReadsStale(b, ids, v, i)
    {
      assert RightVerdict(b, ids, v, i);
      ValidationIsExact(b, ids, v, i);
    }
    PassIsSerial(b, ids, v, |ids|);
  }

  /**
   If all reads are recorded, the first pass from all-zero versions is
   serializable, and a transaction is rejected exactly when a slot on its record
   was written by an earlier committed one: when it read something stale, if
   nothing but its reads is on record.
   */
  lemma FirstPassIsSerializable(b: Batch, ids: seq<nat>)
    requires ids == Ids(b.requests.Keys)
    requires forall slot :: slot in b.versions ==> b.versions[slot] == 0
    requires forall id :: id in b.requests ==> ReadBy(b, id) <= Record(b, id).Keys
    requires forall id, slot :: id in b.requests && slot in Record(b, id) ==> Record(b, id)[slot] == 0
    ensures var end := After(b, ids, |ids|);
            && |end.verdicts| == |ids|
            && end.store == Serial(b, ids, end.verdicts, |ids|)
            && (forall i :: 0 <= i < |ids| ==>
                  (end.verdicts[i] <==> Record(b, ids[i]).Keys !! WrittenAt(b, ids, end.verdicts, i)))
            && (forall i :: 0 <= i < |ids| && Record(b, ids[i]).Keys == ReadBy(b, ids[i]) ==>
                  (end.verdicts[i] <==> !ReadsStale(b, ids, end.verdicts, i)))
  {
    CommittedPassIsSerializable(b, ids);
    PassFollowsVerdicts(b, ids, |ids|);
    var v := After(b, ids, |ids|).verdicts;
    forall i | 0 <= i < |ids|
      ensures v[i] <==> Record(b, ids[i]).Keys !! WrittenAt(b, ids, v, i)
    {
      assert RightVerdict(b, ids, v, i);
      ValidationIsExact(b, ids, v, i);
    }
  }

  /** A transaction whose records are all of slots at version 1 is always valid. */
  lemma CommittedSlotsNeverConflict(b: Batch, ids: seq<nat>, v: seq<bool>, i: nat)
    requires i < |ids| && IdsOf(b, ids) && i < |v|
    requires forall slot :: slot in Record(b, ids[i]) ==>
               Version(b.versions, slot) == 1 && Record(b, ids[i])[slot] == 1
    ensures Valid(Tx(b, ids[i]), VersionsAt(b, ids, v, i))
  {
    ValidationIsExact(b, ids, v, i);
  }

  // ---------------------------------------------------------------------
  // What has to be on record
  // ---------------------------------------------------------------------

  lemma IdsOfTwo()
    ensures Ids({0, 1}) == [0, 1]
  {
    var ids := Ids({0, 1});
    IdsAscend({0, 1});
    assert Least({0, 1}) == 0;
    assert {0, 1} - {0} == {1};
    assert Least({1}) == 1;
    assert {1} - {1} == {};
    assert Ids({1}) == [1] + Ids({});
  }

  /** The `i`-th transaction read what was written before it in the pass, and committed. */
  ghost predicate Accepts(b: Batch, ids: seq<nat>, i: nat)
    requires i < |ids| && IdsOf(b, ids)
  {
    var v := After(b, ids, |ids|).verdicts;
    |v| == |ids| && ReadsStale(b, ids, v, i) && v[i]
  }

  /** A record of the slots with the versions of the start. */
  function FaithfulRecord(versions: map<Slot, nat>, slots: set<Slot>): map<Slot, nat> {
    map slot | slot in slots :: Version(versions, slot)
  }

  /** In every batch from these versions in which the request is recorded so, it is rejected when stale. */
  ghost predicate StaleIsRejected(r: Request, s: Storage, versions: map<Slot, nat>, record: map<Slot, nat>) {
    forall b: Batch, ids: seq<nat>, i: nat ::
      i < |ids| && ids == Ids(b.requests.Keys) && b.store == s && b.versions == versions
      && b.requests[ids[i]] == r && Record(b, ids[i]) == record
      ==> !Accepts(b, ids, i)
  }

  function Writer(slot: Slot): Program {
    Program(0, (answers: seq<Option<Value>>) => Finish(map[slot := []]))
  }

  /** A batch of a writer of the slot, of which nothing is recorded, and then the request. */
  lemma WriteThenRun(r: Request, s: Storage, versions: map<Slot, nat>, record: map<Slot, nat>, slot: Slot)
    returns (b: Batch)
    ensures b.requests.Keys == {0, 1} && b.requests[1] == r && b.store == s && b.versions == versions
    ensures Record(b, 0) == map[] && Record(b, 1) == record
    ensures Tx(b, 0).writeSet.Keys == {slot}
  {
    var w := Request(r.contract, Writer(slot));
    b := Batch(map[0 := w, 1 := r], s, versions, map[1 := record]);
    assert Execute(w, s, []) == map[slot := []];
  }

  /** Both commit, though the request read what the writer wrote. */
  lemma WriterAndReaderCommit(b: Batch, v: seq<bool>, slots: set<Slot>, slot: Slot)
    requires 0 in b.requests && 1 in b.requests && |v| == 2
    requires RightVerdict(b, [0, 1], v, 0) && RightVerdict(b, [0, 1], v, 1)
    requires Tx(b, 0).writeSet.Keys == {slot} && Record(b, 0) == map[]
    requires Record(b, 1) == FaithfulRecord(b.versions, slots)
    requires slot in ReadBy(b, 1) && (slot !in slots || Version(b.versions, slot) == 1)
    ensures v[1] && ReadsStale(b, [0, 1], v, 1)
  {
    var ids := [0, 1];
    assert v[0];
    assert WrittenAt(b, ids, v, 0) == {};
    assert WrittenAt(b, ids, v, 1) == {slot};
    ValidationIsExact(b, ids, v, 1);
    assert slot in ReadBy(b, ids[1]) * WrittenAt(b, ids, v, 1);
  }

  lemma WriterAndReaderAccepts(b: Batch, slots: set<Slot>, slot: Slot)
    requires 0 in b.requests && 1 in b.requests
    requires Tx(b, 0).writeSet.Keys == {slot} && Record(b, 0) == map[]
    requires Record(b, 1) == FaithfulRecord(b.versions, slots)
    requires slot in ReadBy(b, 1) && (slot !in slots || Version(b.versions, slot) == 1)
    ensures Accepts(b, [0, 1], 1)
  {
    PassFollowsVerdicts(b, [0, 1], 2);
    var v := After(b, [0, 1], 2).verdicts;
    assert RightVerdict(b, [0, 1], v, 0) && RightVerdict(b, [0, 1], v, 1);
    WriterAndReaderCommit(b, v, slots, slot);
  }

  lemma AcceptedIsNotRejected(b: Batch, ids: seq<nat>, i: nat)
    requires i < |ids| && ids == Ids(b.requests.Keys) && Accepts(b, ids, i)
    ensures !StaleIsRejected(b.requests[ids[i]], b.store, b.versions, Record(b, ids[i]))
  {
  }

  lemma UnwatchedIsAccepted(r: Request, s: Storage, versions: map<Slot, nat>, slots: set<Slot>, slot: Slot)
    requires slot in Reads(r, s, []) && (slot !in slots || Version(versions, slot) == 1)
    ensures !StaleIsRejected(r, s, versions, FaithfulRecord(versions, slots))
  {
    var b := WriteThenRun(r, s, versions, FaithfulRecord(versions, slots), slot);
    WriterAndReaderAccepts(b, slots, slot);
    IdsOfTwo();
    AcceptedIsNotRejected(b, [0, 1], 1);
  }

  /**
   Exactly what must be recorded: validation rejects a request whenever it read a
   slot written before in the pass, in every batch from these versions, if and
   only if the slots it reads are on record and none stands at version 1.  With
   nothing recorded, that is so only for requests that read nothing.
   */
  lemma StaleIsRejectedIff(r: Request, s: Storage, versions: map<Slot, nat>, slots: set<Slot>)
    ensures StaleIsRejected(r, s, versions, FaithfulRecord(versions, slots))
            <==> forall slot :: slot in Reads(r, s, []) ==> slot in slots && Version(versions, slot) != 1
  {
    var record := FaithfulRecord(versions, slots);
    if slot :| slot in Reads(r, s, []) && !(slot in slots && Version(versions, slot) != 1) {
      UnwatchedIsAccepted(r, s, versions, slots, slot);
    } else {
      forall b: Batch, ids: seq<nat>, i: nat |
        i < |ids| && ids == Ids(b.requests.Keys) && b.store == s && b.versions == versions
        && b.requests[ids[i]] == r && Record(b, ids[i]) == record
        ensures !Accepts(b, ids, i)
      {
        PassFollowsVerdicts(b, ids, |ids|);
        var v := After(b, ids, |ids|).verdicts;
        assert RightVerdict(b, ids, v, i);
        ValidationIsExact(b, ids, v, i);
      }
    }
  }

  // ---------------------------------------------------------------------
  // When every batch is serializable
  // ---------------------------------------------------------------------

  ghost predicate Serializable(b: Batch) {
    var ids := Ids(b.requests.Keys);
    var end := After(b, ids, |ids|);
    |end.verdicts| == |ids| && end.store == Serial(b, ids, end.verdicts, |ids|)
  }

  /** Of the slots read, exactly the tracked ones are recorded. */
  ghost predicate Tracks(b: Batch, tracked: Slot -> bool) {
    forall id :: id in b.requests ==>
      Record(b, id) == FaithfulRecord(b.versions, set slot | slot in ReadBy(b, id) && tracked(slot))
  }

  ghost predicate AllSerializable(tracked: Slot -> bool, versions: map<Slot, nat>) {
    forall b: Batch :: b.versions == versions && Tracks(b, tracked) ==> Serializable(b)
  }

  /** A counter kept in unary: read the slot, append one, write it back. */
  function Increment(x: Slot): Program {
    Program(1, (answers: seq<Option<Value>>) =>
      if |answers| == 0 then Fetch(x)
      else Finish(map[x := (if answers[0].Some? then answers[0].value else []) + [1]]))
  }

  function Counter(x: Slot, v: Value): Storage {
    map["c" := map[x := v]]
  }

  lemma IncrementRuns(x: Slot, v: Value)
    ensures Execute(Request("c", Increment(x)), Counter(x, v), []) == map[x := v + [1]]
    ensures Reads(Request("c", Increment(x)), Counter(x, v), []) == {x}
  {
    var r, s := Request("c", Increment(x)), Counter(x, v);
    var answers := [Lookup(s, "c", x)];
    assert [] + answers == answers;
    assert Execute(r, s, answers) == map[x := v + [1]];
    assert Reads(r, s, answers) == {};
  }

  lemma PersistCounter(x: Slot, v: Value, w: Value)
    ensures Persist(Counter(x, v), "c", map[x := w]) == Counter(x, w)
  {
    assert map[x := v] + map[x := w] == map[x := w];
    assert map[x := w] != map[] by { assert x in map[x := w]; }
  }

  /** Two increments of the slot, which is recorded if it is tracked. */
  ghost function Increments(x: Slot, tracked: Slot -> bool, versions: map<Slot, nat>): Batch {
    var r := Request("c", Increment(x));
    var record := FaithfulRecord(versions, set slot | slot in {x} && tracked(slot));
    Batch(map[0 := r, 1 := r], Counter(x, [1]), versions, map[0 := record, 1 := record])
  }

  lemma BothCommit(b: Batch)
    requires IdsOf(b, [0, 1])
    requires forall id, slot :: id in b.requests && slot in Record(b, id) ==>
               Version(b.versions, slot) == 1 && Record(b, id)[slot] == 1
    ensures After(b, [0, 1], 2).verdicts == [true, true]
  {
    var ids := [0, 1];
    PassFollowsVerdicts(b, ids, 2);
    var v := After(b, ids, 2).verdicts;
    assert ids[0] in b.requests && ids[1] in b.requests;
    CommittedSlotsNeverConflict(b, ids, v, 0);
    CommittedSlotsNeverConflict(b, ids, v, 1);
    assert RightVerdict(b, ids, v, 0) && RightVerdict(b, ids, v, 1);
  }

  lemma IncrementsCommit(x: Slot, tracked: Slot -> bool, versions: map<Slot, nat>)
    requires !tracked(x) || Version(versions, x) == 1
    ensures var b := Increments(x, tracked, versions);
            IdsOf(b, [0, 1]) && After(b, [0, 1], 2).verdicts == [true, true]
  {
    BothCommit(Increments(x, tracked, versions));
  }

  lemma IncrementsStore(b: Batch, x: Slot, tracked: Slot -> bool, v: seq<bool>)
    requires b == Increments(x, tracked, b.versions) && v == [true, true]
    ensures StoreAt(b, [0, 1], v, 2) == Counter(x, [1, 1])
  {
    var ids := [0, 1];
    var one: Value, two: Value := [1], [1, 1];
    assert one + [1] == two;
    IncrementRuns(x, one);
    assert Tx(b, 0).writeSet == map[x := two] && Tx(b, 1).writeSet == map[x := two];
    PersistCounter(x, one, two);
    PersistCounter(x, two, two);
    assert StoreAt(b, ids, v, 1) == Counter(x, two);
  }

  lemma IncrementsSerially(b: Batch, x: Slot, tracked: Slot -> bool, v: seq<bool>)
    requires b == Increments(x, tracked, b.versions) && v == [true, true]
    ensures Serial(b, [0, 1], v, 2) == Counter(x, [1, 1, 1])
  {
    var ids := [0, 1];
    var one: Value, two: Value, three: Value := [1], [1, 1], [1, 1, 1];
    assert one + [1] == two && two + [1] == three;
    IncrementRuns(x, one);
    IncrementRuns(x, two);
    PersistCounter(x, one, two);
    PersistCounter(x, two, three);
    assert Serial(b, ids, v, 1) == Counter(x, two);
  }

  lemma IncrementIsTracked(b: Batch, x: Slot, tracked: Slot -> bool, id: nat)
    requires b == Increments(x, tracked, b.versions) && id in b.requests
    ensures Record(b, id) == FaithfulRecord(b.versions, set slot | slot in ReadBy(b, id) && tracked(slot))
  {
    var one: Value := [1];
    assert b.requests[id] == Request("c", Increment(x)) && b.store == Counter(x, one);
    IncrementRuns(x, one);
    assert ReadBy(b, id) == {x};
  }

  lemma IncrementsAreTracked(x: Slot, tracked: Slot -> bool, versions: map<Slot, nat>)
    ensures var b := Increments(x, tracked, versions);
            Tracks(b, tracked) && IdsOf(b, [0, 1]) && [0, 1] == Ids(b.requests.Keys)
  {
    var b := Increments(x, tracked, versions);
    forall id | id in b.requests
      ensures Record(b, id) == FaithfulRecord(b.versions, set slot | slot in ReadBy(b, id) && tracked(slot))
    {
      IncrementIsTracked(b, x, tracked, id);
    }
    assert b.requests.Keys == {0, 1};
    IdsOfTwo();
  }

  /**
   On any slot that is not recorded, or stands at version 1, an update can be
   lost: of two increments that both commit, one leaves no trace.
   */
  lemma UpdatesAreLost(x: Slot, tracked: Slot -> bool, versions: map<Slot, nat>)
    requires !tracked(x) || Version(versions, x) == 1
    ensures var b, ids := Increments(x, tracked, versions), [0, 1];
            && IdsOf(b, ids) && ids == Ids(b.requests.Keys)
            && Tracks(b, tracked)
            && var end := After(b, ids, 2);
               && end.verdicts == [true, true]
               && end.store == Counter(x, [1, 1])
               && Serial(b, ids, end.verdicts, 2) == Counter(x, [1, 1, 1])
  {
    var b, ids := Increments(x, tracked, versions), [0, 1];
    IncrementsAreTracked(x, tracked, versions);
    IncrementsCommit(x, tracked, versions);
    PassFollowsVerdicts(b, ids, 2);
    IncrementsStore(b, x, tracked, [true, true]);
    IncrementsSerially(b, x, tracked, [true, true]);
  }

  lemma CountersDiffer(x: Slot)
    ensures Counter(x, [1, 1]) != Counter(x, [1, 1, 1])
  {
    var two: Value, three: Value := [1, 1], [1, 1, 1];
    assert |two| != |three|;
    assert Counter(x, two)["c"][x] == two && Counter(x, three)["c"][x] == three;
  }

  /**
   The exact reach of the engine: every batch that starts from these versions,
   whatever its store and its programs, is serializable if and only if every slot
   is tracked and none stands at version 1.
   */
  lemma AllSerializableIff(tracked: Slot -> bool, versions: map<Slot, nat>)
    ensures AllSerializable(tracked, versions) <==> forall slot :: tracked(slot) && Version(versions, slot) != 1
  {
    if x :| !(tracked(x) && Version(versions, x) != 1) {
      UpdatesAreLost(x, tracked, versions);
      CountersDiffer(x);
      assert !Serializable(Increments(x, tracked, versions));
    } else {
      forall b: Batch | b.versions == versions && Tracks(b, tracked)
        ensures Serializable(b)
      {
        CommittedPassIsSerializable(b, Ids(b.requests.Keys));
      }
    }
  }

  const EVERY: Slot -> bool := (_: Slot) => true
  const NONE: Slot -> bool := (_: Slot) => false

  /** With all reads recorded, a round is safe if and only if no slot has been committed before. */
  lemma RecordedRoundIsSerializableIff(versions: map<Slot, nat>)
    ensures AllSerializable(EVERY, versions) <==> forall slot :: Version(versions, slot) != 1
  {
    AllSerializableIff(EVERY, versions);
  }

  /** Two increments of a slot, nothing recorded. */
  ghost function AsWritten(x: Slot, versions: map<Slot, nat>): (b: Batch)
    ensures forall id :: id in b.requests ==> Record(b, id) == map[]
    ensures IdsOf(b, [0, 1])
  {
    Increments(x, NONE, versions)
  }

  /**
   As written, with nothing recorded, the first round already loses updates: from
   any versions two increments of any slot both commit and one is lost.
   */
  lemma AsWrittenLosesUpdates(x: Slot, versions: map<Slot, nat>)
    ensures var b := AsWritten(x, versions);
            && After(b, [0, 1], 2).verdicts == [true, true]
            && After(b, [0, 1], 2).store == Counter(x, [1, 1])
            && Serial(b, [0, 1], [true, true], 2) == Counter(x, [1, 1, 1])
  {
    UpdatesAreLost(x, NONE, versions);
  }

  /** So no versions whatever make every batch safe. */
  lemma AsWrittenIsNotSerializable(versions: map<Slot, nat>)
    ensures !AllSerializable(NONE, versions)
  {
    AllSerializableIff(NONE, versions);
    assert !NONE("");
  }

  // ---------------------------------------------------------------------
  // Which batches are safe whatever is recorded
  // ---------------------------------------------------------------------

  /** `id` reads no slot of its contract that the transaction `other` writes. */
  ghost predicate Undisturbed(b: Batch, id: nat, other: nat)
    requires id in b.requests && other in b.requests
  {
    b.requests[id].contract == b.requests[other].contract ==> ReadBy(b, id) !! Tx(b, other).writeSet.Keys
  }

  /** No transaction reads what one with a lower id writes. */
  ghost predicate Independent(b: Batch) {
    forall id, other :: id in b.requests && other in b.requests && other < id ==> Undisturbed(b, id, other)
  }

  lemma PersistForeign(s: Storage, contract: string, writes: map<Slot, Value>, other: string, slot: Slot)
    requires contract == other ==> slot !in writes
    ensures Lookup(Persist(s, contract, writes), other, slot) == Lookup(s, other, slot)
  {
    if contract == other {
      PersistElsewhere(s, contract, writes, other, slot);
    }
  }

  /** A slot that none of the first `n` transactions of its contract writes is as it was. */
  lemma {:induction false} UndisturbedSlotKept(
    b: Batch, ids: seq<nat>, v: seq<bool>, n: nat, contract: string, slot: Slot)
    requires n <= |ids| && IdsOf(b, ids) && n <= |v|
    requires forall j :: 0 <= j < n && b.requests[ids[j]].contract == contract ==>
               slot !in Tx(b, ids[j]).writeSet
    ensures Lookup(StoreAt(b, ids, v, n), contract, slot) == Lookup(b.store, contract, slot)
  {
    if n > 0 {
      UndisturbedSlotKept(b, ids, v, n - 1, contract, slot);
      if v[n - 1] {
        var tx := Tx(b, ids[n - 1]);
        PersistForeign(StoreAt(b, ids, v, n - 1), tx.contract, tx.writeSet, contract, slot);
      }
    }
  }

  lemma UndisturbedWritesNow(b: Batch, ids: seq<nat>, v: seq<bool>, i: nat)
    requires i < |ids| && IdsOf(b, ids) && i < |v|
    requires forall j :: 0 <= j < i ==> Undisturbed(b, ids[i], ids[j])
    ensures Execute(b.requests[ids[i]], StoreAt(b, ids, v, i), []) == Tx(b, ids[i]).writeSet
  {
    var r := b.requests[ids[i]];
    var now := StoreAt(b, ids, v, i);
    forall slot | slot in Reads(r, b.store, [])
      ensures Lookup(now, r.contract, slot) == Lookup(b.store, r.contract, slot)
    {
      assert slot in ReadBy(b, ids[i]);
      forall j | 0 <= j < i && b.requests[ids[j]].contract == r.contract
        ensures slot !in Tx(b, ids[j]).writeSet
      {
        assert Undisturbed(b, ids[i], ids[j]);
      }
      UndisturbedSlotKept(b, ids, v, i, r.contract, slot);
    }
    ExecutionIsLocal(r, b.store, now, []);
  }

  lemma {:induction false} UndisturbedPassIsSerial(b: Batch, ids: seq<nat>, v: seq<bool>, n: nat)
    requires n <= |ids| && IdsOf(b, ids) && n <= |v|
    requires forall i, j :: 0 <= j < i < n ==> Undisturbed(b, ids[i], ids[j])
    ensures StoreAt(b, ids, v, n) == Serial(b, ids, v, n)
  {
    if n > 0 {
      UndisturbedPassIsSerial(b, ids, v, n - 1);
      UndisturbedWritesNow(b, ids, v, n - 1);
    }
  }

  /**
   Which batches are safe although nothing is checked: whatever is recorded, a
   batch in which no transaction reads a slot that a lower id writes in the same
   contract is serializable; as written, with nothing recorded, all of it commits.
   */
  lemma IndependentIsSerializable(b: Batch)
    requires Independent(b)
    ensures Serializable(b)
    ensures (forall id :: id in b.requests ==> Record(b, id) == map[]) ==>
              var ids := Ids(b.requests.Keys);
              forall i :: 0 <= i < |ids| ==> After(b, ids, |ids|).verdicts[i]
  {
    var ids := Ids(b.requests.Keys);
    PassFollowsVerdicts(b, ids, |ids|);
    IdsAscend(b.requests.Keys);
    forall i, j | 0 <= j < i < |ids|
      ensures Undisturbed(b, ids[i], ids[j])
    {
      assert ids[j] < ids[i];
    }
    UndisturbedPassIsSerial(b, ids, After(b, ids, |ids|).verdicts, |ids|);
    if forall id :: id in b.requests ==> Record(b, id) == map[] {
      NothingRecordedCommitsAll(b, ids);
    }
  }

  /**
   The version a commit writes is always 1, so with all reads recorded updates
   are lost from the second round on: on every slot that stands at version 1.
   */
  lemma SecondRoundLosesUpdates(x: Slot, versions: map<Slot, nat>)
    requires Version(versions, x) == 1
    ensures var b := Increments(x, EVERY, versions);
            && Tracks(b, EVERY) && IdsOf(b, [0, 1])
            && After(b, [0, 1], 2).verdicts == [true, true]
            && After(b, [0, 1], 2).store == Counter(x, [1, 1])
            && Serial(b, [0, 1], [true, true], 2) == Counter(x, [1, 1, 1])
  {
    UpdatesAreLost(x, EVERY, versions);
  }

  /**
   Without a storage manager the commit fails, but its answer is dropped: a
   transaction gets a true verdict whenever its records are those of the start,
   as no records are, and nothing is written.
   */
  lemma {:induction false} UnconfiguredReportsSuccess(b: Batch, ids: seq<nat>, n: nat)
    requires n <= |ids| && IdsOf(b, ids)
    ensures var end := Pass(Speculative(b), ids, n, Outcome(b.store, b.versions, []), false);
            && end.store == b.store && end.versions == b.versions
            && |end.verdicts| == n
            && forall i :: 0 <= i < n ==> end.verdicts[i] == Valid(Tx(b, ids[i]), b.versions)
  {
    if n > 0 {
      UnconfiguredReportsSuccess(b, ids, n - 1);
    }
  }

  // ---------------------------------------------------------------------
  // The store and the key space
  // ---------------------------------------------------------------------

  function CommitAll(commits: seq<Store.Commit>): Storage {
    if commits == [] then map[]
    else
      var c := commits[|commits| - 1];
      Persist(CommitAll(commits[..|commits| - 1]), c.contract, map[c.slot := c.value])
  }

  lemma {:induction false} StoreIsLatest(commits: seq<Store.Commit>, contract: string)
    ensures Slots(CommitAll(commits), contract) == Store.Latest(commits, contract)
  {
    if commits != [] {
      StoreIsLatest(commits[..|commits| - 1], contract);
    }
  }

  /** After the same commits, what a reload reads back is what the store here holds. */
  lemma StoreIsReloaded(commits: seq<Store.Commit>, contract: string)
    requires forall i :: 0 <= i < |commits| ==> Store.Unmistakable(contract, commits[i])
    ensures Store.Reloaded(Store.CommitAll(commits), contract) == Slots(CommitAll(commits), contract)
  {
    StoreIsLatest(commits, contract);
    Store.ReloadIsLatest(commits, contract);
  }
}
