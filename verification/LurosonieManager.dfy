/**
 The consensus manager: the object whose fields the stake arithmetic, the
 mempool, the ledger and the block sequencer share.

 Each method is tied to the functions of `RelayStake`, `Mempool`,
 `NativeTransfers` and `Sequencer`, where the laws about them are proved.
 */
module LurosonieManager {
  import opened Words
  import opened Sums
  import opened Wrappers
  import RelayStake
  import Mempool
  import NativeTransfers
  import Sequencer
  import Text

  type Tx = Mempool.Tx

  /** What the surroundings contribute to one attempt: clock, producer, bridge, storage. */
  datatype Circumstance = Circumstance(
    timestamp: int, producer: string, anchor: Option<Sequencer.Anchor>,
    validated: bool, stored: bool)

  /** A block without transactions, such as the genesis block. */
  datatype Stamp = Stamp(timestamp: int, log: string, number: nat, producer: string)

  /** What the sequencer machine records of the past that the manager does not keep. */
  datatype History = History(base: Option<string>, boots: nat, attempts: seq<Sequencer.Try>)

  /** `txs` lists the pool's transactions, one for each of the distinct `keys`. */
  ghost predicate Lists(txs: seq<Tx>, keys: seq<string>, pool: Mempool.Pool) {
    && |txs| == |keys|
    && (forall i :: 0 <= i < |keys| ==> keys[i] in pool && txs[i] == pool[keys[i]])
    && (forall i, j :: 0 <= i < j < |keys| ==> keys[i] != keys[j])
    && (forall k :: k in pool ==> k in keys)
  }

  /** The outcome has what the surroundings contribute; a block of the system validator is a system block. */
  predicate Tells(o: Sequencer.Outcome, c: Circumstance) {
    && o.timestamp == c.timestamp && o.producer == c.producer && o.anchor == c.anchor
    && o.validated == c.validated && o.stored == c.stored
    && (o.isSystem <==> c.producer == "0x53ae54b11251d5003e9aa51422405bc35a2ef32d")
  }

  class LurosonieManager {
    var balances: map<string, U64>
    var pendingTransactions: Mempool.Pool
    var relayValidators: map<string, RelayStake.Validator>
    var delegations: seq<RelayStake.Delegation>
    var slurachainData: seq<Sequencer.Block>
    var lastBlockHash: Option<string>
    var savedBtcHeight: Option<nat>
    const hash: Sequencer.Hash
    const stampHash: Stamp -> string

    constructor (hash: Sequencer.Hash, stampHash: Stamp -> string, saved: Option<nat>)
      ensures this.hash == hash && this.stampHash == stampHash && savedBtcHeight == saved
      ensures balances == map[] && pendingTransactions == map[]
      ensures relayValidators == map[] && delegations == []
      ensures slurachainData == [] && lastBlockHash == None
    {
      this.hash, this.stampHash := hash, stampHash;
      balances, pendingTransactions := map[], map[];
      relayValidators, delegations := map[], [];
      slurachainData, lastBlockHash := [], None;
      savedBtcHeight := saved;
    }

    // -------------------------------------------------------------------
    // Stakes
    // -------------------------------------------------------------------

    /** `balance` is what the token contract answers for the delegator. */
    method DelegateStake(delegator: string, validator: string, amount: U64, balance: U64) returns (ok: bool)
      modifies this`delegations
      ensures ok <==> validator in relayValidators && balance >= amount
      ensures delegations == old(delegations)
              + if ok then [RelayStake.Delegation(delegator, validator, amount)] else []
    {
      if validator !in relayValidators {
        return false;
      }
      if balance < amount {
        return false;
      }
      delegations := delegations + [RelayStake.Delegation(delegator, validator, amount)];
      return true;
    }

    /** Recomputes every power, in any order, and adds them up. */
    method CalculateRelayPowers() returns (total: U64)
      modifies this`relayValidators
      ensures relayValidators == RelayStake.RecomputedAll(old(relayValidators), delegations)
      ensures total == RelayStake.Saturated(Sum(RelayStake.Powers(relayValidators)))
    {
      var was := relayValidators;
      var todo := was.Keys;
      var done: map<string, RelayStake.Validator> := map[];
      while todo != {}
        invariant todo <= was.Keys && done.Keys == was.Keys - todo
        invariant forall a :: a in done ==> done[a] == RelayStake.Recomputed(was[a], delegations, a)
        decreases todo
      {
        var a :| a in todo;
        var delegated := RelayStake.GetDelegatedStake(delegations, a);
        var v := was[a];
        done := done[a := RelayStake.Validator(v.stake, delegated, SaturatingAdd(v.stake, delegated))];
        todo := todo - {a};
      }
      assert done == RelayStake.RecomputedAll(was, delegations);
      relayValidators := done;
      total := RelayStake.SaturatingTotal(RelayStake.Powers(relayValidators));
    }

    method CalculateStakePower() returns (total: U64)
      ensures total == RelayStake.Saturated(Sum(RelayStake.Powers(relayValidators)))
    {
      total := RelayStake.SaturatingTotal(RelayStake.Powers(relayValidators));
    }

    method GetConsensusThreshold() returns (threshold: U64)
      ensures threshold == RelayStake.Threshold(Sum(RelayStake.Powers(relayValidators)))
    {
      var total := RelayStake.WrappingTotal(RelayStake.Powers(relayValidators));
      if total == 0 {
        return 1;
      }
      return (total * 2) % TWO_64 / 3;
    }

    // -------------------------------------------------------------------
    // Mempool and ledger
    // -------------------------------------------------------------------

    method AddPendingTransaction(tx: Tx)
      modifies this`balances, this`pendingTransactions
      ensures pendingTransactions == old(pendingTransactions)[Mempool.KeyOf(tx) := tx]
      ensures balances == NativeTransfers.ResetBalance(old(balances), tx.from)
    {
      balances := balances[tx.from := 0];
      pendingTransactions := pendingTransactions[Mempool.KeyOf(tx) := tx];
    }

    method AddTransactionToMempool(tx: Tx)
      modifies this`pendingTransactions
      ensures pendingTransactions == old(pendingTransactions)[tx.hash := tx]
    {
      pendingTransactions := pendingTransactions[tx.hash := tx];
    }

    method RemoveProcessedTransactions(processed: seq<string>)
      modifies this`pendingTransactions
      ensures pendingTransactions == old(pendingTransactions) - set k | k in processed
    {
      for i := 0 to |processed|
        invariant pendingTransactions == old(pendingTransactions) - set k | k in processed[..i]
      {
        assert processed[..i + 1] == processed[..i] + [processed[i]];
        pendingTransactions := pendingTransactions - {processed[i]};
      }
      assert processed[..|processed|] == processed;
    }

    method ExecuteNativeTransfer(from: string, to: string, amount: U64) returns (ok: bool)
      modifies this`balances
      ensures (balances, ok) == NativeTransfers.Transfer(old(balances), from, to, amount)
    {
      var fromBalance := if from in balances then balances[from] else 0;
      if fromBalance < amount {
        return false;
      }
      balances := balances[from := fromBalance - amount];
      var toBalance := if to in balances then balances[to] else 0;
      balances := balances[to := WrappingAdd(toBalance, amount)];
      return true;
    }

    // -------------------------------------------------------------------
    // Block production
    // -------------------------------------------------------------------

    /** The pool's transactions in the order of its iteration, with their keys. */
    method CollectPending() returns (txs: seq<Tx>, processed: seq<string>, ghost keys: seq<string>)
      ensures Lists(txs, keys, pendingTransactions)
      ensures (set k | k in processed) == Mempool.Processed(pendingTransactions)
    {
      txs, processed, keys := [], [], [];
      var todo := pendingTransactions.Keys;
      while todo != {}
        invariant todo <= pendingTransactions.Keys
        invariant |txs| == |keys| == |processed|
        invariant forall i :: 0 <= i < |keys| ==>
                    keys[i] in pendingTransactions - todo && txs[i] == pendingTransactions[keys[i]]
                    && processed[i] == Mempool.KeyOf(txs[i])
        invariant forall i, j :: 0 <= i < j < |keys| ==> keys[i] != keys[j]
        invariant forall k :: k in pendingTransactions && k !in todo ==> k in keys
        decreases todo
      {
        var k :| k in todo;
        keys := keys + [k];
        txs := txs + [pendingTransactions[k]];
        processed := processed + [Mempool.KeyOf(pendingTransactions[k])];
        todo := todo - {k};
      }
      ProcessedMatches(txs, processed, keys, pendingTransactions);
    }

    /** Only the last hash is set: the genesis block joins no chain. */
    method AddBlockToChain(block: Stamp)
      modifies this`lastBlockHash
      ensures lastBlockHash == Some(stampHash(block))
    {
      lastBlockHash := Some(stampHash(block));
    }

    method AddLurosonieBlockToChain(block: Sequencer.Block)
      modifies this`slurachainData, this`lastBlockHash
      ensures slurachainData == old(slurachainData) + [block]
      ensures lastBlockHash == Some(hash(Sequencer.ViewOf(block)))
    {
      lastBlockHash := Some(hash(Sequencer.ViewOf(block)));
      slurachainData := slurachainData + [block];
    }

    method GetBlockHeight() returns (h: nat)
      ensures h == Sequencer.Height(slurachainData)
    {
      if |slurachainData| == 0 {
        return 0;
      }
      return slurachainData[|slurachainData| - 1].number;
    }

    /**
     Produces one block, with the pool's transactions, if the quorum gate lets it
     pass; it does exactly when some validator holds power.  A refused production
     leaves pool and chain alone, an accepted one drains what it collected.
     */
    method ProduceBlock(number: nat, btcHeight: nat, c: Circumstance, isSystem: bool)
      returns (ok: bool, ghost keys: seq<string>)
      modifies this`relayValidators, this`pendingTransactions, this`slurachainData, this`lastBlockHash
      ensures relayValidators == RelayStake.RecomputedAll(old(relayValidators), delegations)
      ensures ok <==> Sum(RelayStake.Powers(relayValidators)) > 0
      ensures pendingTransactions == Mempool.Produce(old(pendingTransactions), ok)
      ensures !ok ==> slurachainData == old(slurachainData) && lastBlockHash == old(lastBlockHash)
      ensures ok ==>
                && |slurachainData| == |old(slurachainData)| + 1
                && var b := slurachainData[|old(slurachainData)|];
                   && slurachainData == old(slurachainData) + [b]
                   && lastBlockHash == Some(hash(Sequencer.ViewOf(b)))
                   && b.number == number && b.parent == old(lastBlockHash) && b.anchor == c.anchor
                   && b.log == Sequencer.Log(number, c.producer, btcHeight)
                   && b.relayPower == RelayStake.Saturated(Sum(RelayStake.Powers(relayValidators)))
                   && b.timestamp == c.timestamp && b.producer == c.producer && b.isSystem == isSystem
                   && Lists(b.transactions, keys, old(pendingTransactions))
    {
      var txs, processed;
      txs, processed, keys := CollectPending();
      var relayPower := CalculateRelayPowers();
      var stakePower := CalculateStakePower();
      var totalPower := WrappingAdd(relayPower, stakePower);
      var threshold := GetConsensusThreshold();
      RelayStake.GatePassesIffAnyPower(Sum(RelayStake.Powers(relayValidators)));
      if totalPower < threshold {
        return false, keys;
      }
      var log := "Bloc #" + Text.Decimal(number) + " produit avec consensus BFT (producer: " + c.producer
                 + ", BTC #" + Text.Decimal(btcHeight) + ")";
      var block := Sequencer.Block(number, c.timestamp, log, c.producer, txs, relayPower, isSystem,
                                   c.anchor, lastBlockHash);
      AddLurosonieBlockToChain(block);
      RemoveProcessedTransactions(processed);
      return true, keys;
    }

    // -------------------------------------------------------------------
    // Sequencing
    // -------------------------------------------------------------------

    /** This manager as a node of the sequencer machine. */
    ghost function AsNode(next: nat, target: nat, past: History): Sequencer.Node
      reads this
    {
      Sequencer.Node(savedBtcHeight,
                     Some(Sequencer.Process(next, target, past.base, slurachainData, lastBlockHash)),
                     past.boots, past.attempts)
    }

    /**
     Where a starting sequencer goes on: after the persisted height, or, when none
     is known, after the current Bitcoin height, which is then persisted.  The
     chain is to be linked to the last hash there is, that of the genesis block.
     */
    method StartHeight(readable: bool, count: Option<nat>, stored: bool, ghost past: History)
      returns (last: nat)
      requires slurachainData == []
      modifies this`savedBtcHeight
      ensures var down := Sequencer.Node(old(savedBtcHeight), None, past.boots, past.attempts);
              Sequencer.Take(hash, down, Sequencer.Boot(readable, count, stored, lastBlockHash))
              == AsNode(last + 1, last, History(lastBlockHash, past.boots + 1, past.attempts))
    {
      var savedHeight := if readable && savedBtcHeight.Some? then savedBtcHeight.value else 0;
      last := savedHeight;
      if last == 0 && count.Some? {
        last := count.value;
        if stored {
          savedBtcHeight := Some(last);
        }
      }
    }

    /** The production of the block for a height, as the machine `p` sees it. */
    method ProduceNext(btcHeight: nat, c: Circumstance, ghost p: Sequencer.Process)
      returns (ok: bool, ghost o: Sequencer.Outcome)
      requires p.chain == slurachainData && p.lastHash == lastBlockHash
      modifies this`relayValidators, this`pendingTransactions, this`slurachainData, this`lastBlockHash
      ensures o.accepted == ok && (ok <==> Sum(RelayStake.Powers(relayValidators)) > 0) && Tells(o, c)
      ensures Sequencer.Append(hash, p, o, btcHeight)
              == p.(chain := slurachainData, lastHash := lastBlockHash)
    {
      var height := GetBlockHeight();
      var isSystem := c.producer == RelayStake.SYSTEM_VALIDATOR;
      var produced, _ := ProduceBlock(height + 1, btcHeight, c, isSystem);
      ok := produced;
      o := OutcomeOf(false, c, [], 0, isSystem);
      if ok {
        ghost var b := slurachainData[|slurachainData| - 1];
        o := OutcomeOf(true, c, b.transactions, b.relayPower, isSystem);
        BlockIsAppended(hash, p, o, btcHeight, b);
      }
    }

    /** One due height: produce, validate, and persist the height if both succeed. */
    method AttemptHeight(btcHeight: nat, target: nat, c: Circumstance, ghost past: History)
      returns (ghost e: Sequencer.Event)
      requires btcHeight <= target
      requires c.anchor.Some? ==> c.anchor.value.height == btcHeight
      modifies this`relayValidators, this`pendingTransactions, this`slurachainData,
               this`lastBlockHash, this`savedBtcHeight
      ensures e.Attempt? && Sequencer.Enabled(old(AsNode(btcHeight, target, past)), e)
      ensures (e.outcome.accepted <==> Sum(RelayStake.Powers(relayValidators)) > 0) && Tells(e.outcome, c)
      ensures var n := Sequencer.Take(hash, old(AsNode(btcHeight, target, past)), e);
              n == AsNode(btcHeight + 1, target, past.(attempts := n.attempts))
    {
      ghost var o;
      ghost var p := AsNode(btcHeight, target, past).process.value;
      var ok;
      ok, o := ProduceNext(btcHeight, c, p);
      if ok && c.validated && c.stored {
        savedBtcHeight := Some(btcHeight);
      }
      e := Sequencer.Attempt(o);
    }

    /** One height of the loop below: the run that led here grows by its attempt. */
    method AttemptNext(btcHeight: nat, target: nat, c: Circumstance,
                       ghost start: Sequencer.Node, ghost events: seq<Sequencer.Event>, ghost past: History)
      returns (ghost e: Sequencer.Event, ghost now: History)
      requires btcHeight <= target
      requires c.anchor.Some? ==> c.anchor.value.height == btcHeight
      requires Sequencer.Reaches(hash, start, events, AsNode(btcHeight, target, past))
      modifies this`relayValidators, this`pendingTransactions, this`slurachainData,
               this`lastBlockHash, this`savedBtcHeight
      ensures e.Attempt? && now == past.(attempts := now.attempts)
      ensures Sequencer.Reaches(hash, start, events + [e], AsNode(btcHeight + 1, target, now))
    {
      ghost var was := AsNode(btcHeight, target, past);
      e := AttemptHeight(btcHeight, target, c, past);
      ReachesOneMore(hash, start, events, was, e);
      now := past.(attempts := Sequencer.Take(hash, was, e).attempts);
    }

    /**
     The loop over the heights that became due: one attempt for each, in order,
     whether or not the ones before succeeded.  It is a run of the machine.
     */
    method SequenceHeights(last: nat, current: nat, surroundings: nat -> Circumstance, ghost past: History)
      returns (ghost events: seq<Sequencer.Event>, ghost end: Sequencer.Node)
      requires last <= current
      requires forall h :: surroundings(h).anchor.Some? ==> surroundings(h).anchor.value.height == h
      modifies this`relayValidators, this`pendingTransactions, this`slurachainData,
               this`lastBlockHash, this`savedBtcHeight
      ensures |events| == current - last && forall i :: 0 <= i < |events| ==> events[i].Attempt?
      ensures Sequencer.Reaches(hash, old(AsNode(last + 1, current, past)), events, end)
      ensures end == AsNode(current + 1, current, past.(attempts := end.attempts))
    {
      var newBlocks := current - last;
      events := [];
      ghost var start := AsNode(last + 1, current, past);
      ghost var now := past;
      for i := 1 to newBlocks + 1
        invariant |events| == i - 1
        invariant forall j :: 0 <= j < |events| ==> events[j].Attempt?
        invariant Sequencer.Reaches(hash, start, events, AsNode(last + i, current, now))
        invariant now == past.(attempts := now.attempts)
      {
        var btcHeight := last + i;
        ghost var e;
        e, now := AttemptNext(btcHeight, current, surroundings(btcHeight), start, events, now);
        events := events + [e];
      }
      end := AsNode(current + 1, current, now);
    }
  }

  function OutcomeOf(ok: bool, c: Circumstance, txs: seq<Tx>, relayPower: U64, isSystem: bool): Sequencer.Outcome {
    Sequencer.Outcome(ok, c.timestamp, c.producer, txs, relayPower, isSystem, c.anchor, c.validated, c.stored)
  }

  /** A block with the fields of an accepted production is the one the machine appends. */
  lemma BlockIsAppended(hash: Sequencer.Hash, p: Sequencer.Process, o: Sequencer.Outcome, btcHeight: nat,
                        b: Sequencer.Block)
    requires o.accepted
    requires b.number == Sequencer.Height(p.chain) + 1 && b.log == Sequencer.Log(b.number, o.producer, btcHeight)
    requires b.timestamp == o.timestamp && b.producer == o.producer && b.transactions == o.transactions
    requires b.relayPower == o.relayPower && b.isSystem == o.isSystem && b.anchor == o.anchor
    requires b.parent == p.lastHash
    ensures Sequencer.Append(hash, p, o, btcHeight)
            == p.(chain := p.chain + [b], lastHash := Some(hash(Sequencer.ViewOf(b))))
  {
    assert b == Sequencer.NewBlock(p, o, btcHeight);
  }

  lemma ProcessedMatches(txs: seq<Tx>, processed: seq<string>, keys: seq<string>, pool: Mempool.Pool)
    requires Lists(txs, keys, pool) && |processed| == |txs|
    requires forall i :: 0 <= i < |txs| ==> processed[i] == Mempool.KeyOf(txs[i])
    ensures (set k | k in processed) == Mempool.Processed(pool)
  {
    forall k | k in processed
      ensures k in Mempool.Processed(pool)
    {
      var i :| 0 <= i < |processed| && processed[i] == k;
      assert keys[i] in pool && k == Mempool.KeyOf(pool[keys[i]]);
    }
    forall k | k in Mempool.Processed(pool)
      ensures k in processed
    {
      var key :| key in pool && k == Mempool.KeyOf(pool[key]);
      var i :| 0 <= i < |keys| && keys[i] == key;
      assert processed[i] == k;
    }
  }

  lemma ReachesOneMore(
    hash: Sequencer.Hash, n: Sequencer.Node, events: seq<Sequencer.Event>, mid: Sequencer.Node, e: Sequencer.Event)
    requires Sequencer.Reaches(hash, n, events, mid) && Sequencer.Enabled(mid, e)
    ensures Sequencer.Reaches(hash, n, events + [e], Sequencer.Take(hash, mid, e))
  {
    assert [e][1..] == [];
    Sequencer.ReachesJoin(hash, n, events, mid, [e], Sequencer.Take(hash, mid, e));
  }
}
