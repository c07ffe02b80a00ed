/**
 The block sequencer: one block attempted for each new Bitcoin height, chained
 by hash to the block before, with the last processed height persisted so that a
 restart goes on after it.

 The machine takes one step at a time, so a crash can fall between any two of
 them.  Reads and writes of the persisted height may fail, the height query may
 fail or go backwards, and every production may be refused.
 */
module Sequencer {
  import opened Words
  import Hex
  import Mempool
  import Text
  import opened Wrappers

  datatype Anchor = Anchor(
    height: nat, blockHash: string, previousBlockHash: Option<string>,
    txids: seq<string>, merkleRoot: Option<string>)

  datatype Block = Block(
    number: nat, timestamp: int, log: string, producer: string, transactions: seq<Mempool.Tx>,
    relayPower: U64, isSystem: bool, anchor: Option<Anchor>, parent: Option<string>)

  /** The part of a block that is serialized and hashed. */
  datatype View = View(
    number: nat, timestamp: int, log: string, producer: string, transactionCount: nat,
    relayPower: U64, anchor: Option<Anchor>, parent: Option<string>)

  function ViewOf(b: Block): View {
    View(b.number, b.timestamp, b.log, b.producer, |b.transactions|, b.relayPower, b.anchor, b.parent)
  }

  /** The text every produced block carries; the Bitcoin height is part of it. */
  function Log(number: nat, producer: string, btcHeight: nat): string {
    "Bloc #" + Text.Decimal(number) + " produit avec consensus BFT (producer: " + producer
    + ", BTC #" + Text.Decimal(btcHeight) + ")"
  }

  /** The log starts with the block's number and its producer and ends with the Bitcoin height. */
  lemma LogReads(number: nat, producer: string, btcHeight: nat)
    ensures var log, n, h := Log(number, producer, btcHeight), Text.Decimal(number), Text.Decimal(btcHeight);
            && ("Bloc #" + n + " produit avec consensus BFT (producer: " + producer + ",") <= log
            && |log| >= |h| + 8 && log[|log| - |h| - 8..] == ", BTC #" + h + ")"
            && Text.DecimalReadsAs(n, number) && Text.DecimalReadsAs(h, btcHeight)
  {
    Text.DecimalReadsBack(number);
    Text.DecimalReadsBack(btcHeight);
    var front := "Bloc #" + Text.Decimal(number) + " produit avec consensus BFT (producer: " + producer;
    var end := ", BTC #" + Text.Decimal(btcHeight) + ")";
    assert Log(number, producer, btcHeight) == front + end;
  }

  type Hash = View -> string

  // ---------------------------------------------------------------------
  // The chain
  // ---------------------------------------------------------------------

  function Height(chain: seq<Block>): nat {
    if chain == [] then 0 else chain[|chain| - 1].number
  }

  predicate Consecutive(chain: seq<Block>) {
    forall i :: 0 <= i < |chain| ==> chain[i].number == i + 1
  }

  /** The hash of the block before position `i`; before the first, what the chain starts from. */
  function ParentAt(hash: Hash, base: Option<string>, c: seq<Block>, i: nat): Option<string>
    requires i <= |c|
  {
    if i == 0 then base else Some(hash(ViewOf(c[i - 1])))
  }

  predicate LinkedAt(hash: Hash, base: Option<string>, c: seq<Block>, i: nat)
    requires i < |c|
  {
    c[i].parent == ParentAt(hash, base, c, i)
  }

  /** Every block names the hash of the block before, and the last hash is kept. */
  predicate Linked(hash: Hash, base: Option<string>, chain: seq<Block>, lastHash: Option<string>) {
    && (forall i :: 0 <= i < |chain| ==> LinkedAt(hash, base, chain, i))
    && lastHash == ParentAt(hash, base, chain, |chain|)
  }

  predicate Anchored(b: Block) {
    b.anchor.Some?
  }

  predicate HeightsIncrease(chain: seq<Block>) {
    forall i, j :: 0 <= i < j < |chain| && Anchored(chain[i]) && Anchored(chain[j]) ==>
                     chain[i].anchor.value.height < chain[j].anchor.value.height
  }

  // ---------------------------------------------------------------------
  // The machine
  // ---------------------------------------------------------------------

  /**
   What a running sequencer keeps in memory; heights in [next, target] are due,
   and `base` is the hash that was there before the first block.
   */
  datatype Process = Process(
    next: nat, target: nat, base: Option<string>, chain: seq<Block>, lastHash: Option<string>)

  /** One height attempted, in which start, and whether it was saved as processed. */
  datatype Try = Try(boot: nat, height: nat, saved: bool)

  /** `boots` counts the starts, `attempts` records every height attempted. */
  datatype Node = Node(saved: Option<nat>, process: Option<Process>, boots: nat, attempts: seq<Try>)

  /** A node that is not running and has a height persisted or not. */
  function Down(saved: Option<nat>): Node {
    Node(saved, None, 0, [])
  }

  /** How the production of one block turns out, and with what content. */
  datatype Outcome = Outcome(
    accepted: bool, timestamp: int, producer: string, transactions: seq<Mempool.Tx>,
    relayPower: U64, isSystem: bool, anchor: Option<Anchor>, validated: bool, stored: bool)

  /** At a start the last hash is whatever the genesis block made just before has left. */
  datatype Event =
    | Boot(readable: bool, count: Option<nat>, stored: bool, base: Option<string>)
    | Poll(count: Option<nat>)
    | Attempt(outcome: Outcome)
    | Manual(outcome: Outcome)
    | Crash

  function Saved(n: Node): nat {
    if n.saved.Some? then n.saved.value else 0
  }

  predicate Enabled(n: Node, e: Event) {
    match e
    case Boot(_, _, _, _) => n.process.None?
    case Poll(_) => n.process.Some? && n.process.value.next > n.process.value.target
    case Attempt(o) =>
      && n.process.Some?
      && n.process.value.next <= n.process.value.target
      && (o.anchor.Some? ==> o.anchor.value.height == n.process.value.next)
    // a block produced on request asks for the anchor of height 0
    case Manual(o) => n.process.Some? && (o.anchor.Some? ==> o.anchor.value.height == 0)
    case Crash => n.process.Some?
  }

  function NewBlock(p: Process, o: Outcome, btcHeight: nat): Block {
    var number := Height(p.chain) + 1;
    Block(number, o.timestamp, Log(number, o.producer, btcHeight), o.producer, o.transactions,
          o.relayPower, o.isSystem, o.anchor, p.lastHash)
  }

  function Append(hash: Hash, p: Process, o: Outcome, btcHeight: nat): Process {
    if !o.accepted then p
    else
      var b := NewBlock(p, o, btcHeight);
      p.(chain := p.chain + [b], lastHash := Some(hash(ViewOf(b))))
  }

  /** The height a starting process counts as processed. */
  function StartHeight(n: Node, readable: bool, count: Option<nat>): nat {
    var saved := if readable then Saved(n) else 0;
    if saved == 0 && count.Some? then count.value else saved
  }

  function Take(hash: Hash, n: Node, e: Event): Node
    requires Enabled(n, e)
  {
    match e
    case Boot(readable, count, stored, base) =>
      var start := StartHeight(n, readable, count);
      var first := (if readable then Saved(n) else 0) == 0 && count.Some?;
      n.(process := Some(Process(start + 1, start, base, [], base)),
         boots := n.boots + 1,
         saved := if first && stored then Some(start) else n.saved)
    case Poll(count) =>
      var p := n.process.value;
      if count.Some? && count.value > p.target
      then n.(process := Some(p.(target := count.value))) else n
    case Attempt(o) =>
      var p := n.process.value;
      var done := o.accepted && o.validated && o.stored;
      Node(if done then Some(p.next) else n.saved,
           Some(Append(hash, p, o, p.next).(next := p.next + 1)),
           n.boots,
           n.attempts + [Try(n.boots, p.next, done)])
    case Manual(o) => n.(process := Some(Append(hash, n.process.value, o, 0)))
    case Crash => n.(process := None)
  }

  predicate Reaches(hash: Hash, n: Node, events: seq<Event>, end: Node)
    decreases |events|
  {
    if events == [] then end == n
    else Enabled(n, events[0]) && Reaches(hash, Take(hash, n, events[0]), events[1..], end)
  }

  // ---------------------------------------------------------------------
  // The chain over every run
  // ---------------------------------------------------------------------

  /** Anchors of blocks produced for a Bitcoin height are above all anchors before. */
  predicate HeightsBelow(chain: seq<Block>, next: nat) {
    && (forall i :: 0 <= i < |chain| && Anchored(chain[i]) ==> chain[i].anchor.value.height < next)
    && (forall i, j :: 0 <= i < j < |chain| && Anchored(chain[i]) && Anchored(chain[j])
                       && chain[j].anchor.value.height != 0 ==>
                         chain[i].anchor.value.height < chain[j].anchor.value.height)
  }

  predicate ChainInv(hash: Hash, p: Process) {
    && Consecutive(p.chain)
    && Linked(hash, p.base, p.chain, p.lastHash)
    && HeightsBelow(p.chain, p.next)
    && 1 <= p.next <= p.target + 1
  }

  lemma AppendKeepsLinks(hash: Hash, p: Process, o: Outcome, btcHeight: nat)
    requires Consecutive(p.chain) && Linked(hash, p.base, p.chain, p.lastHash)
    ensures var p' := Append(hash, p, o, btcHeight);
            Consecutive(p'.chain) && Linked(hash, p.base, p'.chain, p'.lastHash)
  {
    var chain := Append(hash, p, o, btcHeight).chain;
    forall i | 0 <= i < |chain|
      ensures LinkedAt(hash, p.base, chain, i)
    {
      if i < |p.chain| {
        assert LinkedAt(hash, p.base, p.chain, i);
      }
    }
  }

  lemma AppendKeepsHeights(hash: Hash, p: Process, o: Outcome, btcHeight: nat)
    requires HeightsBelow(p.chain, p.next) && p.next > 0
    requires o.anchor.Some? ==> o.anchor.value.height == p.next || o.anchor.value.height == 0
    ensures var chain := Append(hash, p, o, btcHeight).chain;
            && HeightsBelow(chain, p.next + 1)
            && ((o.anchor.Some? ==> o.anchor.value.height == 0) ==> HeightsBelow(chain, p.next))
  {
  }

  lemma StepKeepsChain(hash: Hash, n: Node, e: Event)
    requires n.process.Some? ==> ChainInv(hash, n.process.value)
    requires Enabled(n, e)
    ensures Take(hash, n, e).process.Some? ==> ChainInv(hash, Take(hash, n, e).process.value)
  {
    match e
    case Boot(_, _, _, _) =>
    case Poll(_) =>
    case Attempt(o) =>
      AppendKeepsLinks(hash, n.process.value, o, n.process.value.next);
      AppendKeepsHeights(hash, n.process.value, o, n.process.value.next);
    case Manual(o) =>
      AppendKeepsLinks(hash, n.process.value, o, 0);
      AppendKeepsHeights(hash, n.process.value, o, 0);
    case Crash =>
  }

  lemma {:induction false} RunKeepsChain(hash: Hash, n: Node, events: seq<Event>, end: Node)
    requires n.process.Some? ==> ChainInv(hash, n.process.value)
    requires Reaches(hash, n, events, end)
    ensures end.process.Some? ==> ChainInv(hash, end.process.value)
    decreases |events|
  {
    if events != [] {
      StepKeepsChain(hash, n, events[0]);
      RunKeepsChain(hash, Take(hash, n, events[0]), events[1..], end);
    }
  }

  /** The last start of the run, and the hash it found. */
  predicate LastBootFound(events: seq<Event>, base: Option<string>) {
    exists i :: 0 <= i < |events| && events[i].Boot? && events[i].base == base
                && forall j :: i < j < |events| ==> !events[j].Boot?
  }

  lemma {:induction false} BaseIsLastBoots(hash: Hash, n: Node, events: seq<Event>, end: Node)
    requires Reaches(hash, n, events, end) && end.process.Some?
    ensures || LastBootFound(events, end.process.value.base)
            || (&& n.process.Some? && n.process.value.base == end.process.value.base
                && forall i :: 0 <= i < |events| ==> !events[i].Boot?)
    decreases |events|
  {
    if events != [] {
      var base := end.process.value.base;
      BaseIsLastBoots(hash, Take(hash, n, events[0]), events[1..], end);
      if LastBootFound(events[1..], base) {
        var i :| 0 <= i < |events[1..]| && events[1..][i].Boot? && events[1..][i].base == base
                 && forall j :: i < j < |events[1..]| ==> !events[1..][j].Boot?;
        assert events[i + 1].Boot? && events[i + 1].base == base;
        forall j | i + 1 < j < |events|
          ensures !events[j].Boot?
        {
          assert events[j] == events[1..][j - 1];
        }
      } else {
        forall j | 1 <= j < |events|
          ensures !events[j].Boot?
        {
          assert events[j] == events[1..][j - 1];
        }
        if events[0].Boot? {
          assert events[0].base == base;
        }
      }
    }
  }

  // ---------------------------------------------------------------------
  // Where the anchored heights stop increasing
  // ---------------------------------------------------------------------

  /** The event appends a block with an anchor. */
  predicate Anchors(e: Event) {
    (e.Attempt? || e.Manual?) && e.outcome.accepted && e.outcome.anchor.Some?
  }

  predicate NoBoot(events: seq<Event>) {
    forall i :: 0 <= i < |events| ==> !events[i].Boot?
  }

  predicate ManualAnchors(events: seq<Event>) {
    exists i :: 0 <= i < |events| && events[i].Manual? && Anchors(events[i])
  }

  /** Since the last start, an anchored block was followed by one made on request. */
  predicate ManualAfterAnchored(events: seq<Event>) {
    exists i :: 0 <= i < |events| && Anchors(events[i])
                && NoBoot(events[i + 1..]) && ManualAnchors(events[i + 1..])
  }

  predicate HasAnchor(chain: seq<Block>) {
    exists i :: 0 <= i < |chain| && Anchored(chain[i])
  }

  /** An anchored block behind another one carries height 0. */
  predicate Breaks(chain: seq<Block>) {
    exists i, j :: 0 <= i < j < |chain| && Anchored(chain[i]) && Anchored(chain[j])
                   && chain[j].anchor.value.height == 0
  }

  function ChainOf(n: Node): seq<Block> {
    if n.process.Some? then n.process.value.chain else []
  }

  lemma AppendBreaks(chain: seq<Block>, b: Block)
    ensures HasAnchor(chain + [b]) <==> HasAnchor(chain) || Anchored(b)
    ensures Breaks(chain + [b])
            <==> Breaks(chain) || (HasAnchor(chain) && Anchored(b) && b.anchor.value.height == 0)
  {
    var c := chain + [b];
    if i :| 0 <= i < |chain| && Anchored(chain[i]) {
      assert Anchored(c[i]);
    }
    if Anchored(b) {
      assert Anchored(c[|chain|]);
    }
    if i, j :| 0 <= i < j < |chain| && Anchored(chain[i]) && Anchored(chain[j]) && chain[j].anchor.value.height == 0 {
      assert Anchored(c[i]) && Anchored(c[j]) && c[j].anchor.value.height == 0;
    }
  }

  lemma StepBreaks(hash: Hash, n: Node, e: Event)
    requires n.process.Some? && n.process.value.next >= 1 && Enabled(n, e) && !e.Crash?
    ensures var c, c' := ChainOf(n), ChainOf(Take(hash, n, e));
            && (HasAnchor(c') <==> HasAnchor(c) || Anchors(e))
            && (Breaks(c') <==> Breaks(c) || (HasAnchor(c) && e.Manual? && Anchors(e)))
  {
    if (e.Attempt? || e.Manual?) && e.outcome.accepted {
      var p := n.process.value;
      AppendBreaks(p.chain, NewBlock(p, e.outcome, if e.Attempt? then p.next else 0));
    }
  }

  lemma EventsCons(events: seq<Event>)
    requires events != []
    ensures var e, rest := events[0], events[1..];
            && (NoBoot(events) <==> !e.Boot? && NoBoot(rest))
            && (ManualAnchors(events) <==> (e.Manual? && Anchors(e)) || ManualAnchors(rest))
  {
    var rest := events[1..];
    assert forall i :: 0 < i < |events| ==> events[i] == rest[i - 1];
    if i :| 0 <= i < |rest| && rest[i].Manual? && Anchors(rest[i]) {
      assert events[i + 1] == rest[i];
    }
  }

  lemma ManualAfterAnchoredCons(events: seq<Event>)
    requires events != []
    ensures var e, rest := events[0], events[1..];
            ManualAfterAnchored(events)
            <==> ManualAfterAnchored(rest) || (Anchors(e) && NoBoot(rest) && ManualAnchors(rest))
  {
    var rest := events[1..];
    forall i | 0 < i < |events|
      ensures events[i] == rest[i - 1] && events[i + 1..] == rest[i - 1 + 1..]
    {
    }
    if i :| 0 <= i < |rest| && Anchors(rest[i]) && NoBoot(rest[i + 1..]) && ManualAnchors(rest[i + 1..]) {
      assert events[i + 1] == rest[i] && events[i + 1 + 1..] == rest[i + 1..];
    }
  }

  /** What a run adds to the breaks of the chain it starts with, said of its events. */
  lemma {:induction false} RunBreaksIff(hash: Hash, n: Node, events: seq<Event>, end: Node)
    requires n.process.Some? ==> ChainInv(hash, n.process.value)
    requires Reaches(hash, n, events, end) && end.process.Some?
    ensures Breaks(ChainOf(end))
            <==> || ManualAfterAnchored(events)
                 || (&& NoBoot(events)
                     && (Breaks(ChainOf(n)) || (HasAnchor(ChainOf(n)) && ManualAnchors(events))))
    decreases |events|
  {
    if events != [] {
      var e := events[0];
      StepKeepsChain(hash, n, e);
      RunBreaksIff(hash, Take(hash, n, e), events[1..], end);
      EventsCons(events);
      ManualAfterAnchoredCons(events);
      if e.Crash? {
        NoRunWithoutBoot(hash, Take(hash, n, e), events[1..], end);
      } else if !e.Boot? {
        StepBreaks(hash, n, e);
      }
    }
  }

  lemma {:induction false} NoRunWithoutBoot(hash: Hash, n: Node, events: seq<Event>, end: Node)
    requires Reaches(hash, n, events, end) && n.process.None? && end.process.Some?
    ensures !NoBoot(events)
  {
    assert events != [] && events[0].Boot?;
  }

  lemma IncreaseIffUnbroken(chain: seq<Block>, next: nat)
    requires HeightsBelow(chain, next)
    ensures HeightsIncrease(chain) <==> !Breaks(chain)
  {
  }

  /**
   Over every run, crashes and refused productions included: block numbers are
   consecutive from 1, every block names the hash of the one before, the first
   one the hash that the last start found, and the anchored Bitcoin heights
   strictly increase exactly when, since the last start, no production on request
   put an anchor behind an anchored block.
   */
  lemma ChainIsWellFormed(hash: Hash, saved: Option<nat>, events: seq<Event>, end: Node)
    requires Reaches(hash, Down(saved), events, end) && end.process.Some?
    ensures var p := end.process.value;
            && Consecutive(p.chain)
            && Linked(hash, p.base, p.chain, p.lastHash)
            && LastBootFound(events, p.base)
            && (HeightsIncrease(p.chain) <==> !ManualAfterAnchored(events))
            && (HeightsIncrease(p.chain) <==>
                forall i, j :: 0 <= i < j < |p.chain| && Anchored(p.chain[i]) && Anchored(p.chain[j]) ==>
                                 p.chain[j].anchor.value.height != 0)
  {
    RunKeepsChain(hash, Down(saved), events, end);
    BaseIsLastBoots(hash, Down(saved), events, end);
    RunBreaksIff(hash, Down(saved), events, end);
    IncreaseIffUnbroken(end.process.value.chain, end.process.value.next);
  }

  predicate NoManual(events: seq<Event>) {
    forall i :: 0 <= i < |events| ==> !events[i].Manual?
  }

  /** In runs of the sequencer alone the anchored heights always increase. */
  lemma SequencedHeightsIncrease(hash: Hash, saved: Option<nat>, events: seq<Event>, end: Node)
    requires Reaches(hash, Down(saved), events, end) && end.process.Some?
    requires NoManual(events)
    ensures HeightsIncrease(end.process.value.chain)
  {
    ChainIsWellFormed(hash, saved, events, end);
  }

  function Accepted(anchor: Anchor): Outcome {
    Outcome(true, 0, "", [], 1, false, Some(anchor), true, true)
  }

  /** One height sequenced after the saved one, then a block on request. */
  function SequencedThenManual(height: nat, anchor: Anchor, manual: Anchor): seq<Event> {
    [Boot(true, None, true, None), Poll(Some(height)), Attempt(Accepted(anchor)), Manual(Accepted(manual))]
  }

  lemma ReachesTwo(hash: Hash, n: Node, e: Event, f: Event)
    requires Enabled(n, e) && Enabled(Take(hash, n, e), f)
    ensures Reaches(hash, n, [e, f], Take(hash, Take(hash, n, e), f))
  {
    var mid := Take(hash, n, e);
    assert [e, f][1..] == [f] && [f][1..] == [];
    assert Reaches(hash, mid, [f], Take(hash, mid, f));
  }

  lemma {:induction false} ReachesJoin(
    hash: Hash, n: Node, events: seq<Event>, mid: Node, more: seq<Event>, end: Node)
    requires Reaches(hash, n, events, mid) && Reaches(hash, mid, more, end)
    ensures Reaches(hash, n, events + more, end)
    decreases |events|
  {
    if events == [] {
      assert events + more == more;
    } else {
      assert (events + more)[1..] == events[1..] + more;
      ReachesJoin(hash, Take(hash, n, events[0]), events[1..], mid, more, end);
    }
  }

  lemma SequencedThenManualRuns(hash: Hash, anchor: Anchor, manual: Anchor) returns (end: Node)
    requires anchor.height == 8 && manual.height == 0
    ensures Reaches(hash, Down(Some(7)), SequencedThenManual(8, anchor, manual), end) && end.process.Some?
  {
    var n, events := Down(Some(7)), SequencedThenManual(8, anchor, manual);
    var started := Take(hash, Take(hash, n, events[0]), events[1]);
    end := Take(hash, Take(hash, started, events[2]), events[3]);
    ReachesTwo(hash, n, events[0], events[1]);
    ReachesTwo(hash, started, events[2], events[3]);
    ReachesJoin(hash, n, events[..2], started, events[2..], end);
  }

  /** The heights need not increase: a start above 7, the block for height 8, and a block on request. */
  lemma ManualBlockBreaksHeights(hash: Hash, anchor: Anchor, manual: Anchor)
    requires anchor.height == 8 && manual.height == 0
    ensures exists end ::
              && Reaches(hash, Down(Some(7)), SequencedThenManual(8, anchor, manual), end)
              && end.process.Some? && !HeightsIncrease(end.process.value.chain)
  {
    var events := SequencedThenManual(8, anchor, manual);
    var end := SequencedThenManualRuns(hash, anchor, manual);
    ChainIsWellFormed(hash, Some(7), events, end);
    assert events[3..][0] == events[3];
    assert Anchors(events[2]) && ManualAnchors(events[2 + 1..]);
  }

  // ---------------------------------------------------------------------
  // What the last hash pins down
  // ---------------------------------------------------------------------

  ghost predicate Injective(hash: Hash) {
    forall v, w :: hash(v) == hash(w) ==> v == w
  }

  lemma LinkedPrefix(hash: Hash, base: Option<string>, c: seq<Block>, lastHash: Option<string>)
    requires c != [] && Linked(hash, base, c, lastHash)
    ensures Linked(hash, base, c[..|c| - 1], c[|c| - 1].parent)
  {
    var m := |c| - 1;
    var front := c[..m];
    forall i | 0 <= i < m
      ensures LinkedAt(hash, base, front, i)
    {
      assert LinkedAt(hash, base, c, i);
    }
    assert LinkedAt(hash, base, c, m);
  }

  /** The two blocks are the same in all that is hashed: everything but the transactions and the system mark. */
  predicate SameHashed(b: Block, c: Block) {
    && b.number == c.number && b.timestamp == c.timestamp && b.log == c.log && b.producer == c.producer
    && |b.transactions| == |c.transactions| && b.relayPower == c.relayPower
    && b.anchor == c.anchor && b.parent == c.parent
  }

  /** No block of the chain has the hash that another chain starts from. */
  predicate NoneHashesTo(hash: Hash, c: seq<Block>, base: Option<string>) {
    forall i :: 0 <= i < |c| ==> Some(hash(ViewOf(c[i]))) != base
  }

  /**
   With a collision-free hash, the last hash determines the whole chain: the hash
   it starts from, its length and every hashed field of it, as long as neither
   chain starts from the hash of a block of the other.  What it does not
   determine is the transactions, of which only the number is hashed.
   */
  lemma {:induction false} LastHashDeterminesChain(
    hash: Hash, b: Option<string>, c: seq<Block>, b': Option<string>, d: seq<Block>, lastHash: Option<string>)
    requires Injective(hash)
    requires Linked(hash, b, c, lastHash) && Linked(hash, b', d, lastHash)
    requires NoneHashesTo(hash, c, b') && NoneHashesTo(hash, d, b)
    ensures b == b' && |c| == |d|
    ensures forall i :: 0 <= i < |c| ==> SameHashed(c[i], d[i])
    decreases |c|
  {
    if c != [] && d != [] {
      var m, n := |c| - 1, |d| - 1;
      assert hash(ViewOf(c[m])) == hash(ViewOf(d[n]));
      assert ViewOf(c[m]).parent == ViewOf(d[n]).parent;
      LinkedPrefix(hash, b, c, lastHash);
      LinkedPrefix(hash, b', d, lastHash);
      LastHashDeterminesChain(hash, b, c[..m], b', d[..n], c[m].parent);
    }
  }

  /** The condition is needed: a start from the hash of a block looks like that block. */
  lemma BlockHashAsBaseIsAmbiguous(hash: Hash, block: Block)
    ensures var h := Some(hash(ViewOf(block)));
            Linked(hash, h, [], h) && Linked(hash, block.parent, [block], h)
  {
  }

  /**
   And it is met: block hashes are written with "0x" in front, the hash of the
   genesis block without, so the chains of all starts are told apart by their
   last hash.
   */
  lemma GenesisIsNoBlockHash(hash: Hash, c: seq<Block>, genesis: string)
    requires forall v :: "0x" <= hash(v)
    requires Hex.HexText(genesis)
    ensures NoneHashesTo(hash, c, Some(genesis))
  {
    forall i | 0 <= i < |c|
      ensures hash(ViewOf(c[i])) != genesis
    {
      var h := hash(ViewOf(c[i]));
      assert h[1] == "0x"[1] == 'x';
    }
  }

  /** Exchanging transactions for as many others leaves every link intact. */
  lemma TransactionsAreNotHashed(
    hash: Hash, base: Option<string>, c: seq<Block>, lastHash: Option<string>, k: nat, txs: seq<Mempool.Tx>)
    requires Linked(hash, base, c, lastHash) && k < |c| && |txs| == |c[k].transactions|
    ensures Linked(hash, base, c[k := c[k].(transactions := txs)], lastHash)
  {
    var c' := c[k := c[k].(transactions := txs)];
    forall i | 0 <= i < |c|
      ensures LinkedAt(hash, base, c', i)
    {
      assert LinkedAt(hash, base, c, i);
    }
  }

  // ---------------------------------------------------------------------
  // Heights across crashes and restarts
  // ---------------------------------------------------------------------

  /** Every read of the persisted height in the run succeeds. */
  predicate AllReadable(events: seq<Event>) {
    forall i :: 0 <= i < |events| && events[i].Boot? ==> events[i].readable
  }

  /** The attempts of one start are of one height after the other. */
  predicate Ascend(attempts: seq<Try>) {
    && (forall i, j :: 0 <= i < j < |attempts| && attempts[i].boot == attempts[j].boot ==>
                         attempts[j].height == attempts[i].height + (j - i))
    && (forall i, j :: 0 <= i < j < |attempts| ==> attempts[i].boot <= attempts[j].boot)
  }

  /**
   Every attempt on record is of a height above the one persisted at the start,
   and above every height saved as processed before it.
   */
  predicate Forward(attempts: seq<Try>, floor: nat) {
    && (forall i :: 0 <= i < |attempts| ==> attempts[i].height > floor)
    && (forall i, j :: 0 <= i < j < |attempts| && attempts[i].saved ==> attempts[i].height < attempts[j].height)
  }

  predicate SavedUpTo(attempts: seq<Try>, height: nat) {
    forall i :: 0 <= i < |attempts| && attempts[i].saved ==> attempts[i].height <= height
  }

  predicate HeightInv(n: Node, floor: nat) {
    && Forward(n.attempts, floor)
    && floor <= Saved(n)
    && SavedUpTo(n.attempts, Saved(n))
    && (n.process.Some? ==> Saved(n) < n.process.value.next)
  }

  /** The attempts of the present start lead up to the next height. */
  predicate LeadsTo(attempts: seq<Try>, boot: nat, next: nat) {
    forall i :: 0 <= i < |attempts| && attempts[i].boot == boot ==> next == attempts[i].height + (|attempts| - i)
  }

  predicate BootsUpTo(attempts: seq<Try>, boot: nat) {
    forall i :: 0 <= i < |attempts| ==> attempts[i].boot <= boot
  }

  predicate AscentInv(n: Node) {
    && Ascend(n.attempts)
    && BootsUpTo(n.attempts, n.boots)
    && (n.process.Some? ==> LeadsTo(n.attempts, n.boots, n.process.value.next))
  }

  lemma OneMoreAscends(attempts: seq<Try>, t: Try)
    requires Ascend(attempts) && LeadsTo(attempts, t.boot, t.height) && BootsUpTo(attempts, t.boot)
    ensures Ascend(attempts + [t])
  {
  }

  lemma OneMoreLeads(attempts: seq<Try>, t: Try)
    requires LeadsTo(attempts, t.boot, t.height) && BootsUpTo(attempts, t.boot)
    ensures LeadsTo(attempts + [t], t.boot, t.height + 1) && BootsUpTo(attempts + [t], t.boot)
  {
  }

  lemma NewBootLeads(attempts: seq<Try>, boot: nat, next: nat)
    requires BootsUpTo(attempts, boot)
    ensures BootsUpTo(attempts, boot + 1) && LeadsTo(attempts, boot + 1, next)
  {
  }

  lemma StepKeepsAscent(hash: Hash, n: Node, e: Event)
    requires AscentInv(n) && Enabled(n, e)
    ensures AscentInv(Take(hash, n, e))
  {
    match e
    case Boot(readable, count, _, _) =>
      NewBootLeads(n.attempts, n.boots, StartHeight(n, readable, count) + 1);
    case Poll(_) =>
    case Attempt(o) =>
      var t := Try(n.boots, n.process.value.next, o.accepted && o.validated && o.stored);
      OneMoreAscends(n.attempts, t);
      OneMoreLeads(n.attempts, t);
    case Manual(_) =>
    case Crash =>
  }

  lemma {:induction false} RunKeepsAscent(hash: Hash, n: Node, events: seq<Event>, end: Node)
    requires AscentInv(n) && Reaches(hash, n, events, end)
    ensures AscentInv(end)
    decreases |events|
  {
    if events != [] {
      StepKeepsAscent(hash, n, events[0]);
      RunKeepsAscent(hash, Take(hash, n, events[0]), events[1..], end);
    }
  }

  /**
   In every run, readable or not, the attempts between a start and the next crash
   are of consecutive heights, saved or refused.
   */
  lemma AttemptsAscend(hash: Hash, saved: Option<nat>, events: seq<Event>, end: Node)
    requires Reaches(hash, Down(saved), events, end)
    ensures Ascend(end.attempts)
  {
    RunKeepsAscent(hash, Down(saved), events, end);
  }

  lemma OneMoreForward(attempts: seq<Try>, t: Try, floor: nat, height: nat)
    requires Forward(attempts, floor) && SavedUpTo(attempts, height) && floor <= height < t.height
    ensures Forward(attempts + [t], floor)
    ensures SavedUpTo(attempts + [t], if t.saved then t.height else height)
  {
  }

  lemma StepKeepsHeights(hash: Hash, n: Node, e: Event, floor: nat)
    requires HeightInv(n, floor) && Enabled(n, e)
    requires e.Boot? ==> e.readable
    ensures HeightInv(Take(hash, n, e), floor)
  {
    if e.Attempt? {
      var o := e.outcome;
      var t := Try(n.boots, n.process.value.next, o.accepted && o.validated && o.stored);
      OneMoreForward(n.attempts, t, floor, Saved(n));
    }
  }

  lemma {:induction false} RunKeepsHeights(hash: Hash, n: Node, events: seq<Event>, end: Node, floor: nat)
    requires HeightInv(n, floor) && AllReadable(events) && Reaches(hash, n, events, end)
    ensures HeightInv(end, floor)
    decreases |events|
  {
    if events != [] {
      StepKeepsHeights(hash, n, events[0], floor);
      RunKeepsHeights(hash, Take(hash, n, events[0]), events[1..], end, floor);
    }
  }

  /**
   Across any number of crashes and restarts, as long as the persisted height can
   be read, no height at or below the persisted one is ever attempted, and a
   height saved as processed is never attempted again, nor any below it.  A
   height comes up twice only when its first attempt was not saved and a crash
   came between the two.
   */
  lemma NoHeightIsRedone(hash: Hash, saved: Option<nat>, events: seq<Event>, end: Node)
    requires Reaches(hash, Down(saved), events, end) && AllReadable(events)
    ensures Forward(end.attempts, Saved(Down(saved)))
    ensures end.process.Some? ==> Saved(end) < end.process.value.next
    ensures forall i, j :: 0 <= i < j < |end.attempts| && end.attempts[j].height <= end.attempts[i].height ==>
                             !end.attempts[i].saved && end.attempts[i].boot < end.attempts[j].boot
  {
    AttemptsAscend(hash, saved, events, end);
    RunKeepsHeights(hash, Down(saved), events, end, Saved(Down(saved)));
  }

  // ---------------------------------------------------------------------
  // Where a start goes on
  // ---------------------------------------------------------------------

  /** The attempts from position `from` on are of the heights `first`, `first + 1`, and so on. */
  predicate CountsUp(attempts: seq<Try>, from: nat, first: nat) {
    forall i :: from <= i < |attempts| ==> attempts[i].height == first + (i - from)
  }

  /** The persisted height is the last one saved since, or else what there was at the start. */
  predicate TellsSaved(attempts: seq<Try>, from: nat, start: Option<nat>, saved: Option<nat>) {
    && ((forall i :: from <= i < |attempts| ==> !attempts[i].saved) ==> saved == start)
    && (forall i :: from <= i < |attempts| && attempts[i].saved
                    && (forall j :: i < j < |attempts| ==> !attempts[j].saved) ==>
                      saved == Some(attempts[i].height))
  }

  /** Since the attempts numbered `from`, one start at `first` has gone on. */
  predicate GoesOn(n: Node, from: nat, first: nat, start: Option<nat>) {
    && from <= |n.attempts|
    && CountsUp(n.attempts, from, first)
    && TellsSaved(n.attempts, from, start, n.saved)
    && (n.process.Some? ==> n.process.value.next == first + (|n.attempts| - from))
  }

  lemma TellsOneMore(attempts: seq<Try>, from: nat, start: Option<nat>, saved: Option<nat>, t: Try)
    requires from <= |attempts| && TellsSaved(attempts, from, start, saved)
    ensures TellsSaved(attempts + [t], from, start, if t.saved then Some(t.height) else saved)
  {
    var more := attempts + [t];
    assert more[|attempts|] == t;
    assert forall i :: 0 <= i < |attempts| ==> more[i] == attempts[i];
  }

  lemma StepGoesOn(hash: Hash, n: Node, e: Event, from: nat, first: nat, start: Option<nat>)
    requires Enabled(n, e) && !e.Boot? && GoesOn(n, from, first, start)
    ensures GoesOn(Take(hash, n, e), from, first, start)
  {
    if e.Attempt? {
      var o := e.outcome;
      var t := Try(n.boots, n.process.value.next, o.accepted && o.validated && o.stored);
      TellsOneMore(n.attempts, from, start, n.saved, t);
    }
  }

  lemma {:induction false} RunGoesOn(
    hash: Hash, n: Node, events: seq<Event>, end: Node, from: nat, first: nat, start: Option<nat>)
    requires NoBoot(events) && Reaches(hash, n, events, end) && GoesOn(n, from, first, start)
    ensures GoesOn(end, from, first, start)
    decreases |events|
  {
    if events != [] {
      EventsCons(events);
      StepGoesOn(hash, n, events[0], from, first, start);
      RunGoesOn(hash, Take(hash, n, events[0]), events[1..], end, from, first, start);
    }
  }

  /**
   Where every start goes on, `read` being the height it read, 0 if it could not
   or there was none.  A start that reads 0 and is answered the Bitcoin height `c`
   attempts `c + 1`, `c + 2`, and so on, and persists `c` if it can; any other
   start goes on right after what it read.
   */
  lemma StartGoesOn(hash: Hash, n: Node, boot: Event, after: seq<Event>, end: Node, read: nat)
    requires boot.Boot? && NoBoot(after) && Reaches(hash, n, [boot] + after, end)
    requires read == if boot.readable && n.saved.Some? then n.saved.value else 0
    ensures read == 0 && boot.count.Some? ==>
              GoesOn(end, |n.attempts|, boot.count.value + 1, if boot.stored then boot.count else n.saved)
    ensures read > 0 || boot.count.None? ==> GoesOn(end, |n.attempts|, read + 1, n.saved)
  {
    var first := if read == 0 && boot.count.Some? then boot.count.value + 1 else read + 1;
    var start := if read == 0 && boot.count.Some? && boot.stored then boot.count else n.saved;
    assert ([boot] + after)[0] == boot && ([boot] + after)[1..] == after;
    RunGoesOn(hash, Take(hash, n, boot), after, end, |n.attempts|, first, start);
  }

  /**
   A first start never sequences the old blocks: answered the height `c` and able
   to persist it, neither it nor any later start that can read what is persisted
   attempts a height up to `c`, over any number of crashes.
   */
  lemma FirstStartSkipsOldBlocks(hash: Hash, events: seq<Event>, end: Node, c: nat)
    requires Reaches(hash, Down(None), events, end) && AllReadable(events)
    requires events != [] && events[0].Boot? && events[0].count == Some(c) && events[0].stored
    ensures forall i :: 0 <= i < |end.attempts| ==> end.attempts[i].height > c
  {
    var rest := events[1..];
    assert forall i :: 0 <= i < |rest| ==> rest[i] == events[i + 1];
    var n := Take(hash, Down(None), events[0]);
    assert n.saved == Some(c) && n.process.value.next == c + 1;
    RunKeepsHeights(hash, n, rest, end, c);
  }

  /** No answer to the polls of the run is above `top`. */
  predicate AnswersUpTo(events: seq<Event>, top: nat) {
    forall i :: 0 <= i < |events| && events[i].Poll? && events[i].count.Some? ==> events[i].count.value <= top
  }

  predicate AttemptsUpTo(n: Node, top: nat) {
    && (forall i :: 0 <= i < |n.attempts| ==> n.attempts[i].height <= top)
    && (n.process.Some? ==> n.process.value.target <= top || n.process.value.target < n.process.value.next)
  }

  lemma StepStaysUpTo(hash: Hash, n: Node, e: Event, top: nat)
    requires Enabled(n, e) && AttemptsUpTo(n, top)
    requires e.Poll? && e.count.Some? ==> e.count.value <= top
    ensures AttemptsUpTo(Take(hash, n, e), top)
  {
  }

  lemma {:induction false} RunStaysUpTo(hash: Hash, n: Node, events: seq<Event>, end: Node, top: nat)
    requires Reaches(hash, n, events, end) && AttemptsUpTo(n, top) && AnswersUpTo(events, top)
    ensures AttemptsUpTo(end, top)
    decreases |events|
  {
    if events != [] {
      var rest := events[1..];
      assert forall i :: 0 <= i < |rest| ==> rest[i] == events[i + 1];
      StepStaysUpTo(hash, n, events[0], top);
      RunStaysUpTo(hash, Take(hash, n, events[0]), rest, end, top);
    }
  }

  /** No height is attempted before a poll was answered with it or with a higher one. */
  lemma AttemptsAreAnswered(hash: Hash, saved: Option<nat>, events: seq<Event>, end: Node, top: nat)
    requires Reaches(hash, Down(saved), events, end) && AnswersUpTo(events, top)
    ensures forall i :: 0 <= i < |end.attempts| ==> end.attempts[i].height <= top
  {
    RunStaysUpTo(hash, Down(saved), events, end, top);
  }

  /** And a height is due right after a poll exactly when the answer has reached it. */
  lemma DueAfterPoll(hash: Hash, saved: Option<nat>, events: seq<Event>, n: Node, count: Option<nat>, o: Outcome)
    requires Reaches(hash, Down(saved), events, n) && Enabled(n, Poll(count)) && o.anchor.None?
    ensures Enabled(Take(hash, n, Poll(count)), Attempt(o))
            <==> count.Some? && count.value >= n.process.value.next
  {
    RunKeepsChain(hash, Down(saved), events, n);
  }

  /**
   A start goes on above the persisted height exactly when that height could be
   read, or is zero, or the node's own height query answered with no less.
   */
  lemma StartIsSafeIff(n: Node, readable: bool, count: Option<nat>)
    ensures StartHeight(n, readable, count) >= Saved(n)
            <==> readable || Saved(n) == 0 || (count.Some? && count.value >= Saved(n))
  {
  }

  /**
   A restart that reads nothing and gets no answer goes back to the first height:
   from any process with a saved height such a crash and start are possible, and
   once the chain is known to reach that height, height 1 is tried again.
   */
  lemma UnreadableRestartRedoes(hash: Hash, n: Node, stored: bool, base: Option<string>, o: Outcome)
    returns (end: Node)
    requires n.process.Some? && n.saved.Some? && n.saved.value >= 1
    requires o.anchor.Some? ==> o.anchor.value.height == 1
    ensures Reaches(hash, n, [Crash, Boot(false, None, stored, base), Poll(n.saved), Attempt(o)], end)
    ensures |end.attempts| == |n.attempts| + 1 && end.attempts[..|n.attempts|] == n.attempts
    ensures end.attempts[|n.attempts|].height == 1 && end.process.Some? && end.process.value.next == 2
  {
    var boot, poll, attempt := Boot(false, None, stored, base), Poll(n.saved), Attempt(o);
    var up := Take(hash, Take(hash, n, Crash), boot);
    end := Take(hash, Take(hash, up, poll), attempt);
    ReachesTwo(hash, n, Crash, boot);
    ReachesTwo(hash, up, poll, attempt);
    ReachesJoin(hash, n, [Crash, boot], up, [poll, attempt], end);
    assert [Crash, boot] + [poll, attempt] == [Crash, boot, poll, attempt];
  }

  /**
   A block may be requested at any time by whoever is entitled to; it is numbered next, and
   neither the heights still to come nor the persisted height move.
   */
  lemma ManualRunsAnyTime(hash: Hash, n: Node, o: Outcome) returns (end: Node)
    requires n.process.Some? && o.accepted && (o.anchor.Some? ==> o.anchor.value.height == 0)
    ensures Reaches(hash, n, [Manual(o)], end) && end.saved == n.saved && end.attempts == n.attempts
    ensures end.process.Some? && end.process.value.next == n.process.value.next
    ensures var before, after := n.process.value.chain, end.process.value.chain;
            && |after| == |before| + 1 && after[..|before|] == before && after[|before|].anchor == o.anchor
            && after[|before|].number == (if before == [] then 1 else before[|before| - 1].number + 1)
            && after[|before|].transactions == o.transactions
  {
    end := Take(hash, n, Manual(o));
    assert [Manual(o)][1..] == [];
    assert Reaches(hash, end, [], end);
  }
}
