/**
 The Rust global allocator on top of the UEFI pool: requests aligned to more
 than eight bytes are over-allocated, shifted, and carry the address of their
 pool block in the eight bytes just below the pointer handed out.

 Memory is explicit.  `Heap` is what the machine holds between two calls;
 `live` is the caller's side of it, the pointers handed out and not yet
 returned.
 */
module PoolAllocator {
  import opened Words
  import opened Wrappers

  datatype Layout = Layout(size: nat, align: nat)

  /** A pointer handed out: the layout it was asked for and the block it lies in. */
  datatype Grant = Grant(layout: Layout, block: nat)

  datatype Heap = Heap(mem: seq<Byte>, pool: map<nat, nat>, live: map<nat, Grant>)

  predicate PowerOfTwo(n: nat) {
    n == 1 || (n > 0 && n % 2 == 0 && PowerOfTwo(n / 2))
  }

  /** What Rust promises of the layout of an allocation. */
  predicate ValidLayout(l: Layout) {
    && l.size > 0
    && PowerOfTwo(l.align)
    && (l.size + l.align - 1) / l.align * l.align < 0x8000_0000_0000_0000
  }

  predicate Disjoint(a: nat, m: nat, b: nat, n: nat) {
    a + m <= b || b + n <= a
  }

  // ---------------------------------------------------------------------
  // The steps
  // ---------------------------------------------------------------------

  /** How many bytes the allocator asks the pool for. */
  function Request(l: Layout): nat {
    if l.align > 8 then l.size + l.align else l.size
  }

  /**
   AllocatePool of the UEFI Specification, section 7.2: a block aligned to
   eight bytes, inside memory, apart from every block still allocated.
   */
  predicate PoolMayReturn(h: Heap, n: nat, base: nat) {
    && base > 0
    && base % 8 == 0
    && base + n <= |h.mem|
    && forall b :: b in h.pool ==> Disjoint(base, n, b, h.pool[b])
  }

  /** `align_offset`: the distance to the next multiple of `align`. */
  function AlignOffset(p: nat, align: nat): nat
    requires align > 0
  {
    (align - p % align) % align
  }

  function Shift(base: nat, align: nat): nat
    requires align > 0
  {
    var offset := AlignOffset(base, align);
    if offset == 0 then align else offset
  }

  function Store(mem: seq<Byte>, at: nat, bytes: seq<Byte>): (r: seq<Byte>)
    requires at + |bytes| <= |mem|
    ensures |r| == |mem| && r[at..at + |bytes|] == bytes
    ensures forall i :: 0 <= i < |mem| && !(at <= i < at + |bytes|) ==> r[i] == mem[i]
  {
    mem[..at] + bytes + mem[at + |bytes|..]
  }

  /** The pointer `alloc` returns when the pool offers `base`. */
  function Pointer(l: Layout, base: nat): nat
    requires l.align > 0
  {
    if l.align > 8 then base + Shift(base, l.align) else base
  }

  /** Block `base` taken for the request and recorded below `p`. */
  function Granted(h: Heap, l: Layout, base: nat, p: nat): Heap
    requires l.align > 8 ==> 8 <= p <= |h.mem|
  {
    Heap(if l.align > 8 then Store(h.mem, p - 8, ToLe(base, 8)) else h.mem,
         h.pool[base := Request(l)],
         h.live[p := Grant(l, base)])
  }

  /** `alloc`, given the pool's answer; the null pointer is 0. */
  function AllocStep(h: Heap, l: Layout, offer: Option<nat>): (r: (Heap, nat))
    requires ValidLayout(l)
    requires offer.Some? ==> PoolMayReturn(h, Request(l), offer.value)
  {
    match offer
    case None => (h, 0)
    case Some(base) =>
      PointerFits(l, base);
      var p := Pointer(l, base);
      (Granted(h, l, base, p), p)
  }

  /** The block `dealloc` gives back to the pool. */
  function BlockOf(mem: seq<Byte>, p: nat, l: Layout): nat
    requires l.align > 8 ==> 8 <= p <= |mem|
  {
    if l.align > 8 then FromLe(mem[p - 8..p]) else p
  }

  function DeallocStep(h: Heap, p: nat, l: Layout): Heap
    requires l.align > 8 ==> 8 <= p <= |h.mem|
  {
    Heap(h.mem, h.pool - {BlockOf(h.mem, p, l)}, h.live - {p})
  }

  // ---------------------------------------------------------------------
  // Arithmetic of the shift
  // ---------------------------------------------------------------------

  lemma {:induction false} PowersOfTwo(n: nat)
    requires PowerOfTwo(n)
    ensures n > 0
    ensures n > 8 ==> n % 16 == 0
    ensures n <= 8 ==> n == 1 || n == 2 || n == 4 || n == 8
  {
    if n != 1 {
      PowersOfTwo(n / 2);
      assert n == 2 * (n / 2);
    }
  }

  lemma AlignOffsetAligns(p: nat, align: nat)
    requires align > 0
    ensures AlignOffset(p, align) < align
    ensures (p + AlignOffset(p, align)) % align == 0
  {
    var r := p % align;
    var q := p / align;
    assert p == q * align + r;
    if r == 0 {
      assert AlignOffset(p, align) == 0 by { MultipleOf(1, align); }
    } else {
      assert AlignOffset(p, align) == align - r by { SmallMod(align - r, align); }
      assert p + (align - r) == (q + 1) * align;
      MultipleOf(q + 1, align);
    }
  }

  lemma {:induction false} MultipleOf(k: nat, n: nat)
    requires n > 0
    ensures (k * n) % n == 0
  {
    if k > 0 {
      MultipleOf(k - 1, n);
      AddModulus((k - 1) * n, n);
      assert k * n == (k - 1) * n + n;
    }
  }

  /** Two multiples of eight differ by a multiple of eight, whatever the factors of the larger. */
  lemma EightDividesDifference(base: nat, offset: nat, k: nat, eighth: nat)
    requires base % 8 == 0 && base + offset == k * (8 * eighth)
    ensures offset % 8 == 0
  {
    var m := k * eighth;
    assert k * (8 * eighth) == 8 * m;
    assert base == 8 * (base / 8);
    assert offset == 8 * (m - base / 8);
  }

  lemma EightDividesOffset(base: nat, align: nat)
    requires base % 8 == 0 && align % 16 == 0 && align > 0
    ensures AlignOffset(base, align) % 8 == 0
  {
    AlignOffsetAligns(base, align);
    var end := base + AlignOffset(base, align);
    assert end == end / align * align;
    assert align == 8 * (align / 8);
    EightDividesDifference(base, AlignOffset(base, align), end / align, align / 8);
  }

  lemma EightDividesShift(base: nat, align: nat)
    requires base % 8 == 0 && align % 16 == 0 && align > 0
    ensures Shift(base, align) % 8 == 0 && 8 <= Shift(base, align) <= align
    ensures (base + Shift(base, align)) % align == 0
  {
    AlignOffsetAligns(base, align);
    EightDividesOffset(base, align);
    if AlignOffset(base, align) == 0 {
      AddModulus(base, align);
    }
  }

  lemma PointerFits(l: Layout, base: nat)
    requires ValidLayout(l) && base > 0 && base % 8 == 0
    ensures Placed(l, base, Pointer(l, base))
  {
    PowersOfTwo(l.align);
    if l.align > 8 {
      EightDividesShift(base, l.align);
    }
  }

  lemma RoundedDown(x: nat, n: nat)
    requires 0 < n <= x
    ensures n <= x / n * n && x < x / n * n + n
  {
    var k := x / n;
    assert x == k * n + x % n;
    MultipleBound(k, n);
  }

  /** The request made of the pool never overflows a machine word. */
  lemma RequestFitsWord(l: Layout)
    requires ValidLayout(l)
    ensures Request(l) < TWO_64
  {
    PowersOfTwo(l.align);
    RoundedDown(l.size + l.align - 1, l.align);
  }

  lemma AlignedNeedsNoOffset(align: nat)
    requires align > 0
    ensures AlignOffset(align, align) == 0
  {
    MultipleOf(1, align);
    var n := 1 * align;
    assert n % align == 0;
  }

  /** And no byte of it is to spare: a block may start so that the payload ends with it. */
  lemma RequestIsTight(l: Layout)
    requires ValidLayout(l)
    ensures exists base: nat :: base > 0 && base % 8 == 0 && Pointer(l, base) + l.size == base + Request(l)
  {
    PowersOfTwo(l.align);
    if l.align > 8 {
      AlignedNeedsNoOffset(l.align);
      assert Pointer(l, l.align) + l.size == l.align + Request(l);
    } else {
      assert Pointer(l, 8) + l.size == 8 + Request(l);
    }
  }

  // ---------------------------------------------------------------------
  // The invariant
  // ---------------------------------------------------------------------

  ghost predicate BlocksInRange(h: Heap) {
    forall b :: b in h.pool ==> b > 0 && b % 8 == 0 && h.pool[b] > 0 && b + h.pool[b] <= |h.mem|
  }

  ghost predicate BlocksApart(h: Heap) {
    forall b, c :: b in h.pool && c in h.pool && b != c ==>
                     Disjoint(b, h.pool[b], c, h.pool[c])
  }

  predicate Aligned(p: nat, align: nat) {
    align > 0 && p % align == 0
  }

  /** The pointer, its back-pointer and its payload lie inside the block. */
  predicate Placed(l: Layout, block: nat, p: nat) {
    && Aligned(p, l.align)
    && p + l.size <= block + Request(l)
    && (if l.align > 8 then block + 8 <= p else p == block)
  }

  predicate GrantInv(h: Heap, p: nat)
    requires p in h.live
  {
    var Grant(l, block) := h.live[p];
    && block in h.pool
    && h.pool[block] == Request(l)
    && l.size > 0
    && p <= |h.mem|
    && Placed(l, block, p)
    && (l.align > 8 ==> h.mem[p - 8..p] == ToLe(block, 8))
  }

  ghost predicate GrantsHold(h: Heap) {
    forall p :: p in h.live ==> GrantInv(h, p)
  }

  ghost predicate BlocksUsedOnce(h: Heap) {
    forall p, q :: p in h.live && q in h.live && p != q ==> h.live[p].block != h.live[q].block
  }

  /** Every allocated block belongs to a live pointer: nothing leaks. */
  ghost predicate BlocksAllUsed(h: Heap) {
    forall b :: b in h.pool ==> exists p :: p in h.live && h.live[p].block == b
  }

  ghost predicate Inv(h: Heap) {
    && |h.mem| <= TWO_64
    && BlocksInRange(h)
    && BlocksApart(h)
    && GrantsHold(h)
    && BlocksUsedOnce(h)
    && BlocksAllUsed(h)
  }

  lemma BackPointerReads(block: nat)
    requires block < TWO_64
    ensures FromLe(ToLe(block, 8)) == block
  {
    assert Pow256(8) == TWO_64 by {
      assert Pow256(4) == 0x1_0000_0000 by { assert Pow256(2) == 65536 by { assert Pow256(1) == 256; } }
      assert Pow256(6) == 0x1_0000_0000_0000;
    }
    FromLeToLe(block, 8);
  }

  /** Writing inside one block leaves the grants of the others alone. */
  lemma OtherGrantKept(h: Heap, p: nat, h': Heap, lo: nat, n: nat)
    requires p in h.live && GrantInv(h, p)
    requires |h'.mem| == |h.mem|
    requires p in h'.live && h'.live[p] == h.live[p]
    requires h.live[p].block in h'.pool
    requires h'.pool[h.live[p].block] == h.pool[h.live[p].block]
    requires Disjoint(h.live[p].block, h.pool[h.live[p].block], lo, n)
    requires forall i :: 0 <= i < |h.mem| && !(lo <= i < lo + n) ==> h'.mem[i] == h.mem[i]
    ensures GrantInv(h', p)
  {
    if h.live[p].layout.align > 8 {
      assert h'.mem[p - 8..p] == h.mem[p - 8..p];
    }
  }

  lemma NewBlockFits(h: Heap, h': Heap, n: nat, base: nat)
    requires BlocksInRange(h) && BlocksApart(h)
    requires n > 0 && PoolMayReturn(h, n, base)
    requires h'.pool == h.pool[base := n] && |h'.mem| == |h.mem|
    ensures base !in h.pool
    ensures BlocksInRange(h') && BlocksApart(h')
  {
    assert base in h.pool ==> Disjoint(base, n, base, h.pool[base]);
  }

  /** Everything outside a new block being kept, so are the grants of the other blocks. */
  lemma NewBlockKeepsGrants(h: Heap, h': Heap, n: nat, base: nat)
    requires GrantsHold(h) && PoolMayReturn(h, n, base) && base !in h.pool
    requires |h'.mem| == |h.mem|
    requires forall b :: b in h.pool ==> b in h'.pool && h'.pool[b] == h.pool[b]
    requires forall i :: 0 <= i < |h.mem| && !(base <= i < base + n) ==> h'.mem[i] == h.mem[i]
    ensures forall q :: q in h.live && q in h'.live && h'.live[q] == h.live[q] ==> GrantInv(h', q)
  {
    forall q | q in h.live && q in h'.live && h'.live[q] == h.live[q]
      ensures GrantInv(h', q)
    {
      assert GrantInv(h, q);
      var block := h.live[q].block;
      assert Disjoint(base, n, block, h.pool[block]);
      OtherGrantKept(h, q, h', base, n);
    }
  }

  lemma NewPointerIsNew(h: Heap, l: Layout, base: nat, p: nat)
    requires GrantsHold(h) && l.size > 0 && PoolMayReturn(h, Request(l), base)
    requires Placed(l, base, p)
    ensures p !in h.live
  {
    assert forall q :: q in h.live ==> GrantInv(h, q) && q != p by {
      forall q | q in h.live
        ensures GrantInv(h, q) && q != p
      {
        assert GrantInv(h, q);
        var block := h.live[q].block;
        assert Disjoint(base, Request(l), block, h.pool[block]);
      }
    }
  }

  lemma GrantedGrants(h: Heap, l: Layout, base: nat, p: nat)
    requires Inv(h) && l.size > 0 && PoolMayReturn(h, Request(l), base)
    requires base !in h.pool && Placed(l, base, p)
    ensures GrantsHold(Granted(h, l, base, p))
    ensures p !in h.live
  {
    var h' := Granted(h, l, base, p);
    NewPointerIsNew(h, l, base, p);
    NewBlockKeepsGrants(h, h', Request(l), base);
    assert GrantInv(h', p);
  }

  lemma GrantedKeepsInv(h: Heap, l: Layout, base: nat, p: nat)
    requires Inv(h) && l.size > 0 && PoolMayReturn(h, Request(l), base)
    requires Placed(l, base, p)
    ensures Inv(Granted(h, l, base, p))
  {
    var h' := Granted(h, l, base, p);
    NewBlockFits(h, h', Request(l), base);
    GrantedGrants(h, l, base, p);
    GrantedUsesBlocks(h, h', base, p);
  }

  lemma NoGrantHas(h: Heap, base: nat)
    requires GrantsHold(h) && base !in h.pool
    ensures forall q :: q in h.live ==> h.live[q].block != base
  {
    forall q | q in h.live
      ensures h.live[q].block != base
    {
      assert GrantInv(h, q);
    }
  }

  /** A new pointer with a block of its own keeps blocks and pointers one to one. */
  lemma GrantedUsesBlocks(h: Heap, h': Heap, base: nat, p: nat)
    requires GrantsHold(h) && BlocksUsedOnce(h) && BlocksAllUsed(h)
    requires p !in h.live && base !in h.pool
    requires p in h'.live && h'.live == h.live[p := h'.live[p]] && h'.live[p].block == base
    requires h'.pool.Keys == h.pool.Keys + {base}
    ensures BlocksUsedOnce(h') && BlocksAllUsed(h')
  {
    NoGrantHas(h, base);
    forall b | b in h'.pool
      ensures exists q :: q in h'.live && h'.live[q].block == b
    {
      if b == base {
        assert h'.live[p].block == b;
      } else {
        var q :| q in h.live && h.live[q].block == b;
        assert h'.live[q].block == b;
      }
    }
  }

  lemma AllocKeepsInv(h: Heap, l: Layout, offer: Option<nat>)
    requires Inv(h) && ValidLayout(l)
    requires offer.Some? ==> PoolMayReturn(h, Request(l), offer.value)
    ensures Inv(AllocStep(h, l, offer).0)
  {
    if offer.Some? {
      PointerFits(l, offer.value);
      GrantedKeepsInv(h, l, offer.value, Pointer(l, offer.value));
    }
  }

  lemma BackPointerLeadsHome(h: Heap, p: nat)
    requires Inv(h) && p in h.live
    ensures h.live[p].layout.align > 8 ==> 8 <= p <= |h.mem|
    ensures BlockOf(h.mem, p, h.live[p].layout) == h.live[p].block
  {
    assert GrantInv(h, p);
    BackPointerReads(h.live[p].block);
  }

  /** The grant of `p` and its block are gone, nothing else is changed. */
  predicate Without(h: Heap, p: nat, h': Heap)
    requires p in h.live
  {
    h' == Heap(h.mem, h.pool - {h.live[p].block}, h.live - {p})
  }

  lemma GrantsWithout(h: Heap, p: nat, h': Heap)
    requires p in h.live && Without(h, p, h')
    requires GrantsHold(h) && BlocksUsedOnce(h)
    ensures GrantsHold(h')
  {
    forall q | q in h'.live
      ensures GrantInv(h', q)
    {
      assert GrantInv(h, q);
    }
  }

  lemma BlocksUsedWithout(h: Heap, p: nat, h': Heap)
    requires p in h.live && Without(h, p, h')
    requires BlocksUsedOnce(h) && BlocksAllUsed(h)
    ensures BlocksUsedOnce(h') && BlocksAllUsed(h')
  {
    forall b | b in h'.pool
      ensures exists q :: q in h'.live && h'.live[q].block == b
    {
      var q :| q in h.live && h.live[q].block == b;
      assert h'.live[q].block == b;
    }
  }

  lemma BlocksWithout(h: Heap, p: nat, h': Heap)
    requires p in h.live && Without(h, p, h')
    requires BlocksInRange(h) && BlocksApart(h)
    ensures BlocksInRange(h') && BlocksApart(h')
  {
  }

  lemma DeallocKeepsInv(h: Heap, p: nat)
    requires Inv(h) && p in h.live
    requires h.live[p].layout.align > 8 ==> 8 <= p <= |h.mem|
    ensures Inv(DeallocStep(h, p, h.live[p].layout))
  {
    BackPointerLeadsHome(h, p);
    var h' := DeallocStep(h, p, h.live[p].layout);
    GrantsWithout(h, p, h');
    BlocksUsedWithout(h, p, h');
    BlocksWithout(h, p, h');
  }

  lemma PoolIsInUse(h: Heap)
    requires GrantsHold(h) && BlocksAllUsed(h)
    ensures h.pool.Keys == set q | q in h.live :: h.live[q].block
  {
    forall q | q in h.live
      ensures h.live[q].block in h.pool
    {
      assert GrantInv(h, q);
    }
  }

  // ---------------------------------------------------------------------
  // Whole runs
  // ---------------------------------------------------------------------

  /**
   Everything that can happen to the heap.  `Write` is a caller storing into
   its own payload.  `Firmware` is everybody else: memory outside the allocated
   blocks may change in any way at any time.
   */
  datatype Op =
    | Alloc(layout: Layout, offer: Option<nat>)
    | Dealloc(ptr: nat)
    | Write(ptr: nat, at: nat, value: Byte)
    | Firmware(mem: seq<Byte>)

  predicate Legal(h: Heap, op: Op) {
    match op
    case Alloc(l, offer) =>
      ValidLayout(l) && (offer.Some? ==> PoolMayReturn(h, Request(l), offer.value))
    case Dealloc(p) =>
      p in h.live && (h.live[p].layout.align > 8 ==> 8 <= p <= |h.mem|)
    case Write(p, at, _) =>
      p in h.live && at < h.live[p].layout.size && p + at < |h.mem|
    case Firmware(mem) =>
      && |mem| == |h.mem|
      && forall b, i :: b in h.pool && b <= i < b + h.pool[b] && i < |mem| ==> mem[i] == h.mem[i]
  }

  function Perform(h: Heap, op: Op): Heap
    requires Legal(h, op)
  {
    match op
    case Alloc(l, offer) => AllocStep(h, l, offer).0
    case Dealloc(p) => DeallocStep(h, p, h.live[p].layout)
    case Write(p, at, b) => h.(mem := h.mem[p + at := b])
    case Firmware(mem) => h.(mem := mem)
  }

  predicate Runs(h: Heap, ops: seq<Op>, end: Heap)
    decreases |ops|
  {
    if ops == [] then end == h
    else Legal(h, ops[0]) && Runs(Perform(h, ops[0]), ops[1..], end)
  }

  lemma WriteKeepsInv(h: Heap, p: nat, at: nat, b: Byte)
    requires Inv(h) && Legal(h, Write(p, at, b))
    ensures Inv(Perform(h, Write(p, at, b)))
  {
    var h' := Perform(h, Write(p, at, b));
    assert GrantInv(h, p);
    forall q | q in h.live
      ensures GrantInv(h', q)
    {
      assert GrantInv(h, q);
      if q == p {
        if h.live[p].layout.align > 8 {
          assert h'.mem[p - 8..p] == h.mem[p - 8..p];
        }
      } else {
        OtherGrantKept(h, q, h', p + at, 1);
      }
    }
  }

  lemma FirmwareKeepsInv(h: Heap, mem: seq<Byte>)
    requires Inv(h) && Legal(h, Firmware(mem))
    ensures Inv(Perform(h, Firmware(mem)))
  {
    var h' := Perform(h, Firmware(mem));
    forall q | q in h.live
      ensures GrantInv(h', q)
    {
      assert GrantInv(h, q);
      var g := h.live[q];
      if g.layout.align > 8 {
        forall i | q - 8 <= i < q
          ensures mem[i] == h.mem[i]
        {
          assert g.block in h.pool && g.block <= i < g.block + h.pool[g.block];
        }
        assert mem[q - 8..q] == h.mem[q - 8..q];
      }
    }
  }

  lemma {:induction false} RunKeepsInv(h: Heap, ops: seq<Op>, end: Heap)
    requires Inv(h) && Runs(h, ops, end)
    ensures Inv(end)
    decreases |ops|
  {
    if ops != [] {
      match ops[0] {
        case Alloc(l, offer) => AllocKeepsInv(h, l, offer);
        case Dealloc(p) => DeallocKeepsInv(h, p);
        case Write(p, at, b) => WriteKeepsInv(h, p, at, b);
        case Firmware(mem) => FirmwareKeepsInv(h, mem);
      }
      RunKeepsInv(Perform(h, ops[0]), ops[1..], end);
    }
  }

  // ---------------------------------------------------------------------
  // Main results
  // ---------------------------------------------------------------------

  /**
   After any run from an empty pool, every pointer out in the world is aligned,
   its payload and its back-pointer lie inside one allocated block, and no
   payload overlaps the payload or the back-pointer of another.
   */
  lemma LivePointersAreSound(mem: seq<Byte>, ops: seq<Op>, h: Heap, p: nat, q: nat)
    requires |mem| <= TWO_64
    requires Runs(Heap(mem, map[], map[]), ops, h)
    requires p in h.live && q in h.live
    ensures var Grant(l, block) := h.live[p];
            && l.align > 0
            && p % l.align == 0
            && block in h.pool
            && block + (if l.align > 8 then 8 else 0) <= p
            && p + l.size <= block + h.pool[block]
    ensures p != q ==>
              var back := if h.live[q].layout.align > 8 then 8 else 0;
              && back <= q
              && Disjoint(p, h.live[p].layout.size, q - back, back + h.live[q].layout.size)
  {
    RunKeepsInv(Heap(mem, map[], map[]), ops, h);
    assert GrantInv(h, p) && GrantInv(h, q);
    if p != q {
      assert Disjoint(h.live[p].block, h.pool[h.live[p].block], h.live[q].block, h.pool[h.live[q].block]);
    }
  }

  /**
   After any run, returning a pointer gives the pool back exactly the block it
   came from, keeps every other block, and nothing is leaked: the allocated
   blocks are those of the live pointers.
   */
  lemma DeallocFreesItsBlock(mem: seq<Byte>, ops: seq<Op>, h: Heap, p: nat)
    requires |mem| <= TWO_64
    requires Runs(Heap(mem, map[], map[]), ops, h)
    requires p in h.live
    ensures Legal(h, Dealloc(p))
    ensures BlockOf(h.mem, p, h.live[p].layout) == h.live[p].block
    ensures h.live[p].block in h.pool
    ensures h.pool.Keys == set q | q in h.live :: h.live[q].block
    ensures Perform(h, Dealloc(p)).pool == h.pool - {h.live[p].block}
  {
    RunKeepsInv(Heap(mem, map[], map[]), ops, h);
    BackPointerLeadsHome(h, p);
    PoolIsInUse(h);
    assert GrantInv(h, p);
  }

  /**
   After any run an allocation is possible, and without a block from the pool
   returns null and changes nothing.  With one it returns a new pointer, live with
   its layout and that block, of exactly the bytes it needs; of the memory only the
   eight bytes below an over-aligned pointer change.
   */
  lemma AllocGrantsWhatItReturns(mem: seq<Byte>, ops: seq<Op>, h: Heap, l: Layout, offer: Option<nat>)
    requires |mem| <= TWO_64
    requires Runs(Heap(mem, map[], map[]), ops, h)
    requires ValidLayout(l) && (offer.Some? ==> PoolMayReturn(h, Request(l), offer.value))
    ensures Legal(h, Alloc(l, offer)) && Perform(h, Alloc(l, offer)) == AllocStep(h, l, offer).0
    ensures var (h', p) := AllocStep(h, l, offer);
            match offer
            case None => p == 0 && h' == h
            case Some(base) =>
              && p > 0 && p !in h.live && h'.live == h.live[p := Grant(l, base)]
              && h'.pool == h.pool[base := if l.align > 8 then l.size + l.align else l.size]
              && |h'.mem| == |h.mem|
              && forall i :: 0 <= i < |h.mem| && !(l.align > 8 && p - 8 <= i < p) ==> h'.mem[i] == h.mem[i]
  {
    RunKeepsInv(Heap(mem, map[], map[]), ops, h);
    if offer.Some? {
      PointerFits(l, offer.value);
      NewPointerIsNew(h, l, offer.value, Pointer(l, offer.value));
    }
  }

  /** Of the payload of `q` or the back-pointer below it. */
  predicate BytesOf(h: Heap, q: nat, i: int)
    requires q in h.live
  {
    q - (if h.live[q].layout.align > 8 then 8 else 0) <= i < q + h.live[q].layout.size
  }

  lemma LiveByteFits(mem: seq<Byte>, ops: seq<Op>, h: Heap, p: nat, at: nat)
    requires |mem| <= TWO_64
    requires Runs(Heap(mem, map[], map[]), ops, h)
    requires p in h.live && at < h.live[p].layout.size
    ensures p + at < |h.mem|
  {
    RunKeepsInv(Heap(mem, map[], map[]), ops, h);
    assert GrantInv(h, p);
  }

  lemma OtherByte(mem: seq<Byte>, ops: seq<Op>, h: Heap, p: nat, at: nat, q: nat, i: int)
    requires |mem| <= TWO_64
    requires Runs(Heap(mem, map[], map[]), ops, h)
    requires p in h.live && at < h.live[p].layout.size
    requires q in h.live && BytesOf(h, q, i) && (q == p ==> i != p + at)
    ensures 0 <= i < |h.mem| && i != p + at
  {
    RunKeepsInv(Heap(mem, map[], map[]), ops, h);
    assert GrantInv(h, q);
    LivePointersAreSound(mem, ops, h, p, q);
  }

  /**
   After any run each byte of a live payload may be written; it then reads back,
   and no byte of another payload or of a back-pointer changes.
   */
  lemma WriteStaysInItsPayload(mem: seq<Byte>, ops: seq<Op>, h: Heap, p: nat, at: nat, b: Byte)
    requires |mem| <= TWO_64
    requires Runs(Heap(mem, map[], map[]), ops, h)
    requires p in h.live && at < h.live[p].layout.size
    ensures Legal(h, Write(p, at, b))
    ensures var h' := Perform(h, Write(p, at, b));
            && h'.pool == h.pool && h'.live == h.live && |h'.mem| == |h.mem| && h'.mem[p + at] == b
            && forall q, i :: q in h.live && BytesOf(h, q, i) && (q == p ==> i != p + at) ==>
                                0 <= i < |h.mem| && h'.mem[i] == h.mem[i]
  {
    LiveByteFits(mem, ops, h, p, at);
    forall q, i | q in h.live && BytesOf(h, q, i) && (q == p ==> i != p + at)
      ensures 0 <= i < |h.mem| && i != p + at
    {
      OtherByte(mem, ops, h, p, at, q, i);
    }
  }

  /**
   Whatever a block's alignment, the over-aligned pointer and its back-pointer fit
   exactly when the block does not start in the last seven bytes before a multiple
   of the alignment; the pool's eight-byte alignment rules those starts out.
   */
  lemma FitsIffRoomBelow(l: Layout, base: nat)
    requires ValidLayout(l) && l.align > 8
    ensures Placed(l, base, Pointer(l, base)) <==> base % l.align + 8 <= l.align
  {
    PowersOfTwo(l.align);
    AlignOffsetAligns(base, l.align);
    var r := base % l.align;
    if r == 0 {
      AddModulus(base, l.align);
      assert AlignOffset(base, l.align) == 0 by { MultipleOf(1, l.align); }
    } else {
      assert AlignOffset(base, l.align) == l.align - r by { SmallMod(l.align - r, l.align); }
    }
  }

  // ---------------------------------------------------------------------
  // The allocator object
  // ---------------------------------------------------------------------

  class Allocator {
    const mem: array<Byte>
    var pool: map<nat, nat>
    ghost var live: map<nat, Grant>

    constructor (mem: array<Byte>)
      ensures this.mem == mem && pool == map[] && live == map[]
    {
      this.mem := mem;
      pool, live := map[], map[];
    }

    ghost function Snapshot(): Heap
      reads this, mem
    {
      Heap(mem[..], pool, live)
    }

    /**
     `offer` is the answer of the firmware's AllocatePool to the request made.
     The step keeps `Inv` by `AllocKeepsInv`.
     */
    method Alloc(l: Layout, offer: Option<nat>) returns (p: nat)
      requires ValidLayout(l)
      requires offer.Some? ==> PoolMayReturn(Snapshot(), Request(l), offer.value)
      modifies this, mem
      ensures (Snapshot(), p) == AllocStep(old(Snapshot()), l, offer)
    {
      if offer.None? {
        return 0;
      }
      var full := offer.value;
      PointerFits(l, full);
      if l.align > 8 {
        pool := pool[full := l.size + l.align];
        var offset := AlignOffset(full, l.align);
        if offset == 0 {
          offset := l.align;
        }
        p := full + offset;
        assert p == Pointer(l, full);
        StoreWord(p - 8, ToLe(full, 8));
      } else {
        pool := pool[full := l.size];
        p := full;
      }
      live := live[p := Grant(l, full)];
    }

    /** A store of one eight-byte word. */
    method StoreWord(at: nat, bytes: seq<Byte>)
      requires |bytes| == 8 && at + 8 <= mem.Length
      modifies mem
      ensures mem[..] == Store(old(mem[..]), at, bytes)
    {
      forall i | 0 <= i < 8 {
        mem[at + i] := bytes[i];
      }
    }

    method Dealloc(p: nat, l: Layout)
      requires Inv(Snapshot())
      // the caller returns a live pointer with the layout it was allocated with
      requires p in live && live[p].layout == l
      modifies this
      ensures Snapshot() == old(Heap(mem[..], pool - {live[p].block}, live - {p}))
      ensures Inv(Snapshot())
    {
      BackPointerLeadsHome(Snapshot(), p);
      DeallocKeepsInv(Snapshot(), p);
      var ptr := p;
      if l.align > 8 {
        ptr := FromLe(mem[p - 8..p]);
      }
      // FreePool succeeds: the block is one the pool handed out
      assert ptr in pool by { assert GrantInv(Snapshot(), p); }
      pool := pool - {ptr};
      live := live - {p};
    }
  }
}
