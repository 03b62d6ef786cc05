/** The C allocator over the Rust allocator: every block hides a header in front of its
    payload, and `realloc` and `free` know nothing but what that header says. */
module CHeap {
  import opened Arithmetic
  import opened Bits
  import opened Options
  import opened AllocationGeometry

  type Byte = x: int | 0 <= x < 256

  const HEADER_WORDS_SIZE: nat := 40      // the five words; the rest of the header is padding
  const ALLOCATION_MAGIC: nat := 0x5343_4152_4c45_544d
  const ENOMEM := 12
  const EINVAL := 22
  const NULL: nat := 0

  datatype Header = Header(base: nat, layoutSize: nat, layoutAlign: Positive, requested: nat, magic: nat)

  /** One byte of memory: plain data, or byte `index` of a stored header. */
  datatype Cell = Data(value: Byte) | Part(header: Header, index: nat)

  type Memory = nat -> Cell

  /** What the caller of `malloc` owns behind a live pointer. */
  datatype Block = Block(base: nat, layout: Layout, requested: nat)

  predicate Disjoint(a: nat, aSize: nat, b: nat, bSize: nat) {
    a + aSize <= b || b + bSize <= a
  }

  predicate HoldsHeader(m: Memory, at: nat, h: Header) {
    forall i :: at <= i < at + HEADER_WORDS_SIZE ==> m(i) == Part(h, i - at)
  }

  function WithHeader(m: Memory, at: nat, h: Header): (m': Memory)
    ensures HoldsHeader(m', at, h)
    ensures forall i: nat :: i < at || at + HEADER_WORDS_SIZE <= i ==> m'(i) == m(i)
  {
    (i: nat) => if at <= i < at + HEADER_WORDS_SIZE then Part(h, i - at) else m(i)
  }

  /** Reading the header words back; bytes that are no stored header carry no magic. */
  function ReadHeader(m: Memory, at: nat): Header {
    if m(at).Part? && HoldsHeader(m, at, m(at).header) then m(at).header else Header(0, 0, 1, 0, 0)
  }

  function HeaderOf(b: Block): Header {
    Header(b.base, b.layout.size, b.layout.align, b.requested, ALLOCATION_MAGIC)
  }

  /** Header and payload lie inside the block, in that order, and the payload is aligned;
      the recorded layout is one that `Layout::from_size_align` accepts back. */
  predicate Fits(p: nat, b: Block) {
    && b.base + HEADER_SIZE <= p
    && p + Max(b.requested, 1) <= b.base + b.layout.size
    && p % b.layout.align == 0
    && b.layout.align >= MIN_ALIGN
    && FromSizeAlign(b.layout.size, b.layout.align) == Some(b.layout)
  }

  lemma {:induction false} FreshBlockFits(size: nat, alignment: nat, base: nat)
    requires AllocationLayout(size, alignment).Some?
    requires IsBlock(base, AllocationLayout(size, alignment).value)
    ensures var l := AllocationLayout(size, alignment).value;
      Fits(PayloadAddress(base, l), Block(base, l, size))
  {
    LayoutFacts(size, alignment);
    Geometry(size, alignment, base);
  }

  /** Two blocks handed out at different places share no byte. */
  predicate Apart(outstanding: map<nat, Layout>, a: nat, b: nat)
    requires a in outstanding && b in outstanding
  {
    a != b ==> Disjoint(a, outstanding[a].size, b, outstanding[b].size)
  }

  /** The block is one of those handed out, exactly as its header records it. */
  ghost predicate IsLive(memory: Memory, outstanding: map<nat, Layout>, p: nat, b: Block) {
    && Fits(p, b)
    && b.base in outstanding && outstanding[b.base] == b.layout
    && HoldsHeader(memory, p - HEADER_SIZE, HeaderOf(b))
  }

  /** Blocks handed out never overlap, and every live block is one of them. */
  ghost predicate Sound(memory: Memory, outstanding: map<nat, Layout>, live: map<nat, Block>) {
    && (forall a | a in outstanding :: outstanding[a].size > 0)
    && (forall a, b | a in outstanding && b in outstanding :: Apart(outstanding, a, b))
    && (forall p | p in live :: IsLive(memory, outstanding, p, live[p]))
    && (forall p, q | p in live && q in live && p != q :: live[p].base != live[q].base)
  }

  predicate Owned(live: map<nat, Block>, base: nat) {
    exists p :: p in live && live[p].base == base
  }

  /** Every block handed out is some live block's: none has been lost. */
  predicate NothingLeaked(outstanding: map<nat, Layout>, live: map<nat, Block>) {
    forall a | a in outstanding :: Owned(live, a)
  }

  lemma {:induction false} StillOwned(live: map<nat, Block>, live': map<nat, Block>, a: nat, except: nat)
    requires Owned(live, a) && a != except
    requires forall q | q in live && live[q].base != except :: q in live' && live'[q] == live[q]
    ensures Owned(live', a)
  {
    var q :| q in live && live[q].base == a;
    assert live'[q].base == a;
  }

  lemma {:induction false} InstallLeaksNothing(outstanding: map<nat, Layout>, live: map<nat, Block>, p: nat, b: Block)
    requires NothingLeaked(outstanding, live) && p !in live
    ensures NothingLeaked(outstanding[b.base := b.layout], live[p := b])
  {
    var live' := live[p := b];
    assert live'[p].base == b.base;
    forall a | a in outstanding && a != b.base
      ensures Owned(live', a)
    {
      StillOwned(live, live', a, b.base);
    }
  }

  lemma {:induction false} ReleaseLeaksNothing(outstanding: map<nat, Layout>, live: map<nat, Block>, p: nat)
    requires NothingLeaked(outstanding, live) && p in live
    ensures NothingLeaked(outstanding - {live[p].base}, live - {p})
  {
    forall a | a in outstanding - {live[p].base}
      ensures Owned(live - {p}, a)
    {
      StillOwned(live, live - {p}, a, live[p].base);
    }
  }

  predicate Unused(outstanding: map<nat, Layout>, base: nat, layout: Layout) {
    forall b | b in outstanding :: Disjoint(base, layout.size, b, outstanding[b].size)
  }

  /** A block whose bytes and record stay is as live as before. */
  lemma {:induction false} StaysLive(m: Memory, m': Memory, outstanding: map<nat, Layout>,
                                     outstanding': map<nat, Layout>, q: nat, b: Block)
    requires IsLive(m, outstanding, q, b) && SameBytes(m, m', b)
    requires b.base in outstanding' && outstanding'[b.base] == b.layout
    ensures IsLive(m', outstanding', q, b)
  {
    forall i | q - HEADER_SIZE <= i < q - HEADER_SIZE + HEADER_WORDS_SIZE
      ensures m'(i) == m(i)
    {
    }
  }

  /** A block in unused memory shares no byte with a live one, nor its payload address. */
  lemma {:induction false} NewBlockIsApart(m: Memory, outstanding: map<nat, Layout>, live: map<nat, Block>, p: nat,
                                           b: Block, q: nat)
    requires Sound(m, outstanding, live) && Fits(p, b) && Unused(outstanding, b.base, b.layout) && q in live
    ensures q != p && live[q].base != b.base
    ensures Disjoint(b.base, b.layout.size, live[q].base, live[q].layout.size)
  {
    assert IsLive(m, outstanding, q, live[q]);
  }

  lemma {:induction false} UnusedIsNew(outstanding: map<nat, Layout>, base: nat, layout: Layout)
    requires Unused(outstanding, base, layout) && layout.size > 0
    requires forall a | a in outstanding :: outstanding[a].size > 0
    ensures base !in outstanding
  {
  }

  /** Writing only inside an unused block leaves every live block as it was. */
  lemma {:induction false} InstallIsSound(m: Memory, outstanding: map<nat, Layout>, live: map<nat, Block>,
                                          p: nat, b: Block)
    requires Sound(m, outstanding, live) && Fits(p, b) && Unused(outstanding, b.base, b.layout)
    ensures p !in live && b.base !in outstanding
    ensures var m' := WithHeader(m, p - HEADER_SIZE, HeaderOf(b));
      Sound(m', outstanding[b.base := b.layout], live[p := b]) && Intact(live, m, live[p := b], m', {})
  {
    var m' := WithHeader(m, p - HEADER_SIZE, HeaderOf(b));
    var outstanding', live' := outstanding[b.base := b.layout], live[p := b];
    UnusedIsNew(outstanding, b.base, b.layout);
    forall q | q in live
      ensures q != p && live[q].base != b.base && SameBytes(m, m', live[q])
      ensures IsLive(m', outstanding', q, live[q])
    {
      NewBlockIsApart(m, outstanding, live, p, b, q);
      StaysLive(m, m', outstanding, outstanding', q, live[q]);
    }
    forall x, y | x in outstanding' && y in outstanding'
      ensures Apart(outstanding', x, y)
    {
      if x in outstanding && y in outstanding { assert Apart(outstanding, x, y); }
    }
    assert IsLive(m', outstanding', p, b);
  }

  /** The live blocks other than `touched` are as they were: same record, same bytes. */
  ghost predicate Intact(live: map<nat, Block>, m: Memory, live': map<nat, Block>, m': Memory, touched: set<nat>) {
    forall q | q in live && q !in touched :: q in live' && live'[q] == live[q] && SameBytes(m, m', live[q])
  }

  ghost predicate SameBytes(m: Memory, m': Memory, b: Block) {
    forall i: nat :: b.base <= i < b.base + b.layout.size ==> m'(i) == m(i)
  }

  ghost predicate CopiedBytes(m: Memory, from: nat, m': Memory, to: nat, length: nat) {
    forall i: nat :: to <= i < to + length ==> m'(i) == m(from + (i - to))
  }

  ghost predicate Zeroed(m: Memory, at: nat, length: nat) {
    forall i: nat :: at <= i < at + length ==> m(i) == Data(0)
  }

  /** `write_bytes(0, length)`. */
  function ZeroFilled(m: Memory, at: nat, length: nat): (m': Memory)
    ensures Zeroed(m', at, length)
    ensures forall i: nat :: i < at || at + length <= i ==> m'(i) == m(i)
  {
    (i: nat) => if at <= i < at + length then Data(0) else m(i)
  }

  /** `copy_nonoverlapping(from, to, length)`. */
  function Copied(m: Memory, from: nat, to: nat, length: nat): Memory {
    (i: nat) => if to <= i < to + length then m(from + (i - to)) else m(i)
  }

  lemma {:induction false} CopiedIsACopy(m: Memory, from: nat, to: nat, length: nat)
    ensures var m' := Copied(m, from, to, length);
      && CopiedBytes(m, from, m', to, length)
      && forall i: nat :: i < to || to + length <= i ==> m'(i) == m(i)
  {
  }

  /** Writing payload bytes of one live block touches no other block and no header. */
  lemma {:induction false} PayloadWriteIsSound(m: Memory, m': Memory, outstanding: map<nat, Layout>,
                                               live: map<nat, Block>, p: nat, length: nat)
    requires Sound(m, outstanding, live) && p in live && length <= live[p].requested
    requires forall i: nat :: i < p || p + length <= i ==> m'(i) == m(i)
    ensures Sound(m', outstanding, live) && Intact(live, m, live, m', {p})
  {
    assert IsLive(m, outstanding, p, live[p]);
    forall q | q in live
      ensures IsLive(m', outstanding, q, live[q])
      ensures q != p ==> SameBytes(m, m', live[q])
    {
      assert IsLive(m, outstanding, q, live[q]);
      if q != p {
        assert Apart(outstanding, live[p].base, live[q].base);
        StaysLive(m, m', outstanding, outstanding, q, live[q]);
      }
    }
  }

  lemma {:induction false} ReleaseIsSound(m: Memory, outstanding: map<nat, Layout>, live: map<nat, Block>, p: nat)
    requires Sound(m, outstanding, live) && p in live
    ensures Sound(m, outstanding - {live[p].base}, live - {p}) && Intact(live, m, live - {p}, m, {p})
  {
    var outstanding', live' := outstanding - {live[p].base}, live - {p};
    forall q | q in live'
      ensures IsLive(m, outstanding', q, live'[q])
    {
      assert IsLive(m, outstanding, q, live[q]);
    }
    forall x, y | x in outstanding' && y in outstanding'
      ensures Apart(outstanding', x, y)
    {
      assert Apart(outstanding, x, y);
    }
  }

  lemma {:induction false} IntactThrough(live0: map<nat, Block>, m0: Memory, live1: map<nat, Block>, m1: Memory,
                                         live2: map<nat, Block>, m2: Memory, touched: set<nat>)
    requires Intact(live0, m0, live1, m1, {}) && Intact(live1, m1, live2, m2, touched)
    ensures Intact(live0, m0, live2, m2, touched)
  {
    forall r | r in live0 && r !in touched
      ensures r in live2 && live2[r] == live0[r] && SameBytes(m0, m2, live0[r])
    {
      assert SameBytes(m0, m1, live0[r]) && SameBytes(m1, m2, live1[r]);
    }
  }

  /** Two live blocks share no byte, headers included. */
  lemma {:induction false} LiveBlocksAreDisjoint(m: Memory, outstanding: map<nat, Layout>, live: map<nat, Block>,
                                                 p: nat, q: nat)
    requires Sound(m, outstanding, live) && p in live && q in live && p != q
    ensures Disjoint(p - HEADER_SIZE, HEADER_SIZE + Max(live[p].requested, 1),
                     q - HEADER_SIZE, HEADER_SIZE + Max(live[q].requested, 1))
  {
    assert IsLive(m, outstanding, p, live[p]) && IsLive(m, outstanding, q, live[q]);
    assert Apart(outstanding, live[p].base, live[q].base);
  }

  /** Block `p` has given way to a new block `b` at `replacement`: it went back to the Rust
      allocator, the shared bytes were copied, and nothing else changed. */
  ghost predicate Moved(live: map<nat, Block>, outstanding: map<nat, Layout>, m: Memory,
                        live': map<nat, Block>, outstanding': map<nat, Layout>, m': Memory,
                        p: nat, replacement: nat, b: Block)
    requires p in live
  {
    && replacement !in live && live' == live[replacement := b] - {p}
    && outstanding' == outstanding[b.base := b.layout] - {live[p].base}
    && Intact(live, m, live', m', {p})
    && CopiedBytes(m, p, m', replacement, Min(live[p].requested, b.requested))
  }

  /** A block is moved in two steps: the new one is made, then the old one is copied and freed. */
  lemma {:induction false} BlockMoved(live: map<nat, Block>, outstanding: map<nat, Layout>, m: Memory,
                                      live1: map<nat, Block>, outstanding1: map<nat, Layout>, m1: Memory,
                                      live2: map<nat, Block>, outstanding2: map<nat, Layout>, m2: Memory,
                                      p: nat, replacement: nat, b: Block)
    requires Sound(m, outstanding, live) && p in live && replacement !in live
    requires live1 == live[replacement := b] && outstanding1 == outstanding[b.base := b.layout]
    requires Intact(live, m, live1, m1, {})
    requires live2 == live1 - {p} && outstanding2 == outstanding1 - {live[p].base}
    requires Intact(live1, m1, live2, m2, {p, replacement})
    requires CopiedBytes(m1, p, m2, replacement, Min(live[p].requested, b.requested))
    ensures Moved(live, outstanding, m, live2, outstanding2, m2, p, replacement, b)
  {
    IntactThrough(live, m, live1, m1, live2, m2, {p, replacement});
    PayloadStays(m, m1, outstanding, p, live[p]);
  }

  lemma {:induction false} PayloadStays(m: Memory, m': Memory, outstanding: map<nat, Layout>, p: nat, b: Block)
    requires IsLive(m, outstanding, p, b) && SameBytes(m, m', b)
    ensures forall i: nat | p <= i < p + b.requested :: m'(i) == m(i)
  {
  }

  class Heap {
    var memory: Memory
    var outstanding: map<nat, Layout>   // every block the Rust allocator has handed out here, by base
    var errno: int
    ghost var live: map<nat, Block>     // by payload address

    ghost predicate Valid()
      reads this
    {
      Sound(memory, outstanding, live) && NothingLeaked(outstanding, live)
    }

    constructor ()
      ensures Valid() && live == map[] && outstanding == map[]
    {
      memory := _ => Data(0);
      outstanding := map[];
      errno := 0;
      live := map[];
    }

    /** What the Rust allocator may answer to `alloc(layout)`. */
    ghost predicate Acceptable(layout: Layout, answer: Option<nat>)
      reads this
    {
      answer.Some? ==>
        && IsBlock(answer.value, layout)
        && Unused(outstanding, answer.value, layout)
    }

    method AllocateWithAlignment(size: nat, alignment: nat, answer: Option<nat>) returns (p: nat)
      requires Valid()
      requires AllocationLayout(size, alignment).Some? ==>
                 Acceptable(AllocationLayout(size, alignment).value, answer)
      modifies this
      ensures Valid() && Intact(old(live), old(memory), live, memory, {})
      ensures p == NULL <==> AllocationLayout(size, alignment).None? || answer.None?
      ensures p == NULL ==>
                unchanged(`live, `outstanding, `memory) && errno == ENOMEM
      ensures p != NULL ==>
                var layout := AllocationLayout(size, alignment).value;
                && p !in old(live)
                && live == old(live)[p := Block(answer.value, layout, size)]
                && outstanding == old(outstanding)[answer.value := layout]
                && answer.value !in old(outstanding)
                && layout.align == Max(alignment, MIN_ALIGN) && p % layout.align == 0
                && (forall i: nat ::
                      i < answer.value || answer.value + layout.size <= i ==> memory(i) == old(memory(i)))
                && errno == old(errno)
    {
      var found := AllocationLayout(size, alignment);
      if found.None? || answer.None? {
        errno := ENOMEM;
        return NULL;
      }
      LayoutFacts(size, alignment);
      FreshBlockFits(size, alignment, answer.value);
      p := Install(size, found.value, answer.value);
    }

    /** Writes the header of a new block in front of its payload. */
    method Install(size: nat, layout: Layout, base: nat) returns (p: nat)
      requires Valid() && Unused(outstanding, base, layout)
      requires Fits(PayloadAddress(base, layout), Block(base, layout, size))
      modifies this`memory, this`outstanding, this`live
      ensures Valid() && Intact(old(live), old(memory), live, memory, {})
      ensures p == PayloadAddress(base, layout) && p !in old(live) && base !in old(outstanding)
      ensures live == old(live)[p := Block(base, layout, size)] && outstanding == old(outstanding)[base := layout]
      ensures forall i: nat :: i < base || base + layout.size <= i ==> memory(i) == old(memory(i))
    {
      p := PayloadAddress(base, layout);
      InstallIsSound(memory, outstanding, live, p, Block(base, layout, size));
      InstallLeaksNothing(outstanding, live, p, Block(base, layout, size));
      memory := WithHeader(memory, p - HEADER_SIZE, Header(base, layout.size, layout.align, size, ALLOCATION_MAGIC));
      outstanding := outstanding[base := layout];
      live := live[p := Block(base, layout, size)];
    }

    /** `malloc`. */
    method Malloc(size: nat, answer: Option<nat>) returns (p: nat)
      requires Valid()
      requires AllocationLayout(size, MIN_ALIGN).Some? ==>
                 Acceptable(AllocationLayout(size, MIN_ALIGN).value, answer)
      modifies this
      ensures Valid() && Intact(old(live), old(memory), live, memory, {})
      ensures p == NULL <==> AllocationLayout(size, MIN_ALIGN).None? || answer.None?
      ensures p == NULL ==>
                unchanged(`live, `outstanding, `memory) && errno == ENOMEM
      ensures p != NULL ==>
                && p !in old(live) && p in live && live.Keys == old(live).Keys + {p}
                && live[p].requested == size && p % MIN_ALIGN == 0
                && outstanding == old(outstanding)[answer.value := AllocationLayout(size, MIN_ALIGN).value]
                && live[p].base == answer.value && errno == old(errno)
    {
      p := AllocateWithAlignment(size, MIN_ALIGN, answer);
    }

    /** `aligned_alloc`: the alignment must be a power of two that divides the size. */
    method AlignedAlloc(alignment: nat, size: nat, answer: Option<nat>) returns (p: nat)
      requires Valid()
      requires AllocationLayout(size, alignment).Some? ==>
                 Acceptable(AllocationLayout(size, alignment).value, answer)
      modifies this
      ensures Valid() && Intact(old(live), old(memory), live, memory, {})
      ensures var legal := alignment > 0 && IsPowerOfTwo(alignment) && size % alignment == 0;
              && (p == NULL <==> !legal || AllocationLayout(size, alignment).None? || answer.None?)
              && (p == NULL ==> unchanged(`live, `outstanding, `memory))
              && (p == NULL ==> errno == if legal then ENOMEM else EINVAL)
              && (p != NULL ==> p !in old(live) && p in live && live.Keys == old(live).Keys + {p})
              && (p != NULL ==> live[p].requested == size && p % alignment == 0 && errno == old(errno))
              && (p != NULL ==>
                    outstanding == old(outstanding)[answer.value := AllocationLayout(size, alignment).value])
              && (p != NULL ==> live[p].base == answer.value)
    {
      if alignment == 0 || !IsPowerOfTwo(alignment) || size % alignment != 0 {
        errno := EINVAL;
        return NULL;
      }
      p := AllocateWithAlignment(size, alignment, answer);
      if p != NULL {
        SmallAlignmentDivides(alignment, live[p].layout.align);
        DividesThrough(p, live[p].layout.align, alignment);
      }
    }

    /** `calloc`: zeroed payload, and a product that does not fit is refused. */
    method Calloc(count: nat, size: nat, answer: Option<nat>) returns (p: nat)
      requires Valid()
      requires AllocationLayout(count * size, MIN_ALIGN).Some? ==>
                 Acceptable(AllocationLayout(count * size, MIN_ALIGN).value, answer)
      modifies this
      ensures Valid() && Intact(old(live), old(memory), live, memory, {})
      ensures p == NULL <==> !IsUsize(count * size) || AllocationLayout(count * size, MIN_ALIGN).None? || answer.None?
      ensures p == NULL ==> unchanged(`live, `outstanding, `memory) && errno == ENOMEM
      ensures p != NULL ==>
                && p !in old(live) && p in live && live.Keys == old(live).Keys + {p}
                && live[p].requested == count * size && p % MIN_ALIGN == 0 && errno == old(errno)
                && outstanding == old(outstanding)[answer.value := AllocationLayout(count * size, MIN_ALIGN).value]
                && live[p].base == answer.value
                && Zeroed(memory, p, count * size)
    {
      var total := count * size;
      if !IsUsize(total) {
        errno := ENOMEM;
        return NULL;
      }
      p := ZeroedMalloc(total, answer);
    }

    method ZeroedMalloc(total: nat, answer: Option<nat>) returns (p: nat)
      requires Valid()
      requires AllocationLayout(total, MIN_ALIGN).Some? ==>
                 Acceptable(AllocationLayout(total, MIN_ALIGN).value, answer)
      modifies this
      ensures Valid() && Intact(old(live), old(memory), live, memory, {})
      ensures p == NULL <==> AllocationLayout(total, MIN_ALIGN).None? || answer.None?
      ensures p == NULL ==> unchanged(`live, `outstanding, `memory) && errno == ENOMEM
      ensures p != NULL ==>
                && p !in old(live) && p in live && live.Keys == old(live).Keys + {p}
                && live[p].requested == total && p % MIN_ALIGN == 0 && errno == old(errno)
                && outstanding == old(outstanding)[answer.value := AllocationLayout(total, MIN_ALIGN).value]
                && live[p].base == answer.value
                && Zeroed(memory, p, total)
    {
      p := Malloc(total, answer);
      if p == NULL {
        return;
      }
      ghost var m := memory;
      WritePayload(p, total, ZeroFilled(memory, p, total));
      IntactThrough(old(live), old(memory), live, m, live, memory, {p});
    }

    /** Overwriting payload bytes of a live block, as a C caller or `memcpy` may. */
    method WritePayload(p: nat, length: nat, after: Memory)
      requires Valid() && p in live && length <= live[p].requested
      requires forall i: nat :: i < p || p + length <= i ==> after(i) == memory(i)
      modifies this`memory
      ensures Valid() && Intact(live, old(memory), live, memory, {p}) && memory == after
    {
      PayloadWriteIsSound(memory, after, outstanding, live, p, length);
      memory := after;
    }

    /** Handing a block back to the Rust allocator, which insists on the very base and
        layout it was given out with. */
    method Dealloc(base: nat, layout: Layout)
      requires base in outstanding && outstanding[base] == layout
      modifies this`outstanding
      ensures outstanding == old(outstanding) - {base}
    {
      outstanding := outstanding - {base};
    }

    /** `free`. */
    method Free(p: nat)
      requires Valid() && (p == NULL || p in live)
      modifies this
      ensures Valid() && Intact(old(live), old(memory), live, memory, {p})
      ensures p == NULL ==> unchanged(this)
      ensures p != NULL ==>
                && live == old(live) - {p} && outstanding == old(outstanding) - {old(live)[p].base}
                && memory == old(memory) && errno == old(errno)
    {
      if p != NULL {
        Release(p);
      }
    }

    method Release(p: nat)
      requires Valid() && p in live
      modifies this`outstanding, this`live
      ensures Valid() && Intact(old(live), memory, live, memory, {p})
      ensures live == old(live) - {p} && outstanding == old(outstanding) - {old(live)[p].base}
    {
      LiveHeader(memory, outstanding, live, p);
      var header := ReadHeader(memory, p - HEADER_SIZE);
      if header.magic != ALLOCATION_MAGIC {
        return;
      }
      var layout := FromSizeAlign(header.layoutSize, header.layoutAlign);
      if layout.None? {
        return;
      }
      ReleaseIsSound(memory, outstanding, live, p);
      ReleaseLeaksNothing(outstanding, live, p);
      Dealloc(header.base, layout.value);
      live := live - {p};
    }

    lemma {:induction false} NullIsNotLive()
      requires Valid()
      ensures NULL !in live
    {
    }

    /** `realloc`. */
    method Realloc(p: nat, size: nat, answer: Option<nat>) returns (replacement: nat)
      requires Valid() && (p == NULL || p in live)
      requires var alignment := if p == NULL then MIN_ALIGN else live[p].layout.align;
        AllocationLayout(size, alignment).Some? ==> Acceptable(AllocationLayout(size, alignment).value, answer)
      modifies this
      ensures Valid() && Intact(old(live), old(memory), live, memory, {p})
      // it fails exactly when the request has no layout or there is no memory
      ensures p == NULL || size > 0 ==>
                var alignment := if p == NULL then MIN_ALIGN else old(live)[p].layout.align;
                (replacement == NULL <==> AllocationLayout(size, alignment).None? || answer.None?)
      // realloc(pointer, 0) frees
      ensures p != NULL && size == 0 ==>
                && replacement == NULL && live == old(live) - {p}
                && outstanding == old(outstanding) - {old(live)[p].base}
                && memory == old(memory) && errno == old(errno)
      // a failure leaves everything, the old block included, as it was
      ensures replacement == NULL && (p == NULL || size > 0) ==>
                unchanged(`live, `outstanding, `memory) && errno == ENOMEM
      // success moves the block, keeping its alignment and the bytes both sizes share
      ensures replacement != NULL ==>
                && replacement !in old(live) && replacement in live && live[replacement].requested == size
                && live.Keys == old(live).Keys - {p} + {replacement}
                && live[replacement].base == answer.value && errno == old(errno)
      ensures replacement != NULL && p == NULL ==>
                && replacement % MIN_ALIGN == 0
                && outstanding == old(outstanding)[answer.value := AllocationLayout(size, MIN_ALIGN).value]
      // and the old block goes back to the Rust allocator
      ensures replacement != NULL && p != NULL ==>
                && outstanding == old(outstanding)[answer.value := live[replacement].layout] - {old(live)[p].base}
                && live[replacement].layout == AllocationLayout(size, old(live)[p].layout.align).value
                && live[replacement].layout.align == old(live)[p].layout.align
                && replacement % old(live)[p].layout.align == 0
                && CopiedBytes(old(memory), p, memory, replacement, Min(old(live)[p].requested, size))
    {
      if p == NULL {
        NullIsNotLive();
        replacement := Malloc(size, answer);
        assert old(live).Keys - {NULL} == old(live).Keys;
      } else if size == 0 {
        Free(p);
        replacement := NULL;
      } else {
        replacement := Relocate(p, size, answer);
        if replacement != NULL {
          KeysAfterMove(old(live), p, replacement, live[replacement]);
        }
      }
    }

    method Relocate(p: nat, size: nat, answer: Option<nat>) returns (replacement: nat)
      requires Valid() && p in live && size > 0
      requires AllocationLayout(size, live[p].layout.align).Some? ==>
                 Acceptable(AllocationLayout(size, live[p].layout.align).value, answer)
      modifies this
      ensures Valid() && Intact(old(live), old(memory), live, memory, {p})
      ensures replacement == NULL <==> AllocationLayout(size, old(live)[p].layout.align).None? || answer.None?
      ensures replacement == NULL ==> unchanged(`live, `outstanding, `memory) && errno == ENOMEM
      ensures replacement != NULL ==>
                var layout := AllocationLayout(size, old(live)[p].layout.align).value;
                && layout.align == old(live)[p].layout.align && replacement % layout.align == 0
                && Moved(old(live), old(outstanding), old(memory), live, outstanding, memory, p, replacement,
                         Block(answer.value, layout, size))
                && errno == old(errno)
    {
      LiveHeader(memory, outstanding, live, p);
      var header := CheckedHeader(p);
      if header.None? {
        return NULL;
      }
      replacement := Replace(p, size, header.value.requested, header.value.layoutAlign, answer);
    }

    /** The header in front of a pointer, if it carries the magic number. */
    method CheckedHeader(p: nat) returns (header: Option<Header>)
      requires p >= HEADER_SIZE
      modifies this`errno
      ensures var h := ReadHeader(memory, p - HEADER_SIZE);
        if h.magic == ALLOCATION_MAGIC then header == Some(h) && errno == old(errno)
        else header == None && errno == EINVAL
    {
      var h := ReadHeader(memory, p - HEADER_SIZE);
      if h.magic != ALLOCATION_MAGIC {
        errno := EINVAL;
        return None;
      }
      header := Some(h);
    }

    /** `realloc` once the header has been read. */
    method Replace(p: nat, size: nat, oldSize: nat, alignment: nat, answer: Option<nat>) returns (replacement: nat)
      requires Valid() && p in live
      requires oldSize == live[p].requested && alignment == live[p].layout.align >= MIN_ALIGN
      requires AllocationLayout(size, alignment).Some? ==>
                 Acceptable(AllocationLayout(size, alignment).value, answer)
      modifies this
      ensures Valid() && Intact(old(live), old(memory), live, memory, {p})
      ensures replacement == NULL <==> AllocationLayout(size, alignment).None? || answer.None?
      ensures replacement == NULL ==> unchanged(`live, `outstanding, `memory) && errno == ENOMEM
      ensures replacement != NULL ==>
                var layout := AllocationLayout(size, alignment).value;
                && layout.align == alignment && replacement % alignment == 0
                && Moved(old(live), old(outstanding), old(memory), live, outstanding, memory, p, replacement,
                         Block(answer.value, layout, size))
                && errno == old(errno)
    {
      replacement := AllocateWithAlignment(size, alignment, answer);
      if replacement == NULL {
        return;
      }
      TakeOver(p, replacement, Min(oldSize, size), old(live), old(outstanding), old(memory),
               Block(answer.value, AllocationLayout(size, alignment).value, size));
    }

    /** Lets the new block `b` take the old one's place, given the heap before it was made. */
    method TakeOver(p: nat, replacement: nat, length: nat, ghost live0: map<nat, Block>,
                    ghost outstanding0: map<nat, Layout>, ghost memory0: Memory, ghost b: Block)
      requires Valid() && Sound(memory0, outstanding0, live0) && Intact(live0, memory0, live, memory, {})
      requires p in live0 && replacement !in live0 && live == live0[replacement := b]
      requires outstanding == outstanding0[b.base := b.layout]
      requires length == Min(live0[p].requested, b.requested)
      modifies this`memory, this`outstanding, this`live
      ensures Valid() && Moved(live0, outstanding0, memory0, live, outstanding, memory, p, replacement, b)
    {
      MoveInto(p, replacement, length);
      BlockMoved(live0, outstanding0, memory0, old(live), old(outstanding), old(memory),
                 live, outstanding, memory, p, replacement, b);
    }

    /** The tail of `realloc`: copy the shared bytes, free the old block. */
    method MoveInto(p: nat, replacement: nat, length: nat)
      requires Valid() && p in live && replacement in live && p != replacement
      requires length <= live[p].requested && length <= live[replacement].requested
      modifies this`memory, this`outstanding, this`live
      ensures Valid() && live == old(live) - {p} && outstanding == old(outstanding) - {old(live)[p].base}
      ensures CopiedBytes(old(memory), p, memory, replacement, length)
      ensures Intact(old(live), old(memory), live, memory, {p, replacement})
    {
      CopiedIsACopy(memory, p, replacement, length);
      WritePayload(replacement, length, Copied(memory, p, replacement, length));
      Release(p);
    }
  }

  /** The header in front of a live pointer reads back as what was recorded when the
      block was made: base, layout and requested size. */
  lemma {:induction false} LiveHeader(m: Memory, outstanding: map<nat, Layout>, live: map<nat, Block>, p: nat)
    requires Sound(m, outstanding, live) && p in live
    ensures p >= HEADER_SIZE && ReadHeader(m, p - HEADER_SIZE) == HeaderOf(live[p])
    ensures FromSizeAlign(live[p].layout.size, live[p].layout.align) == Some(live[p].layout)
    ensures live[p].layout.align >= MIN_ALIGN
  {
    assert IsLive(m, outstanding, p, live[p]);
    HeaderReadsBack(m, p - HEADER_SIZE, HeaderOf(live[p]));
  }

  lemma {:induction false} KeysAfterMove(live: map<nat, Block>, p: nat, replacement: nat, b: Block)
    requires p in live && replacement !in live
    ensures var moved := live[replacement := b] - {p};
      && moved.Keys == live.Keys - {p} + {replacement}
      && replacement in moved && moved[replacement] == b
  {
  }

  lemma {:induction false} HeaderReadsBack(m: Memory, at: nat, h: Header)
    requires HoldsHeader(m, at, h)
    ensures ReadHeader(m, at) == h
  {
    assert m(at) == Part(h, at - at);
  }

  lemma {:induction false} DividesThrough(p: nat, align: Positive, alignment: Positive)
    requires p % align == 0 && align % alignment == 0
    ensures p % alignment == 0
  {
    var a, b := p / align, align / alignment;
    assert p == align * a == alignment * b * a == alignment * (b * a);
    RemainderUnique(p, alignment, b * a, 0);
  }
}
