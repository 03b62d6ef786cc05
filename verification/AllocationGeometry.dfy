/** Where the C allocator puts its payload and its hidden header inside a block of the
    Rust allocator. */
module AllocationGeometry {
  import opened Arithmetic
  import opened Bits
  import opened Options

  const USIZE_BITS: nat := 64
  const USIZE_LIMIT: nat := 0x1_0000_0000_0000_0000   // 2^64
  const ISIZE_LIMIT: nat := 0x8000_0000_0000_0000     // 2^63
  const HEADER_SIZE: nat := 48   // five words, padded to the header's 16-byte alignment
  const MIN_ALIGN: Positive := 16

  datatype Layout = Layout(size: nat, align: Positive)

  predicate IsUsize(n: nat) { n < USIZE_LIMIT }

  function CheckedAdd(a: nat, b: nat): Option<nat> {
    if IsUsize(a + b) then Some(a + b) else None
  }

  /** `Layout::from_size_align`: the size rounded up to the alignment must fit in `isize`. */
  function FromSizeAlign(size: nat, align: Positive): Option<Layout> {
    if IsPowerOfTwo(align) && size + align <= ISIZE_LIMIT then Some(Layout(size, align)) else None
  }

  function AllocationLayout(size: nat, alignment: nat): Option<Layout> {
    var align := Max(alignment, MIN_ALIGN);
    if !IsPowerOfTwo(align) then None else
    match CheckedAdd(Max(size, 1), HEADER_SIZE)
    case None => None
    case Some(withHeader) =>
      match CheckedAdd(withHeader, align - 1)
      case None => None
      case Some(total) => FromSizeAlign(total, align)
  }

  /** The masked round-up of the first address past the header. */
  function PayloadAddress(base: nat, layout: Layout): nat {
    And(USIZE_BITS, base + HEADER_SIZE + layout.align - 1, Not(USIZE_BITS, layout.align - 1))
  }

  /** What the Rust allocator promises of a block it hands out. */
  predicate IsBlock(base: nat, layout: Layout) {
    base > 0 && base % layout.align == 0 && base + layout.size <= USIZE_LIMIT
  }

  lemma {:induction false} LayoutFacts(size: nat, alignment: nat)
    requires AllocationLayout(size, alignment).Some?
    ensures var l := AllocationLayout(size, alignment).value;
      && l.align == Max(alignment, MIN_ALIGN)
      && l.size == Max(size, 1) + HEADER_SIZE + l.align - 1
      && IsPowerOfTwo(l.align)
      && FromSizeAlign(l.size, l.align) == Some(l)
  {
  }

  /** The requests that get a layout: every request with a power-of-two alignment (or one
      below 16) whose total stays clear of the `isize` limit, and no other. */
  lemma {:induction false} LayoutExistsExactly(size: nat, alignment: nat)
    ensures AllocationLayout(size, alignment).Some? <==>
      var align := Max(alignment, MIN_ALIGN);
      IsPowerOfTwo(align) && Max(size, 1) + HEADER_SIZE + 2 * align <= ISIZE_LIMIT + 1
  {
  }

  lemma {:induction false} Small16()
    ensures Pow2(4) == MIN_ALIGN
  {
    assert Pow2(2) == 4;
  }

  lemma {:induction false} AlignIsMultipleOf16(align: nat)
    requires IsPowerOfTwo(align) && align >= MIN_ALIGN
    ensures exists m: nat :: align == MIN_ALIGN * m
  {
    var k :| 0 <= k <= align && Pow2(k) == align;
    Small16();
    if k < 4 {
      Pow2Increases(k, 4);
    }
    Pow2Sum(4, k - 4);
    assert align == MIN_ALIGN * Pow2(k - 4);
  }

  lemma {:induction false} UsizeLimits()
    ensures Pow2(USIZE_BITS) == USIZE_LIMIT && Pow2(USIZE_BITS - 1) == ISIZE_LIMIT
  {
    Small16();
    Pow2Sum(4, 4);
    Pow2Sum(8, 8);
    Pow2Sum(16, 16);
    Pow2Sum(32, 32);
    assert Pow2(USIZE_BITS) == 2 * Pow2(USIZE_BITS - 1);
  }

  lemma {:induction false} ExponentIsSmall(align: nat) returns (k: nat)
    requires IsPowerOfTwo(align) && align <= ISIZE_LIMIT
    ensures k <= USIZE_BITS && Pow2(k) == align
  {
    k :| 0 <= k <= align && Pow2(k) == align;
    UsizeLimits();
    if k > USIZE_BITS {
      Pow2Increases(USIZE_BITS - 1, k);
    }
  }

  lemma {:induction false} RoundDown(x: nat, align: Positive)
    requires IsPowerOfTwo(align) && align <= ISIZE_LIMIT && IsUsize(x)
    ensures And(USIZE_BITS, x, Not(USIZE_BITS, align - 1)) == x - x % align
    ensures And(USIZE_BITS, x, Not(USIZE_BITS, align - 1)) % align == 0
  {
    SubtractRemainder(x, align);
    var k := ExponentIsSmall(align);
    UsizeLimits();
    MaskRoundsDown(USIZE_BITS, k, x);
  }

  lemma {:induction false} RoundUpIsLeast(x: nat, align: nat, q: nat)
    requires align > 0 && q >= x && q % align == 0
    ensures (x + align - 1) - (x + align - 1) % align <= q
  {
    var y := x + align - 1;
    if q < y - y % align {
      var a, b := q / align, y / align;
      assert q == align * a && y - y % align == align * b;
      if b <= a {
        MulMono(align, b, a);
      } else {
        MulStep(align, a, b);
      }
    }
  }

  lemma {:induction false} SubtractRemainder(x: nat, d: nat)
    requires d > 0
    ensures (x - x % d) % d == 0
  {
    RemainderUnique(x - x % d, d, x / d, 0);
  }

  lemma {:induction false} MultipleOfMultiple(p: nat, align: nat, m: nat)
    requires align > 0 && p % align == 0 && align == MIN_ALIGN * m
    ensures p % MIN_ALIGN == 0
  {
    var q := p / align;
    assert p == MIN_ALIGN * m * q == MIN_ALIGN * (m * q);
    RemainderUnique(p, MIN_ALIGN, m * q, 0);
  }

  /** No sum of the address computation leaves the machine word. */
  lemma {:induction false} NoSumOverflows(size: nat, alignment: nat, base: nat)
    requires AllocationLayout(size, alignment).Some?
    requires IsBlock(base, AllocationLayout(size, alignment).value)
    ensures IsUsize(base + HEADER_SIZE + AllocationLayout(size, alignment).value.align - 1)
  {
    LayoutFacts(size, alignment);
  }

  lemma {:induction false} PayloadIsRoundUp(base: nat, l: Layout)
    requires IsPowerOfTwo(l.align) && l.align <= ISIZE_LIMIT
    requires IsUsize(base + HEADER_SIZE + l.align - 1)
    ensures var x := base + HEADER_SIZE + l.align - 1;
      && PayloadAddress(base, l) == x - x % l.align
      && PayloadAddress(base, l) % l.align == 0
  {
    var x := base + HEADER_SIZE + l.align - 1;
    RoundDown(x, l.align);
  }

  lemma {:induction false} AlignedTo16(p: nat, align: Positive)
    requires p >= HEADER_SIZE && p % align == 0 && IsPowerOfTwo(align) && align >= MIN_ALIGN
    ensures (p - HEADER_SIZE) % MIN_ALIGN == 0
  {
    AlignIsMultipleOf16(align);
    var m: nat :| align == MIN_ALIGN * m;
    MultipleOfMultiple(p, align, m);
  }

  /** Main result: for every request that has a layout and every block the Rust
      allocator may answer with, the payload is the least aligned address that leaves
      room for the header, and header and payload lie inside the block. */
  lemma {:induction false} Geometry(size: nat, alignment: nat, base: nat)
    requires AllocationLayout(size, alignment).Some?
    requires IsBlock(base, AllocationLayout(size, alignment).value)
    ensures var l := AllocationLayout(size, alignment).value;
      var p := PayloadAddress(base, l);
      && p % l.align == 0
      && (alignment > 0 && IsPowerOfTwo(alignment) ==> l.align % alignment == 0)
      && base + HEADER_SIZE <= p
      && (forall q: nat :: base + HEADER_SIZE <= q && q % l.align == 0 ==> p <= q)
      && (p - HEADER_SIZE) % MIN_ALIGN == 0
      && p + Max(size, 1) <= base + l.size
  {
    LayoutFacts(size, alignment);
    var l := AllocationLayout(size, alignment).value;
    PayloadIsRoundUp(base, l);
    forall q: nat | base + HEADER_SIZE <= q && q % l.align == 0
      ensures PayloadAddress(base, l) <= q
    {
      RoundUpIsLeast(base + HEADER_SIZE, l.align, q);
    }
    AlignedTo16(PayloadAddress(base, l), l.align);
    if alignment > 0 && IsPowerOfTwo(alignment) {
      SmallAlignmentDivides(alignment, l.align);
    }
  }

  lemma {:induction false} SmallAlignmentDivides(alignment: Positive, align: nat)
    requires IsPowerOfTwo(alignment) && align == Max(alignment, MIN_ALIGN)
    ensures align % alignment == 0
  {
    if alignment < MIN_ALIGN {
      var k :| 0 <= k <= alignment && Pow2(k) == alignment;
      PowersBelow16(k);
      assert MIN_ALIGN % 1 == MIN_ALIGN % 2 == MIN_ALIGN % 4 == MIN_ALIGN % 8 == 0;
    } else {
      RemainderUnique(align, alignment, 1, 0);
    }
  }

  lemma {:induction false} PowersBelow16(k: nat)
    requires Pow2(k) < MIN_ALIGN
    ensures Pow2(k) in {1, 2, 4, 8}
  {
    Small16();
    if k > 4 {
      Pow2Increases(4, k);
    }
    assert k in {0, 1, 2, 3};
    assert Pow2(2) == 4 && Pow2(3) == 8;
  }
}
