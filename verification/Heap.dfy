/**
  The bump allocator behind malloc, calloc, realloc, memalign and malloc_usable_size. Headers live
  in the same byte array as the payloads, sixteen bytes below each of them.
 */
module Heap {

  import opened Wrappers
  import opened Words

  const HEAP_SIZE: size_t := 128 * 1024 * 1024
  const HDR_SIZE: size_t := 16
  const MAGIC: size_t := 0xA110CA7E
  const ENOMEM := 12

  // ---- Where the next block goes ----------------------------------------------------------

  function AtLeast(x: size_t, min: size_t): size_t { if x < min then min else x }

  datatype Plan = Refused | Granted(start: size_t, size: size_t, end: size_t)

  /** The decision of bump_alloc, in wrapping arithmetic. */
  function PlanFor(used: size_t, size: size_t, alignment: size_t): Plan {
    var start := Align(Add(used, HDR_SIZE), AtLeast(alignment, 16));
    var rounded := Align(AtLeast(size, 1), 16);
    var end := Add(start, rounded);
    if end > HEAP_SIZE then Refused else Granted(start, rounded, end)
  }

  /** Where the payload should start and how long it should be, in unbounded arithmetic. */
  function PayloadStart(used: size_t, alignment: size_t): nat {
    RoundUp(used + HDR_SIZE, AtLeast(alignment, 16))
  }

  function PayloadSize(size: size_t): nat { RoundUp(AtLeast(size, 1), 16) }

  function PayloadEnd(used: size_t, size: size_t, alignment: size_t): nat {
    PayloadStart(used, alignment) + PayloadSize(size)
  }

  /** The block a caller expects: the first aligned place above the header, if it fits. */
  function IntendedPlan(used: size_t, size: size_t, alignment: size_t): Plan {
    if PayloadEnd(used, size, alignment) > HEAP_SIZE then Refused
    else Granted(PayloadStart(used, alignment), PayloadSize(size), PayloadEnd(used, size, alignment))
  }

  predicate Aligned(x: nat, a: nat)
    requires a > 0
  {
    x % a == 0
  }

  /** The end of the block fits a size_t, or what is left of it after wrapping is refused anyway. */
  predicate Admissible(used: size_t, size: size_t, alignment: size_t) {
    var end := PayloadEnd(used, size, alignment);
    end < TWO64 || end - TWO64 > HEAP_SIZE
  }

  ghost predicate Suits(used: size_t, size: size_t, alignment: size_t, plan: Plan)
    requires plan.Granted?
  {
    && Aligned(plan.start, AtLeast(alignment, 16)) && plan.start >= used + HDR_SIZE
    && Aligned(plan.size, 16) && plan.size >= AtLeast(size, 1) && plan.size >= 16
    && plan.end == plan.start + plan.size <= HEAP_SIZE
  }

  lemma StartInRange(used: size_t, alignment: size_t)
    requires used <= HEAP_SIZE && PowerOfTwo(AtLeast(alignment, 16))
    ensures Align(Add(used, HDR_SIZE), AtLeast(alignment, 16)) == PayloadStart(used, alignment)
    ensures PayloadStart(used, alignment) >= used + HDR_SIZE
    ensures Aligned(PayloadStart(used, alignment), AtLeast(alignment, 16))
  {
    var a := AtLeast(alignment, 16);
    var k := Exponent(a);
    Pow2Monotone(k, 63);
    assert Pow2(64) == 2 * Pow2(63);
    AlignRoundsUp(used + HDR_SIZE, a);
  }

  lemma SixteenIsPower()
    ensures PowerOfTwo(16)
  {
    assert Pow2(4) == 16;
  }

  lemma SizeRounding(size: size_t)
    ensures var s := AtLeast(size, 1);
            && s <= PayloadSize(size) <= TWO64 && PayloadSize(size) >= 16 && Aligned(PayloadSize(size), 16)
            && Align(s, 16) == if PayloadSize(size) < TWO64 then PayloadSize(size) else 0
  {
    var s := AtLeast(size, 1);
    RoundUpIsLeast(s, 16);
    SixteenIsPower();
    hide Align;
    if s + 15 < TWO64 {
      AlignRoundsUp(s, 16);
    } else {
      AlignWraps(s, 16);
    }
  }

  /** The allocator decides as intended exactly when the request is admissible. */
  lemma IntendedExactlyWhenAdmissible(used: size_t, size: size_t, alignment: size_t)
    requires used <= HEAP_SIZE && PowerOfTwo(AtLeast(alignment, 16))
    ensures PlanFor(used, size, alignment) == IntendedPlan(used, size, alignment) <==> Admissible(used, size, alignment)
  {
    StartInRange(used, alignment);
    SizeRounding(size);
    hide Align, Aligned, PowerOfTwo, PayloadStart, PayloadSize;
  }

  /** An intended block lies above everything in use, is aligned, and is as long as was asked for. */
  lemma IntendedPlanSuits(used: size_t, size: size_t, alignment: size_t)
    requires used <= HEAP_SIZE && PowerOfTwo(AtLeast(alignment, 16))
    requires IntendedPlan(used, size, alignment).Granted?
    ensures Suits(used, size, alignment, IntendedPlan(used, size, alignment))
  {
    StartInRange(used, alignment);
    SizeRounding(size);
    hide Align, Aligned, PowerOfTwo, PayloadStart, PayloadSize;
  }

  /** The plan wastes nothing: the first place and the shortest length that will do, refused only if those do not fit. */
  lemma IntendedPlanIsLeast(used: size_t, size: size_t, alignment: size_t)
    requires used <= HEAP_SIZE
    ensures var start := PayloadStart(used, alignment);
            && LeastMultiple(start, used + 16, if alignment < 16 then 16 else alignment)
            && LeastMultiple(PayloadSize(size), if size == 0 then 1 else size, 16)
            && IntendedPlan(used, size, alignment) ==
               if start + PayloadSize(size) > 128 * 1024 * 1024 then Refused
               else Granted(start, PayloadSize(size), start + PayloadSize(size))
  {
    RoundUpIsLeast(used + 16, AtLeast(alignment, 16));
    RoundUpIsLeast(AtLeast(size, 1), 16);
    hide RoundUp, LeastMultiple;
  }

  /** Asking for SIZE_MAX bytes is granted with an empty payload. */
  lemma WrappedRequestIsGranted()
    ensures PlanFor(0, TWO64 - 1, 16) == Granted(16, 0, 16)
    ensures !Suits(0, TWO64 - 1, 16, PlanFor(0, TWO64 - 1, 16))
  {
    SixteenIsPower();
    AlignRoundsUp(16, 16);
    AlignWraps(TWO64 - 1, 16);
  }

  /** No request of an object size that C supports can wrap, whatever the alignment. */
  lemma ObjectSizesAreAdmissible(used: size_t, size: size_t, alignment: size_t)
    requires used <= HEAP_SIZE && PowerOfTwo(AtLeast(alignment, 16))
    requires size <= TWO64 / 2 - 32
    ensures Admissible(used, size, alignment)
  {
    StartBelowHalf(used, alignment);
    RoundUpIsLeast(AtLeast(size, 1), 16);
    hide PayloadStart, RoundUp;
  }

  lemma StartBelowHalf(used: size_t, alignment: size_t)
    requires used <= HEAP_SIZE && PowerOfTwo(AtLeast(alignment, 16))
    ensures PayloadStart(used, alignment) <= TWO64 / 2
  {
    var a := AtLeast(alignment, 16);
    var k := Exponent(a);
    assert Pow2(64) == 2 * Pow2(63);
    Pow2Add(k, 63 - k);
    ModUnique(Pow2(63), a, Pow2(63 - k), 0);
    RoundUpIsLeast(used + HDR_SIZE, a);
    hide RoundUp;
  }

  /** Alignment of the absolute address holds for every placement of the array up to its own 4096. */
  lemma AbsoluteAlignment(a: nat)
    requires PowerOfTwo(a)
    ensures (forall base: nat, start: nat :: Aligned(base, 4096) && Aligned(start, a) ==> Aligned(base + start, a)) <==> a <= 4096
  {
    var k: nat :| a == Pow2(k);
    assert Pow2(6) == 64;
    Pow2Add(6, 6);
    if k <= 12 {
      Pow2Add(k, 12 - k);
      Pow2Monotone(k, 12);
      forall base: nat, start: nat | Aligned(base, 4096) && Aligned(start, a)
        ensures Aligned(base + start, a)
      {
        SumIsAligned(base, start, a, Pow2(12 - k));
      }
    } else {
      Pow2Monotone(13, k);
      assert Pow2(13) == 2 * Pow2(12);
      assert Aligned(4096, 4096) && Aligned(0, a) && !Aligned(4096 + 0, a);
    }
  }

  lemma SumIsAligned(base: nat, start: nat, a: nat, q: nat)
    requires a > 0 && a * q == 4096 && Aligned(base, 4096) && Aligned(start, a)
    ensures Aligned(base + start, a)
  {
    var p, s := base / 4096, start / a;
    assert base == a * q * p == a * (q * p) && start == a * s;
    assert a * (q * p + s) == a * (q * p) + a * s;
    ModUnique(base + start, a, q * p + s, 0);
  }

  // ---- The heap ---------------------------------------------------------------------------

  /** A payload handed out: its offset in the array and the size in its header. */
  datatype Block = Block(start: nat, size: nat) {
    function End(): nat { start + size }
  }

  function HeaderBytes(size: size_t): seq<byte> { Encode(size, WORD) + Encode(MAGIC, WORD) }

  ghost predicate HeaderIntact(mem: seq<byte>, b: Block) {
    && HDR_SIZE <= b.start <= |mem| && b.size < TWO64
    && mem[b.start - HDR_SIZE..b.start] == HeaderBytes(b.size)
  }

  /** The heap as a value: its bytes, the high-water mark and the blocks handed out so far, oldest first. */
  datatype State = State(mem: seq<byte>, used: nat, blocks: seq<Block>) {
    /** Blocks lie between the start of the array and the mark. */
    ghost predicate InPlace() {
      forall i | 0 <= i < |blocks| :: HDR_SIZE <= blocks[i].start && blocks[i].size >= 16 && blocks[i].End() <= used
    }

    /** Every block ends before the header of any later one. */
    ghost predicate Apart() {
      forall i, j | 0 <= i < j < |blocks| :: blocks[i].End() + HDR_SIZE <= blocks[j].start
    }

    ghost predicate HeadersIntact() {
      forall i | 0 <= i < |blocks| :: HeaderIntact(mem, blocks[i])
    }

    ghost predicate Valid() {
      && |mem| == HEAP_SIZE && used <= HEAP_SIZE
      && InPlace() && Apart() && HeadersIntact()
    }
  }

  /** Header and payload of a block. */
  ghost predicate InSpan(b: Block, k: int) { b.start - HDR_SIZE <= k < b.End() }

  /** In a valid heap no two blocks share a byte of header or payload, and all lie in the array. */
  lemma SpansAreDisjoint(s: State, i: nat, j: nat, k: int)
    requires s.Valid() && i < |s.blocks| && j < |s.blocks|
    requires InSpan(s.blocks[i], k) && InSpan(s.blocks[j], k)
    ensures i == j && 0 <= k < HEAP_SIZE
  {
  }

  /** The relation between the heap before and after a successful or refused request. */
  ghost predicate Allocates(before: State, after: State, size: size_t, alignment: size_t, p: Option<nat>)
    requires before.used <= HEAP_SIZE
  {
    var plan := IntendedPlan(before.used, size, alignment);
    if plan.Refused? then p == None && after == before
    else
      && p == Some(plan.start)
      && after.blocks == before.blocks + [Block(plan.start, plan.size)]
      && after.used == plan.end
      && |after.mem| == |before.mem| == HEAP_SIZE
      && plan.start >= before.used + HDR_SIZE
      && after.mem[..before.used] == before.mem[..before.used]
      && after.mem[plan.start - HDR_SIZE..plan.start] == HeaderBytes(plan.size)
  }

  lemma NewBlockFits(before: State, after: State, b: Block)
    requires before.InPlace() && before.Apart()
    requires after.blocks == before.blocks + [b] && after.used == b.End()
    requires before.used + HDR_SIZE <= b.start && b.size >= 16
    ensures after.InPlace() && after.Apart()
  {
  }

  lemma HeadersStay(before: State, after: State, b: Block)
    requires before.InPlace() && before.HeadersIntact() && HeaderIntact(after.mem, b)
    requires after.blocks == before.blocks + [b] && before.used <= |before.mem| && before.used <= |after.mem|
    requires after.mem[..before.used] == before.mem[..before.used]
    ensures after.HeadersIntact()
  {
    forall i | 0 <= i < |before.blocks|
      ensures HeaderIntact(after.mem, before.blocks[i])
    {
      var c := before.blocks[i];
      assert HeaderIntact(before.mem, c);
      SamePrefix(after.mem, before.mem, before.used, c.start - HDR_SIZE, c.start);
    }
    hide HeaderIntact;
  }

  lemma AllocationKeepsValid(before: State, after: State, size: size_t, alignment: size_t, p: Option<nat>)
    requires before.Valid() && PowerOfTwo(AtLeast(alignment, 16))
    requires Allocates(before, after, size, alignment, p)
    ensures after.Valid()
  {
    if p.Some? {
      IntendedPlanSuits(before.used, size, alignment);
      var plan := IntendedPlan(before.used, size, alignment);
      hide IntendedPlan, PowerOfTwo, Encode, State.InPlace, State.Apart, State.HeadersIntact;
      var b := Block(plan.start, plan.size);
      assert HeaderIntact(after.mem, b);
      NewBlockFits(before, after, b);
      HeadersStay(before, after, b);
    }
  }

  lemma HeaderWritten(before: State, after: State, hdrPos: nat, size: size_t)
    requires |before.mem| == HEAP_SIZE && before.used <= hdrPos && hdrPos + HDR_SIZE <= HEAP_SIZE
    requires after.mem == before.mem[..hdrPos] + HeaderBytes(size) + before.mem[hdrPos + HDR_SIZE..]
    ensures |after.mem| == HEAP_SIZE
    ensures after.mem[..before.used] == before.mem[..before.used]
    ensures after.mem[hdrPos..hdrPos + HDR_SIZE] == HeaderBytes(size)
  {
    assert |HeaderBytes(size)| == HDR_SIZE;
    assert after.mem[..hdrPos] == before.mem[..hdrPos];
    assert after.mem[..hdrPos][..before.used] == after.mem[..before.used];
    assert before.mem[..hdrPos][..before.used] == before.mem[..before.used];
  }

  lemma ValidBounds(s: State)
    requires s.Valid()
    ensures s.used <= HEAP_SIZE && |s.mem| == HEAP_SIZE
  {
  }

  lemma NothingAllocated(s: State, size: size_t, alignment: size_t)
    requires s.used <= HEAP_SIZE && IntendedPlan(s.used, size, alignment).Refused?
    ensures Allocates(s, s, size, alignment, None)
  {
  }

  /** What the code computes for an admissible request is the intended plan. */
  lemma PlanComputed(used: size_t, size: size_t, alignment: size_t)
    requires used <= HEAP_SIZE && PowerOfTwo(AtLeast(alignment, 16)) && Admissible(used, size, alignment)
    ensures var start, rounded := Align(Add(used, HDR_SIZE), AtLeast(alignment, 16)), Align(AtLeast(size, 1), 16);
            var end := Add(start, rounded);
            && IntendedPlan(used, size, alignment) == (if end > HEAP_SIZE then Refused else Granted(start, rounded, end))
            && (end <= HEAP_SIZE ==> used + HDR_SIZE <= start == Sub(start, HDR_SIZE) + HDR_SIZE && start <= HEAP_SIZE)
  {
    IntendedExactlyWhenAdmissible(used, size, alignment);
    if IntendedPlan(used, size, alignment).Granted? {
      IntendedPlanSuits(used, size, alignment);
    }
    hide Align, IntendedPlan, PowerOfTwo, Admissible;
  }

  /** Header written, mark moved and block recorded: that is the allocation asked for. */
  lemma BlockAppended(before: State, after: State, size: size_t, alignment: size_t)
    requires before.Valid() && PowerOfTwo(AtLeast(alignment, 16)) && IntendedPlan(before.used, size, alignment).Granted?
    requires var plan := IntendedPlan(before.used, size, alignment);
             && plan.start >= HDR_SIZE && plan.start <= |before.mem|
             && after.used == plan.end && after.blocks == before.blocks + [Block(plan.start, plan.size)]
             && after.mem == before.mem[..plan.start - HDR_SIZE] + HeaderBytes(plan.size) + before.mem[plan.start..]
    ensures after.Valid()
    ensures Allocates(before, after, size, alignment, Some(IntendedPlan(before.used, size, alignment).start))
  {
    var plan := IntendedPlan(before.used, size, alignment);
    IntendedPlanSuits(before.used, size, alignment);
    HeaderWritten(before, after, plan.start - HDR_SIZE, plan.size);
    hide IntendedPlan, PowerOfTwo, HeaderBytes, State.InPlace, State.Apart, State.HeadersIntact;
    AllocationKeepsValid(before, after, size, alignment, Some(plan.start));
  }

  lemma TwoStores(mem: seq<byte>, half: seq<byte>, at: nat, low: seq<byte>, high: seq<byte>)
    requires at + HDR_SIZE <= |mem| && |low| == |high| == WORD
    requires half == mem[..at] + low + mem[at + WORD..]
    ensures half[..at + WORD] + high + half[at + HDR_SIZE..] == mem[..at] + (low + high) + mem[at + HDR_SIZE..]
  {
    assert half[..at + WORD] == mem[..at] + low;
    assert half[at + HDR_SIZE..] == mem[at + HDR_SIZE..];
  }

  /** Storing into the payload of the newest block only is still the same allocation. */
  lemma PayloadWriteKeepsAllocation(before: State, mid: State, after: State, size: size_t, alignment: size_t, p: Option<nat>)
    requires before.Valid() && PowerOfTwo(AtLeast(alignment, 16))
    requires Allocates(before, mid, size, alignment, p) && p.Some?
    requires after.used == mid.used && after.blocks == mid.blocks && |after.mem| == HEAP_SIZE
    requires after.mem[..p.value] == mid.mem[..p.value]
    ensures Allocates(before, after, size, alignment, p) && after.Valid()
  {
    SamePrefix(after.mem, mid.mem, p.value, 0, before.used);
    SamePrefix(after.mem, mid.mem, p.value, p.value - HDR_SIZE, p.value);
    hide IntendedPlan, PowerOfTwo, Encode, State.Valid;
    AllocationKeepsValid(before, after, size, alignment, p);
  }

  /** What a successful allocation by malloc leaves: the new payload lies above everything used before. */
  lemma GrantIsAbove(before: State, after: State, size: size_t, p: Option<nat>)
    requires before.Valid() && Allocates(before, after, size, 16, p) && p.Some?
    ensures |before.mem| == |after.mem| == HEAP_SIZE
    ensures before.used + HDR_SIZE <= p.value && p.value + size <= HEAP_SIZE
    ensures after.mem[..before.used] == before.mem[..before.used]
  {
    SixteenIsPower();
    IntendedPlanSuits(before.used, size, 16);
  }

  lemma BlockBelowMark(s: State, b: Block)
    requires s.Valid() && b in s.blocks
    ensures HDR_SIZE <= b.start && b.size >= 16 && b.End() <= s.used && HeaderIntact(s.mem, b)
  {
  }

  lemma WriteKeepsValid(before: State, after: State, b: Block, at: nat, v: byte)
    requires before.Valid() && b in before.blocks && b.start <= at < b.End()
    requires at < |before.mem| && after == before.(mem := before.mem[at := v])
    ensures after.Valid()
  {
    forall i | 0 <= i < |before.blocks|
      ensures HeaderIntact(after.mem, before.blocks[i])
    {
      var c := before.blocks[i];
      assert HeaderIntact(before.mem, c);
      assert after.mem[c.start - HDR_SIZE..c.start] == before.mem[c.start - HDR_SIZE..c.start];
    }
  }

  lemma ProductFits(n: size_t, size: size_t)
    requires n > 0 ==> n * size < TWO64
    ensures Mul(n, size) == n * size
  {
  }

  lemma HeaderReads(mem: seq<byte>, b: Block)
    requires HeaderIntact(mem, b)
    ensures Decode(mem[b.start - HDR_SIZE..b.start - WORD]) == b.size
    ensures Decode(mem[b.start - WORD..b.start]) == MAGIC
  {
    hide Encode, Decode;
    WordFits(b.size);
    WordFits(MAGIC);
    Halves(mem, b.start, Encode(b.size, WORD), Encode(MAGIC, WORD));
  }

  lemma Halves(mem: seq<byte>, at: nat, low: seq<byte>, high: seq<byte>)
    requires HDR_SIZE <= at <= |mem| && |low| == |high| == WORD
    requires mem[at - HDR_SIZE..at] == low + high
    ensures mem[at - HDR_SIZE..at - WORD] == low && mem[at - WORD..at] == high
  {
    assert mem[at - HDR_SIZE..at - WORD] == mem[at - HDR_SIZE..at][..WORD];
    assert mem[at - WORD..at] == mem[at - HDR_SIZE..at][WORD..];
  }

  /** What realloc does to block b when asked for a non-zero size. */
  ghost predicate Resizes(before: State, after: State, b: Block, size: size_t, p: Option<nat>)
    requires before.used <= HEAP_SIZE
  {
    if size <= b.size then p == Some(b.start) && after == before
    else
      && Allocates(before, after, size, 16, p)
      && (p.Some? ==>
            && b.End() <= |before.mem| && p.value + b.size <= |after.mem|
            && after.mem[p.value..p.value + b.size] == before.mem[b.start..b.End()])
  }

  /** What clients ask for; Resize and Write name the request that returned the block. */
  datatype Request =
    | NewBlock(size: size_t)
    | NewArray(nmemb: size_t, each: size_t)
    | NewAligned(alignment: size_t, size: size_t)
    | Resize(of: nat, size: size_t)
    | Write(of: nat, offset: nat, v: byte)
  {
    /** Objects stay below half of the address space, alignments are powers of two. */
    ghost predicate Supported() {
      match this
      case NewBlock(size) => size <= TWO64 / 2 - 32
      case NewArray(nmemb, each) => nmemb * each < TWO64 ==> nmemb * each <= TWO64 / 2 - 32
      case NewAligned(alignment, size) => PowerOfTwo(AtLeast(alignment, 16)) && size <= TWO64 / 2 - 32
      case Resize(_, size) => size <= TWO64 / 2 - 32
      case Write(_, _, _) => true
    }

    function Wanted(): nat {
      match this
      case NewBlock(size) => size
      case NewArray(nmemb, each) => nmemb * each
      case NewAligned(_, size) => size
      case Resize(_, size) => size
      case Write(_, _, _) => 0
    }
  }

  /** Some block handed out at p has room for n bytes. */
  ghost predicate Covered(s: State, p: nat, n: nat) {
    exists b: Block :: b in s.blocks && b.start == p && b.size >= n
  }

  /** The first n bytes at from and at to agree across a step. */
  ghost predicate SameBytes(before: State, after: State, from: nat, to: nat, n: nat) {
    && from + n <= |before.mem| && to + n <= |after.mem|
    && after.mem[to..to + n] == before.mem[from..from + n]
  }

  /** What a request calls for: a new block, the block it is about, or nothing. */
  datatype Duty = Allocate(size: size_t, alignment: size_t) | Keep | Nothing

  ghost function DutyOf(before: State, r: Request, ptr: Option<nat>): Duty {
    match r
    case NewBlock(size) => Allocate(size, 16)
    case NewArray(nmemb, each) => if nmemb * each < TWO64 then Allocate(nmemb * each, 16) else Nothing
    case NewAligned(alignment, size) => Allocate(size, alignment)
    case Resize(_, size) =>
      if ptr == None then Allocate(size, 16)
      else if size == 0 then Nothing
      else if Covered(before, ptr.value, size) then Keep
      else Allocate(size, 16)
    case Write(_, _, _) => Nothing
  }

  /** A new block lies above everything used before, aligned; it is refused only when it does not fit. */
  ghost predicate Fulfilled(before: State, after: State, duty: Duty, ptr: Option<nat>, p: Option<nat>) {
    match duty
    case Nothing => p == None
    case Keep => p == ptr && after == before
    case Allocate(size, alignment) =>
      && before.used <= HEAP_SIZE
      && (p == None <==> IntendedPlan(before.used, size, alignment).Refused?)
      && (p == None ==> after == before)
      && (p.Some? ==> p.value >= before.used + HDR_SIZE && Aligned(p.value, AtLeast(alignment, 16)))
  }

  lemma AllocationFulfils(before: State, after: State, size: size_t, alignment: size_t, ptr: Option<nat>, p: Option<nat>)
    requires before.Valid() && PowerOfTwo(AtLeast(alignment, 16))
    requires Allocates(before, after, size, alignment, p)
    ensures Fulfilled(before, after, Allocate(size, alignment), ptr, p)
  {
    if p.Some? {
      IntendedPlanSuits(before.used, size, alignment);
    }
    hide State.Valid, PowerOfTwo, IntendedPlan;
  }

  /** Everything a client may rely on, whatever it asked for. */
  ghost predicate Served(before: State, after: State, r: Request, ptr: Option<nat>, p: Option<nat>) {
    && Fulfilled(before, after, DutyOf(before, r, ptr), ptr, p)
    && before.blocks <= after.blocks
    && before.used <= after.used
    && (p == None && !r.Write? ==> after == before)
    && (p.Some? ==> Covered(after, p.value, r.Wanted()))
    && (r.NewArray? && p.Some? ==>
          && p.value + r.Wanted() <= |after.mem|
          && after.mem[p.value..p.value + r.Wanted()] == Zeros(r.Wanted()))
    && (r.Resize? && ptr.Some? && p.Some? ==>
          exists b: Block :: b in before.blocks && b.start == ptr.value
            && SameBytes(before, after, b.start, p.value, if r.size < b.size then r.size else b.size))
    && (if r.Write? && ptr.Some? && Covered(before, ptr.value, r.offset + 1) && ptr.value + r.offset < |before.mem|
        then after == before.(mem := before.mem[ptr.value + r.offset := r.v])
        else SameBytes(before, after, 0, 0, before.used))
  }

  lemma AllocationCovers(before: State, after: State, size: size_t, alignment: size_t, p: Option<nat>)
    requires before.Valid() && PowerOfTwo(AtLeast(alignment, 16))
    requires Allocates(before, after, size, alignment, p)
    ensures before.blocks <= after.blocks && before.used <= after.used
    ensures p.Some? ==> Covered(after, p.value, size)
    ensures SameBytes(before, after, 0, 0, before.used)
  {
    if p.Some? {
      IntendedPlanSuits(before.used, size, alignment);
      var plan := IntendedPlan(before.used, size, alignment);
      assert Block(plan.start, plan.size) in after.blocks;
    }
  }

  lemma AllocationServes(before: State, after: State, r: Request, alignment: size_t, ptr: Option<nat>, p: Option<nat>)
    requires before.Valid() && PowerOfTwo(AtLeast(alignment, 16))
    requires !r.Write? && (r.Resize? ==> ptr == None)
    requires r.Wanted() < TWO64 && DutyOf(before, r, ptr) == Allocate(r.Wanted(), alignment)
    requires Allocates(before, after, r.Wanted(), alignment, p)
    requires r.NewArray? && p.Some? ==>
               p.value + r.Wanted() <= |after.mem| && after.mem[p.value..p.value + r.Wanted()] == Zeros(r.Wanted())
    ensures Served(before, after, r, ptr, p)
  {
    AllocationCovers(before, after, r.Wanted(), alignment, p);
    AllocationFulfils(before, after, r.Wanted(), alignment, ptr, p);
    hide DutyOf, Allocates, PowerOfTwo;
    assert p == None ==> after == before;
    hide Fulfilled;
  }

  lemma ReallocServes(before: State, after: State, r: Request, b: Block, p: Option<nat>)
    requires before.Valid() && b in before.blocks && r.Resize? && r.size > 0
    requires Resizes(before, after, b, r.size, p)
    ensures Served(before, after, r, Some(b.start), p)
  {
    var kept := if r.size < b.size then r.size else b.size;
    ResizeDuty(before, r, b);
    if r.size <= b.size {
      InPlaceServes(before, b, r.size);
    } else {
      GrowthServes(before, after, b, r.size, p);
    }
    hide DutyOf, State.Valid, Allocates;
    ResizeServed(before, after, r, b, p, kept);
    hide *;
  }

  lemma ResizeDuty(before: State, r: Request, b: Block)
    requires before.Valid() && b in before.blocks && r.Resize? && r.size > 0
    ensures DutyOf(before, r, Some(b.start)) == if r.size <= b.size then Keep else Allocate(r.size, 16)
  {
    SameStartSameBlock(before, b);
    hide State.Valid;
  }

  lemma InPlaceServes(s: State, b: Block, size: nat)
    requires s.Valid() && b in s.blocks && size <= b.size
    ensures Covered(s, b.start, size) && SameBytes(s, s, b.start, b.start, size) && SameBytes(s, s, 0, 0, s.used)
  {
    BlockBelowMark(s, b);
    hide HeaderIntact;
  }

  lemma GrowthServes(before: State, after: State, b: Block, size: size_t, p: Option<nat>)
    requires before.Valid() && b in before.blocks && size > b.size
    requires Resizes(before, after, b, size, p)
    ensures before.blocks <= after.blocks && before.used <= after.used
    ensures p.Some? ==> Covered(after, p.value, size) && SameBytes(before, after, b.start, p.value, b.size)
    ensures SameBytes(before, after, 0, 0, before.used)
    ensures Fulfilled(before, after, Allocate(size, 16), Some(b.start), p)
  {
    SixteenIsPower();
    ResizeCopies(before, after, b, size, p);
    hide Allocates, Resizes, PowerOfTwo, Covered, SameBytes;
    AllocationCovers(before, after, size, 16, p);
    AllocationFulfils(before, after, size, 16, Some(b.start), p);
    hide *;
  }

  lemma ResizeCopies(before: State, after: State, b: Block, size: size_t, p: Option<nat>)
    requires before.used <= HEAP_SIZE && size > b.size
    requires Resizes(before, after, b, size, p)
    ensures Allocates(before, after, size, 16, p)
    ensures p.Some? ==> SameBytes(before, after, b.start, p.value, b.size)
  {
    hide Allocates;
  }

  lemma ResizeServed(before: State, after: State, r: Request, b: Block, p: Option<nat>, kept: nat)
    requires r.Resize? && b in before.blocks && kept == if r.size < b.size then r.size else b.size
    requires before.blocks <= after.blocks && before.used <= after.used
    requires p.Some? ==> Covered(after, p.value, r.size) && SameBytes(before, after, b.start, p.value, kept)
    requires SameBytes(before, after, 0, 0, before.used)
    requires Fulfilled(before, after, DutyOf(before, r, Some(b.start)), Some(b.start), p)
    requires DutyOf(before, r, Some(b.start)) != Nothing
    ensures Served(before, after, r, Some(b.start), p)
  {
    hide SameBytes, Covered, DutyOf, IntendedPlan;
  }

  lemma RefusalServes(s: State, r: Request, ptr: Option<nat>)
    requires s.Valid() && !r.Write? && DutyOf(s, r, ptr) == Nothing
    ensures Served(s, s, r, ptr, None)
  {
    hide DutyOf;
  }

  lemma WriteServes(before: State, after: State, r: Request, ptr: Option<nat>, size: nat)
    requires before.Valid() && r.Write?
    requires ptr.Some? ==> Block(ptr.value, size) in before.blocks
    requires after == if ptr.Some? && r.offset < size then before.(mem := Overwritten(before.mem, ptr.value + r.offset, r.v)) else before
    ensures Served(before, after, r, ptr, None)
  {
    if ptr.Some? {
      var b := Block(ptr.value, size);
      BlockBelowMark(before, b);
      SameStartSameBlock(before, b);
    }
  }

  lemma SameStartSameBlock(s: State, b: Block)
    requires s.Valid() && b in s.blocks
    ensures forall c | c in s.blocks && c.start == b.start :: c == b
  {
    forall c | c in s.blocks && c.start == b.start
      ensures c == b
    {
      var i :| 0 <= i < |s.blocks| && s.blocks[i] == b;
      var j :| 0 <= j < |s.blocks| && s.blocks[j] == c;
    }
  }

  function Overwritten(mem: seq<byte>, at: nat, v: byte): seq<byte> {
    if at < |mem| then mem[at := v] else mem
  }

  /** A block with enough room keeps it for ever. */
  lemma CoverageLasts(before: State, after: State, p: nat, n: nat)
    requires before.blocks <= after.blocks && Covered(before, p, n)
    ensures Covered(after, p, n)
  {
    var b: Block :| b in before.blocks && b.start == p && b.size >= n;
    assert b in after.blocks;
  }

  /** Every pointer returned so far still has room for what was asked for. */
  ghost predicate AllCovered(s: State, requests: seq<Request>, results: seq<Option<nat>>) {
    && |results| <= |requests|
    && forall i | 0 <= i < |results| && results[i].Some? :: Covered(s, results[i].value, requests[i].Wanted())
  }

  lemma CoveredAsBlock(s: State, requests: seq<Request>, results: seq<Option<nat>>, i: nat)
    requires AllCovered(s, requests, results) && i < |results| && results[i].Some?
    ensures Covered(s, results[i].value, 0)
  {
    var b: Block :| b in s.blocks && b.start == results[i].value && b.size >= requests[i].Wanted();
  }

  lemma ServedKeepsRun(before: State, after: State, requests: seq<Request>, results: seq<Option<nat>>, ptr: Option<nat>, p: Option<nat>)
    requires |results| < |requests| && AllCovered(before, requests, results)
    requires Served(before, after, requests[|results|], ptr, p)
    ensures AllCovered(after, requests, results + [p])
    ensures before.blocks <= after.blocks && before.used <= after.used
  {
    hide SameBytes, Covered;
    forall i | 0 <= i < |results| && results[i].Some?
      ensures Covered(after, results[i].value, requests[i].Wanted())
    {
      CoverageLasts(before, after, results[i].value, requests[i].Wanted());
    }
  }

  /** The earlier result that a request concerns. */
  function Target(r: Request, earlier: seq<Option<nat>>): Option<nat> {
    if (r.Resize? || r.Write?) && r.of < |earlier| then earlier[r.of] else None
  }

  ghost predicate StoresAt(r: Request, earlier: seq<Option<nat>>, at: nat) {
    r.Write? && Target(r, earlier).Some? && Target(r, earlier).value + r.offset == at
  }

  /** The states between the requests of a session; each of them is served, and block i is named by its request. */
  ghost predicate Session(states: seq<State>, requests: seq<Request>, results: seq<Option<nat>>) {
    && |states| == |results| + 1 && |results| <= |requests|
    && (forall n | 0 <= n < |states| :: states[n].Valid())
    && (forall n | 0 <= n < |results| :: ServedNth(states, requests, results, n))
  }

  ghost predicate ServedNth(states: seq<State>, requests: seq<Request>, results: seq<Option<nat>>, n: nat)
    requires n < |results| < |states| && |results| <= |requests|
  {
    Served(states[n], states[n + 1], requests[n], Target(requests[n], results[..n]), results[n])
  }

  lemma SessionGoesOn(states: seq<State>, requests: seq<Request>, results: seq<Option<nat>>, after: State, p: Option<nat>)
    requires Session(states, requests, results) && |results| < |requests| && after.Valid()
    requires Served(states[|results|], after, requests[|results|], Target(requests[|results|], results), p)
    ensures Session(states + [after], requests, results + [p])
  {
    hide Served, State.Valid, Target;
    var states', results' := states + [after], results + [p];
    assert results'[..|results|] == results;
    forall n | 0 <= n < |results'|
      ensures ServedNth(states', requests, results', n)
    {
      if n < |results| {
        assert ServedNth(states, requests, results, n) && results'[..n] == results[..n];
      }
    }
  }

  /** Request n of a session calls for a new block. */
  ghost predicate CallsForBlock(states: seq<State>, requests: seq<Request>, results: seq<Option<nat>>, n: nat)
    requires n < |results| < |states| && |results| <= |requests|
  {
    DutyOf(states[n], requests[n], Target(requests[n], results[..n])).Allocate?
  }

  lemma {:induction false} MarkGrows(states: seq<State>, requests: seq<Request>, results: seq<Option<nat>>, n: nat, k: nat)
    requires Session(states, requests, results) && n <= k <= |results|
    ensures states[n].used <= states[k].used && states[n].blocks <= states[k].blocks
    decreases k
  {
    hide State.Valid, DutyOf, Fulfilled, SameBytes, Covered, Target;
    if n < k {
      MarkGrows(states, requests, results, n, k - 1);
      assert ServedNth(states, requests, results, k - 1);
    }
  }

  /** A new block lies, with its header, above everything that any earlier request was given. */
  lemma NewBlocksAreApart(states: seq<State>, requests: seq<Request>, results: seq<Option<nat>>, m: nat, n: nat)
    requires Session(states, requests, results) && m < n < |results|
    requires results[m].Some? && results[n].Some? && CallsForBlock(states, requests, results, n)
    ensures results[m].value + requests[m].Wanted() + HDR_SIZE <= results[n].value
  {
    hide ServedNth, State.Valid, DutyOf, Target;
    GivenBelowMark(states, requests, results, m);
    MarkGrows(states, requests, results, m + 1, n);
    assert ServedNth(states, requests, results, n);
    NewIsAboveMark(states, requests, results, n);
  }

  lemma NewIsAboveMark(states: seq<State>, requests: seq<Request>, results: seq<Option<nat>>, n: nat)
    requires n < |results| < |states| && |results| <= |requests| && ServedNth(states, requests, results, n)
    requires results[n].Some? && CallsForBlock(states, requests, results, n)
    ensures results[n].value >= states[n].used + HDR_SIZE
  {
    hide State.Valid, DutyOf, Covered, SameBytes, Target, IntendedPlan, Aligned;
  }

  lemma GivenBelowMark(states: seq<State>, requests: seq<Request>, results: seq<Option<nat>>, n: nat)
    requires Session(states, requests, results) && n < |results| && results[n].Some?
    ensures results[n].value + requests[n].Wanted() <= states[n + 1].used
  {
    assert ServedNth(states, requests, results, n);
    var after := states[n + 1];
    var b: Block :| b in after.blocks && b.start == results[n].value && b.size >= requests[n].Wanted();
    BlockBelowMark(after, b);
  }

  /** None of the requests from n up to k is a store into this byte. */
  ghost predicate Unstored(requests: seq<Request>, results: seq<Option<nat>>, n: nat, k: nat, at: nat)
    requires k <= |results| && k <= |requests|
  {
    forall i | n <= i < k :: !StoresAt(requests[i], results[..i], at)
  }

  /** The mark only grows, and a byte below it keeps its value for as long as no client stores into it. */
  lemma {:induction false} BytesPersist(states: seq<State>, requests: seq<Request>, results: seq<Option<nat>>, n: nat, k: nat, at: nat)
    requires Session(states, requests, results) && n <= k <= |results| && at < states[n].used
    requires Unstored(requests, results, n, k, at)
    ensures at < states[k].used && at < |states[n].mem| == |states[k].mem| && states[k].mem[at] == states[n].mem[at]
    decreases k
  {
    if n < k {
      BytesPersist(states, requests, results, n, k - 1, at);
      assert ServedNth(states, requests, results, k - 1) && states[k].Valid();
      UntouchedByte(states[k - 1], states[k], requests[k - 1], Target(requests[k - 1], results[..k - 1]), results[k - 1], at);
    }
    hide *;
  }

  lemma UntouchedByte(before: State, after: State, r: Request, ptr: Option<nat>, p: Option<nat>, at: nat)
    requires Served(before, after, r, ptr, p) && at < before.used <= |before.mem|
    requires r.Write? && ptr.Some? ==> ptr.value + r.offset != at
    ensures at < |after.mem| && after.mem[at] == before.mem[at] && before.used <= after.used
  {
    if SameBytes(before, after, 0, 0, before.used) {
      assert after.mem[..before.used][at] == before.mem[..before.used][at];
    }
  }

  /** A zeroed array stays zero for as long as no client stores into it. */
  lemma ArrayStaysZero(states: seq<State>, requests: seq<Request>, results: seq<Option<nat>>, n: nat, k: nat, at: nat)
    requires Session(states, requests, results) && n < k <= |results|
    requires requests[n].NewArray? && results[n].Some?
    requires results[n].value <= at < results[n].value + requests[n].Wanted()
    requires Unstored(requests, results, n, k, at)
    ensures at < |states[k].mem| && states[k].mem[at] == 0
  {
    assert ServedNth(states, requests, results, n);
    ZeroedByte(states[n], states[n + 1], requests[n], Target(requests[n], results[..n]), results[n].value, at);
    hide Served, Covered, State.Valid, Target;
    PayloadBelowMark(states, requests, results, n, at);
    BytesPersist(states, requests, results, n + 1, k, at);
  }

  lemma ZeroedByte(before: State, after: State, r: Request, ptr: Option<nat>, p: nat, at: nat)
    requires Served(before, after, r, ptr, Some(p)) && r.NewArray? && p <= at < p + r.Wanted()
    ensures at < |after.mem| && after.mem[at] == 0
  {
    var len := r.Wanted();
    assert after.mem[p..p + len][at - p] == Zeros(len)[at - p] == 0;
  }

  /** A byte that a client stores into its payload reads back until a client stores into it again. */
  lemma StoreReadsBack(states: seq<State>, requests: seq<Request>, results: seq<Option<nat>>, n: nat, k: nat)
    requires Session(states, requests, results) && n < k <= |results|
    requires var r, ptr := requests[n], Target(requests[n], results[..n]);
             r.Write? && ptr.Some? && Covered(states[n], ptr.value, r.offset + 1)
             && Unstored(requests, results, n + 1, k, ptr.value + r.offset)
    ensures var at := Target(requests[n], results[..n]).value + requests[n].offset;
            at < |states[k].mem| && states[k].mem[at] == requests[n].v
  {
    var at := Target(requests[n], results[..n]).value + requests[n].offset;
    assert ServedNth(states, requests, results, n) && states[n + 1].Valid();
    CoveredBelowMark(states[n], Target(requests[n], results[..n]).value, requests[n].offset);
    assert states[n + 1].mem[at] == requests[n].v && states[n + 1].used == states[n].used;
    hide Served, Covered, State.Valid, Target;
    BytesPersist(states, requests, results, n + 1, k, at);
  }

  lemma CoveredBelowMark(s: State, p: nat, i: nat)
    requires s.Valid() && Covered(s, p, i + 1)
    ensures p + i < s.used <= |s.mem|
  {
    var b: Block :| b in s.blocks && b.start == p && b.size >= i + 1;
    BlockBelowMark(s, b);
  }

  /** What was asked for lies below the mark from then on. */
  lemma PayloadBelowMark(states: seq<State>, requests: seq<Request>, results: seq<Option<nat>>, n: nat, at: nat)
    requires Session(states, requests, results) && n < |results| && results[n].Some?
    requires results[n].value <= at < results[n].value + requests[n].Wanted()
    ensures at < states[n + 1].used
  {
    GivenBelowMark(states, requests, results, n);
  }

  /** A resized block begins with what the old one held, byte by byte, for as long as no client stores into it. */
  lemma ResizedKeepsBytes(states: seq<State>, requests: seq<Request>, results: seq<Option<nat>>, n: nat, k: nat, i: nat)
    requires Session(states, requests, results) && n < k <= |results|
    requires requests[n].Resize? && results[n].Some? && i < requests[n].size
    requires var old' := Target(requests[n], results[..n]); old'.Some? && Covered(states[n], old'.value, i + 1)
    requires Unstored(requests, results, n, k, results[n].value + i)
    ensures var from, to := Target(requests[n], results[..n]).value + i, results[n].value + i;
            from < |states[n].mem| && to < |states[k].mem| && states[k].mem[to] == states[n].mem[from]
  {
    hide Served, Covered, State.Valid, Target;
    assert ServedNth(states, requests, results, n);
    CopiedByte(states[n], states[n + 1], requests[n], Target(requests[n], results[..n]).value, results[n].value, i);
    PayloadBelowMark(states, requests, results, n, results[n].value + i);
    BytesPersist(states, requests, results, n + 1, k, results[n].value + i);
  }

  lemma SameByte(before: State, after: State, from: nat, to: nat, n: nat, i: nat)
    requires SameBytes(before, after, from, to, n) && i < n
    ensures from + i < |before.mem| && to + i < |after.mem| && after.mem[to + i] == before.mem[from + i]
  {
    assert after.mem[to..to + n][i] == after.mem[to + i];
    assert before.mem[from..from + n][i] == before.mem[from + i];
  }

  lemma CopiedByte(before: State, after: State, r: Request, from: nat, to: nat, i: nat)
    requires before.Valid() && r.Resize? && i < r.size && Covered(before, from, i + 1)
    requires Served(before, after, r, Some(from), Some(to))
    ensures from + i < |before.mem| && to + i < |after.mem| && after.mem[to + i] == before.mem[from + i]
  {
    hide State.Valid, SameBytes;
    var b: Block :| b in before.blocks && b.start == from
      && SameBytes(before, after, from, to, if r.size < b.size then r.size else b.size);
    SameStartSameBlock(before, b);
    hide Served;
    SameByte(before, after, from, to, if r.size < b.size then r.size else b.size, i);
  }

  class Allocator {
    const heap: array<byte>
    var used: size_t
    ghost var blocks: seq<Block>

    ghost function Snapshot(): State
      reads this, heap
    {
      State(heap[..], used, blocks)
    }

    ghost predicate Valid()
      reads this, heap
    {
      Snapshot().Valid()
    }

    constructor ()
      ensures Valid() && fresh(heap)
      ensures used == 0 && blocks == []
    {
      heap := new byte[HEAP_SIZE](_ => 0);
      used := 0;
      blocks := [];
    }

    method StoreWord(at: nat, n: size_t)
      requires at + WORD <= heap.Length
      modifies heap
      ensures heap[..] == old(heap[..at]) + Encode(n, WORD) + old(heap[at + WORD..])
    {
      var bytes := Encode(n, WORD);
      forall i | 0 <= i < WORD {
        heap[at + i] := bytes[i];
      }
      assert heap[at..at + WORD] == bytes;
    }

    method WriteHeader(hdrPos: nat, size: size_t)
      requires hdrPos + HDR_SIZE <= heap.Length
      modifies heap
      ensures heap[..] == old(heap[..hdrPos]) + HeaderBytes(size) + old(heap[hdrPos + HDR_SIZE..])
    {
      StoreWord(hdrPos, size);
      ghost var half := heap[..];
      StoreWord(hdrPos + WORD, MAGIC);
      hide Encode;
      TwoStores(old(heap[..]), half, hdrPos, Encode(size, WORD), Encode(MAGIC, WORD));
    }

    /** Writes the header, moves the mark, and records the block. */
    method TakeBlock(hdrPos: nat, size: size_t, end: size_t)
      requires hdrPos + HDR_SIZE <= heap.Length
      modifies this, heap
      ensures Snapshot() == State(old(heap[..hdrPos]) + HeaderBytes(size) + old(heap[hdrPos + HDR_SIZE..]), end,
                                  old(blocks) + [Block(hdrPos + HDR_SIZE, size)])
    {
      hide HeaderBytes;
      WriteHeader(hdrPos, size);
      used := end;
      blocks := blocks + [Block(hdrPos + HDR_SIZE, size)];
    }

    method BumpAlloc(size: size_t, alignment: size_t) returns (p: Option<nat>)
      requires Valid()
      requires PowerOfTwo(AtLeast(alignment, 16)) && Admissible(used, size, alignment)
      modifies this, heap
      ensures Valid()
      ensures Allocates(old(Snapshot()), Snapshot(), size, alignment, p)
    {
      ghost var before := Snapshot();
      ValidBounds(before);
      PlanComputed(used, size, alignment);
      hide State.Valid, Align, Add, Sub, Encode, IntendedPlan, PowerOfTwo, Admissible, HeaderBytes, Allocates;
      var size' := if size == 0 then 1 else size;
      var alignment' := if alignment < 16 then 16 else alignment;
      var start := Align(Add(used, HDR_SIZE), alignment');
      var hdrPos := Sub(start, HDR_SIZE);
      var end := Add(start, Align(size', 16));
      if end > HEAP_SIZE {
        NothingAllocated(before, size, alignment);
        return None;
      }
      TakeBlock(hdrPos, Align(size', 16), end);
      p := Some(start);
      BlockAppended(before, Snapshot(), size, alignment);
    }

    method LoadWord(at: nat) returns (n: nat)
      requires at + WORD <= heap.Length
      ensures n == Decode(heap[at..at + WORD])
    {
      n := Decode(heap[at..at + WORD]);
    }

    /** memset(heap + at, 0, len) */
    method Clear(at: nat, len: nat)
      requires at + len <= heap.Length
      modifies heap
      ensures heap[..at] == old(heap[..at]) && heap[at + len..] == old(heap[at + len..])
      ensures heap[at..at + len] == Zeros(len)
    {
      forall i | at <= i < at + len {
        heap[i] := 0;
      }
    }

    /** memcpy(heap + dst, heap + src, len), the two ranges apart */
    method Copy(dst: nat, src: nat, len: nat)
      requires src + len <= dst && dst + len <= heap.Length
      modifies heap
      ensures heap[..dst] == old(heap[..dst]) && heap[dst + len..] == old(heap[dst + len..])
      ensures heap[dst..dst + len] == old(heap[src..src + len])
    {
      forall i | dst <= i < dst + len {
        heap[i] := heap[i - dst + src];
      }
      SameSlice(heap[..], dst, old(heap[..]), src, len);
    }

    method Malloc(size: size_t) returns (p: Option<nat>)
      requires Valid() && Admissible(used, size, 16)
      modifies this, heap
      ensures Valid() && Allocates(old(Snapshot()), Snapshot(), size, 16, p)
    {
      SixteenIsPower();
      p := BumpAlloc(size, 16);
    }

    /** A product that does not fit a size_t is refused; otherwise the whole product is zeroed. */
    method Calloc(nmemb: size_t, size: size_t) returns (p: Option<nat>)
      requires Valid() && (nmemb * size < TWO64 ==> Admissible(used, nmemb * size, 16))
      modifies this, heap
      ensures Valid()
      ensures nmemb * size >= TWO64 ==> p == None && Snapshot() == old(Snapshot())
      ensures nmemb * size < TWO64 ==> Allocates(old(Snapshot()), Snapshot(), nmemb * size, 16, p)
      ensures p.Some? ==> p.value + nmemb * size <= used
      ensures p.Some? ==> heap[p.value..p.value + nmemb * size] == Zeros(nmemb * size)
    {
      var total := Mul(nmemb, size);
      if nmemb > 0 {
        DivideBack(nmemb, size);
      }
      if nmemb != 0 && total / nmemb != size {
        return None;
      }
      ProductFits(nmemb, size);
      p := Malloc(total);
      if p.Some? {
        ghost var granted := Snapshot();
        SixteenIsPower();
        IntendedPlanSuits(old(used), total, 16);
        Clear(p.value, total);
        PayloadWriteKeepsAllocation(old(Snapshot()), granted, Snapshot(), total, 16, p);
      }
    }

    /** The header just below a block is found intact and gives its size. */
    method HeaderSize(ptr: nat) returns (size: nat)
      requires Valid() && Covered(Snapshot(), ptr, 0)
      ensures Block(ptr, size) in blocks && size < TWO64
    {
      ghost var b: Block :| b in blocks && b.start == ptr;
      HeaderReads(heap[..], b);
      var magic := LoadWord(ptr - HDR_SIZE + WORD);
      var stored := LoadWord(ptr - HDR_SIZE);
      assert heap[..][ptr - WORD..ptr] == heap[ptr - WORD..ptr];
      assert heap[..][ptr - HDR_SIZE..ptr - WORD] == heap[ptr - HDR_SIZE..ptr - WORD];
      size := if magic == MAGIC then stored else 0;
    }

    method Realloc(ptr: Option<nat>, size: size_t) returns (p: Option<nat>)
      requires Valid() && Admissible(used, size, 16)
      requires ptr.Some? ==> Covered(Snapshot(), ptr.value, 0)
      modifies this, heap
      ensures Valid()
      ensures ptr == None ==> Allocates(old(Snapshot()), Snapshot(), size, 16, p)
      ensures ptr.Some? && size == 0 ==> p == None && Snapshot() == old(Snapshot())
      ensures ptr.Some? && size > 0 ==>
                exists b: Block :: b in old(blocks) && b.start == ptr.value && Resizes(old(Snapshot()), Snapshot(), b, size, p)
    {
      if ptr == None {
        p := Malloc(size);
        return;
      }
      if size == 0 {
        return None;
      }
      var oldSize := HeaderSize(ptr.value);
      ghost var b := Block(ptr.value, oldSize);
      if size <= oldSize {
        return ptr;
      }
      p := Move(b, ptr.value, oldSize, size);
    }

    /** The growing branch of realloc: a new block, starting with the bytes of the old one. */
    method Move(ghost b: Block, ptr: nat, oldSize: nat, size: size_t) returns (p: Option<nat>)
      requires Valid() && Admissible(used, size, 16)
      requires b in blocks && b == Block(ptr, oldSize) && size > oldSize
      modifies this, heap
      ensures Valid() && Resizes(old(Snapshot()), Snapshot(), b, size, p)
    {
      p := Malloc(size);
      if p.Some? && oldSize > 0 {
        ghost var granted := Snapshot();
        SixteenIsPower();
        IntendedPlanSuits(old(used), size, 16);
        BlockBelowMark(old(Snapshot()), b);
        GrantIsAbove(old(Snapshot()), granted, size, p);
        hide Allocates, IntendedPlan, HeaderIntact, State.Valid, Encode, PowerOfTwo;
        Copy(p.value, ptr, oldSize);
        SamePrefix(granted.mem, old(heap[..]), old(used), b.start, b.End());
        PayloadWriteKeepsAllocation(old(Snapshot()), granted, Snapshot(), size, 16, p);
      }
    }

    method UsableSize(ptr: Option<nat>) returns (size: nat)
      requires Valid() && (ptr.Some? ==> Covered(Snapshot(), ptr.value, 0))
      ensures ptr == None ==> size == 0
      ensures ptr.Some? ==> Block(ptr.value, size) in blocks
    {
      if ptr == None {
        return 0;
      }
      size := HeaderSize(ptr.value);
    }

    /** A client storing into a payload it was given. */
    method ClientWrite(ghost b: Block, at: nat, v: byte)
      requires Valid() && b in blocks && b.start <= at < b.End()
      modifies heap
      ensures Valid() && heap[..] == old(heap[..])[at := v]
    {
      heap[at] := v;
      WriteKeepsValid(old(Snapshot()), Snapshot(), b, at, v);
    }

    method Memalign(alignment: size_t, size: size_t) returns (p: Option<nat>)
      requires Valid()
      requires PowerOfTwo(AtLeast(alignment, 16)) && Admissible(used, size, alignment)
      modifies this, heap
      ensures Valid() && Allocates(old(Snapshot()), Snapshot(), size, alignment, p)
    {
      p := BumpAlloc(size, alignment);
    }

    /** Reports an error code and leaves the caller's pointer alone, or stores a block in it. */
    method PosixMemalign(memptr: Option<nat>, alignment: size_t, size: size_t) returns (error: nat, memptr': Option<nat>)
      requires Valid()
      requires PowerOfTwo(AtLeast(alignment, 16)) && Admissible(used, size, alignment)
      modifies this, heap
      ensures Valid() && (error == 0 || error == ENOMEM)
      ensures error == 0 ==> memptr'.Some? && Allocates(old(Snapshot()), Snapshot(), size, alignment, memptr')
      ensures error != 0 ==> memptr' == memptr && Allocates(old(Snapshot()), Snapshot(), size, alignment, None)
    {
      var p := BumpAlloc(size, alignment);
      if p == None {
        return ENOMEM, memptr;
      }
      return 0, p;
    }

    /** The page-aligned expansion handed to the C library. */
    method ExpandHeap(n: size_t) returns (p: Option<nat>)
      requires Valid() && Admissible(used, n, 4096)
      modifies this, heap
      ensures Valid() && Allocates(old(Snapshot()), Snapshot(), n, 4096, p)
      ensures p.Some? ==> Aligned(p.value, 4096)
    {
      assert Pow2(6) == 64;
      Pow2Add(6, 6);
      p := BumpAlloc(n, 4096);
      if p.Some? {
        IntendedPlanSuits(old(used), n, 4096);
      }
    }

    /** One request of a client; ptr is the earlier block it concerns, if any. */
    method Serve(r: Request, ptr: Option<nat>) returns (p: Option<nat>)
      requires Valid() && r.Supported()
      requires ptr.Some? ==> Covered(Snapshot(), ptr.value, 0)
      modifies this, heap
      ensures Valid() && Served(old(Snapshot()), Snapshot(), r, ptr, p)
    {
      ghost var before := Snapshot();
      SixteenIsPower();
      hide Allocates, Resizes, Served, IntendedPlan, HeaderIntact, PowerOfTwo;
      match r
      case NewBlock(size) =>
        ObjectSizesAreAdmissible(used, size, 16);
        p := Malloc(size);
        AllocationServes(before, Snapshot(), r, 16, ptr, p);
      case NewArray(nmemb, size) =>
        if nmemb * size < TWO64 {
          ObjectSizesAreAdmissible(used, nmemb * size, 16);
        }
        p := Calloc(nmemb, size);
        if nmemb * size < TWO64 {
          AllocationServes(before, Snapshot(), r, 16, ptr, p);
        } else {
          RefusalServes(before, r, ptr);
        }
      case NewAligned(alignment, size) =>
        ObjectSizesAreAdmissible(used, size, alignment);
        p := Memalign(alignment, size);
        AllocationServes(before, Snapshot(), r, alignment, ptr, p);
      case Resize(_, _) =>
        p := ServeResize(r, ptr);
      case Write(_, _, _) =>
        p := None;
        ServeWrite(r, ptr);
    }

    method ServeResize(r: Request, ptr: Option<nat>) returns (p: Option<nat>)
      requires Valid() && r.Supported() && r.Resize?
      requires ptr.Some? ==> Covered(Snapshot(), ptr.value, 0)
      modifies this, heap
      ensures Valid() && Served(old(Snapshot()), Snapshot(), r, ptr, p)
    {
      ghost var before := Snapshot();
      SixteenIsPower();
      hide Allocates, Resizes, Served, IntendedPlan, HeaderIntact, PowerOfTwo;
      ObjectSizesAreAdmissible(used, r.size, 16);
      p := Realloc(ptr, r.size);
      if ptr == None {
        AllocationServes(before, Snapshot(), r, 16, ptr, p);
      } else if r.size > 0 {
        ghost var b: Block :| b in before.blocks && b.start == ptr.value && Resizes(before, Snapshot(), b, r.size, p);
        ReallocServes(before, Snapshot(), r, b, p);
      } else {
        RefusalServes(before, r, ptr);
      }
    }

    method ServeWrite(r: Request, ptr: Option<nat>)
      requires Valid() && r.Write?
      requires ptr.Some? ==> Covered(Snapshot(), ptr.value, 0)
      modifies heap
      ensures Valid() && Served(old(Snapshot()), Snapshot(), r, ptr, None)
    {
      ghost var before := Snapshot();
      var size := UsableSize(ptr);
      if ptr.Some? && r.offset < size {
        BlockBelowMark(before, Block(ptr.value, size));
        ClientWrite(Block(ptr.value, size), ptr.value + r.offset, r.v);
      }
      hide Served, HeaderIntact;
      WriteServes(before, Snapshot(), r, ptr, size);
    }

    /**
      A whole session: block i is named by the number of the request that returned it. Every byte
      below the mark after some request still has its value at the end, unless a client stored into it.
     */
    method Run(requests: seq<Request>) returns (results: seq<Option<nat>>, ghost states: seq<State>)
      requires Valid()
      requires forall i | 0 <= i < |requests| :: requests[i].Supported()
      modifies this, heap
      ensures Valid() && |results| == |requests|
      ensures Session(states, requests, results) && states[0] == old(Snapshot()) && states[|requests|] == Snapshot()
      ensures AllCovered(Snapshot(), requests, results)
      ensures old(blocks) <= blocks
      ensures forall n, at | 0 <= n <= |requests| && 0 <= at < states[n].used && Unstored(requests, results, n, |requests|, at) ::
                heap[at] == states[n].mem[at]
      ensures forall m, n | 0 <= m < n < |requests| && results[m].Some? && results[n].Some? && CallsForBlock(states, requests, results, n) ::
                results[m].value + requests[m].Wanted() + HDR_SIZE <= results[n].value
    {
      results, states := [], [Snapshot()];
      hide Served, Covered, HeaderIntact, Unstored;
      for n := 0 to |requests|
        invariant Valid() && |results| == n && old(blocks) <= blocks
        invariant Session(states, requests, results) && states[0] == old(Snapshot()) && states[n] == Snapshot()
        invariant AllCovered(Snapshot(), requests, results)
      {
        var r := requests[n];
        var ptr := Target(r, results);
        ghost var before := Snapshot();
        if ptr.Some? {
          CoveredAsBlock(before, requests, results, r.of);
        }
        var p := Serve(r, ptr);
        ServedKeepsRun(before, Snapshot(), requests, results, ptr, p);
        SessionGoesOn(states, requests, results, Snapshot(), p);
        results, states := results + [p], states + [Snapshot()];
      }
      forall n, at | 0 <= n <= |requests| && 0 <= at < states[n].used && Unstored(requests, results, n, |requests|, at)
        ensures heap[at] == states[n].mem[at]
      {
        BytesPersist(states, requests, results, n, |requests|, at);
      }
      forall m, n | 0 <= m < n < |requests| && results[m].Some? && results[n].Some? && CallsForBlock(states, requests, results, n)
        ensures results[m].value + requests[m].Wanted() + HDR_SIZE <= results[n].value
      {
        NewBlocksAreApart(states, requests, results, m, n);
      }
    }
  }
}
