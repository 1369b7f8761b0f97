/**
  The mmap arena: a bump allocator of pages over identity-mapped RAM, with two independent
  implementations of mremap, one behind the system call and one replacing the C library's.
 */
module Arena {

  import opened Wrappers
  import opened Words

  const RAM_SIZE: nat := 0x2000_0000
  const MMAP_BASE: size_t := 0x1000_0000
  const MMAP_LIMIT: size_t := 0x1F00_0000
  const PAGE: size_t := 4096
  const ENOMEM := 12
  const MAP_FAILED: size_t := TWO64 - 1
  const LAST_ADDRESS: size_t := 0xFFFF_FFFF_FFFF_F000
  const PROT_READ_WRITE := 3

  // ---- Page arithmetic ----------------------------------------------------------------

  function PageUp(x: nat): nat { RoundUp(x, PAGE) }

  /** The address sys_mmap would hand out, in wrapping arithmetic. */
  function Place(next: size_t, length: size_t): Option<size_t> {
    var aligned := And(Add(next, 4095), Not(4095));
    AndBounded(Add(next, 4095), Not(4095));
    if Add(aligned, length) > MMAP_LIMIT then None else Some(aligned)
  }

  /** The next page boundary, if everything from there fits below the limit. */
  function IntendedPlace(next: size_t, length: size_t): Option<nat> {
    if PageUp(next) + length > MMAP_LIMIT then None else Some(PageUp(next))
  }

  predicate NoWrap(next: size_t, length: size_t) { PageUp(next) + length < TWO64 }

  lemma PageMask(next: size_t)
    requires next <= MMAP_LIMIT
    ensures And(Add(next, 4095), Not(4095)) == PageUp(next)
    ensures next <= PageUp(next) <= MMAP_LIMIT && PageUp(next) % 4096 == 0
  {
    assert Pow2(6) == 64;
    Pow2Add(6, 6);
    AlignRoundsUp(next, PAGE);
    assert MMAP_LIMIT % 4096 == 0;
  }

  /** The placement is the intended one exactly when the end of the request does not wrap. */
  lemma IntendedExactlyWithoutWrap(next: size_t, length: size_t)
    requires next <= MMAP_LIMIT
    ensures Place(next, length) == IntendedPlace(next, length) <==> NoWrap(next, length)
  {
    PageMask(next);
    hide And, RoundUp;
  }

  /** A length of all ones wraps to just below the arena's next page and is granted. */
  lemma WrappedLengthIsGranted()
    ensures Place(MMAP_BASE, TWO64 - 1) == Some(MMAP_BASE)
    ensures IntendedPlace(MMAP_BASE, TWO64 - 1) == None
  {
    PageMask(MMAP_BASE);
    RoundUpIsLeast(MMAP_BASE, PAGE);
    assert MMAP_BASE % 4096 == 0;
  }

  // ---- Memory and the calls as functions of it --------------------------------------------

  datatype Space = Space(ram: seq<byte>, next: nat) {
    ghost predicate Valid() {
      |ram| == RAM_SIZE && MMAP_BASE <= next <= MMAP_LIMIT
    }
  }

  ghost function Zeroed(ram: seq<byte>, at: nat, len: nat): seq<byte>
    requires at + len <= |ram|
  {
    ram[..at] + Zeros(len) + ram[at + len..]
  }

  ghost function Copied(ram: seq<byte>, dst: nat, src: nat, len: nat): seq<byte>
    requires dst + len <= |ram| && src + len <= |ram|
  {
    ram[..dst] + ram[src..src + len] + ram[dst + len..]
  }

  /** The mmap system call: the address, or a negated error number. */
  ghost function Mmap(s: Space, length: size_t, prot: nat): (Space, int)
    requires s.Valid() && NoWrap(s.next, length)
  {
    PageMask(s.next);
    match IntendedPlace(s.next, length)
    case None => (s, -ENOMEM)
    case Some(addr) =>
      (Space(if prot % 4 != 0 then Zeroed(s.ram, addr, length) else s.ram, addr + length), addr)
  }

  /** What the call computes in wrapping arithmetic is the place and the end that the specification means. */
  lemma PlaceComputes(next: size_t, length: size_t)
    requires next <= MMAP_LIMIT && NoWrap(next, length)
    ensures var aligned := And(Add(next, 4095), Not(4095));
            aligned == PageUp(next) <= MMAP_LIMIT && Add(aligned, length) == aligned + length
  {
    PageMask(next);
    hide And, RoundUp, Not;
  }

  /** The bytes that a growing mremap copies lie in memory handed out before. */
  ghost predicate OldRange(s: Space, oldAddr: size_t, oldSize: size_t) {
    oldAddr + oldSize <= s.next
  }

  ghost predicate RemapDefined(s: Space, oldAddr: size_t, oldSize: size_t, newSize: size_t) {
    && s.Valid()
    && NoWrap(s.next, newSize)
    && (oldAddr <= LAST_ADDRESS && newSize > oldSize ==> OldRange(s, oldAddr, oldSize))
  }

  /** The mremap system call. */
  ghost function SysMremap(s: Space, oldAddr: size_t, oldSize: size_t, newSize: size_t): (Space, int)
    requires RemapDefined(s, oldAddr, oldSize, newSize)
  {
    if oldAddr > LAST_ADDRESS then Mmap(s, newSize, PROT_READ_WRITE)
    else if newSize <= oldSize then (s, oldAddr)
    else
      PageMask(s.next);
      var (t, addr) := Mmap(s, newSize, PROT_READ_WRITE);
      if addr < 0 then (t, addr) else (t.(ram := Copied(t.ram, addr, oldAddr, oldSize)), addr)
  }

  /** How the C library's wrapper reads the result of a system call. */
  function Pointer(ret: int): int {
    if -4096 < ret < 0 then MAP_FAILED else ret
  }

  /** The C library's mmap. */
  ghost function LibMmap(s: Space, length: size_t, prot: nat): (Space, int)
    requires s.Valid() && NoWrap(s.next, length)
  {
    var (t, ret) := Mmap(s, length, prot);
    (t, Pointer(ret))
  }

  /** The C library's mremap, written on top of its own mmap. */
  ghost function LibMremap(s: Space, oldAddr: size_t, oldSize: size_t, newSize: size_t): (Space, int)
    requires RemapDefined(s, oldAddr, oldSize, newSize)
  {
    if oldAddr > LAST_ADDRESS then LibMmap(s, newSize, PROT_READ_WRITE)
    else if newSize <= oldSize then (s, oldAddr)
    else
      PageMask(s.next);
      var (t, addr) := LibMmap(s, newSize, PROT_READ_WRITE);
      if addr == MAP_FAILED then (t, MAP_FAILED) else (t.(ram := Copied(t.ram, addr, oldAddr, oldSize)), addr)
  }

  /** What a granted mapping is, and that no address is mistaken for an error. */
  lemma MmapGrants(s: Space, length: size_t, prot: nat)
    requires s.Valid() && NoWrap(s.next, length)
    ensures var (t, addr) := Mmap(s, length, prot);
            && t.Valid() && s.next <= t.next
            && t.ram[..s.next] == s.ram[..s.next]
            && LibMmap(s, length, prot) == (t, if addr < 0 then MAP_FAILED else addr)
            && (addr < 0 <==> PageUp(s.next) + length > MMAP_LIMIT)
            && (addr < 0 ==> t == s && addr == -ENOMEM)
            && (addr >= 0 ==>
                  && MMAP_BASE <= addr && addr % 4096 == 0 && s.next <= addr < s.next + 4096
                  && t.next == addr + length <= MMAP_LIMIT
                  && (prot % 4 != 0 ==> t.ram[addr..addr + length] == Zeros(length)))
  {
    PageMask(s.next);
    RoundUpIsLeast(s.next, PAGE);
  }

  /** The two implementations of mremap agree on memory and arena, and on the result up to its error encoding. */
  lemma RemapsAgree(s: Space, oldAddr: size_t, oldSize: size_t, newSize: size_t)
    requires RemapDefined(s, oldAddr, oldSize, newSize)
    ensures var (t, ret) := SysMremap(s, oldAddr, oldSize, newSize);
            LibMremap(s, oldAddr, oldSize, newSize) == (t, Pointer(ret))
            && (ret >= 0 ==> Pointer(ret) == ret)
  {
    MmapGrants(s, newSize, PROT_READ_WRITE);
  }

  /** Memory mapped without access is left as it is; with access it reads as zero. */
  lemma MmapClears(s: Space, length: size_t, prot: nat)
    requires s.Valid() && NoWrap(s.next, length)
    ensures var (t, addr) := Mmap(s, length, prot);
            addr >= 0 ==>
              && addr + length <= |t.ram| == |s.ram|
              && t.ram[..addr] == s.ram[..addr] && t.ram[addr + length..] == s.ram[addr + length..]
              && t.ram[addr..addr + length] == if prot % 4 == 0 then s.ram[addr..addr + length] else Zeros(length)
  {
    PageMask(s.next);
    hide RoundUp;
  }

  /** Shrinking gives the same address back and changes nothing, in both implementations. */
  lemma RemapShrinks(s: Space, oldAddr: size_t, oldSize: size_t, newSize: size_t)
    requires RemapDefined(s, oldAddr, oldSize, newSize) && oldAddr <= LAST_ADDRESS && newSize <= oldSize
    ensures SysMremap(s, oldAddr, oldSize, newSize) == (s, oldAddr) == LibMremap(s, oldAddr, oldSize, newSize)
  {
  }

  /** Growing beyond the arena is refused without a trace: by an error number, and by MAP_FAILED in the library. */
  lemma RemapRefused(s: Space, oldAddr: size_t, oldSize: size_t, newSize: size_t)
    requires RemapDefined(s, oldAddr, oldSize, newSize) && oldAddr <= LAST_ADDRESS && newSize > oldSize
    requires PageUp(s.next) + newSize > 0x1F00_0000
    ensures SysMremap(s, oldAddr, oldSize, newSize) == (s, -12)
    ensures LibMremap(s, oldAddr, oldSize, newSize) == (s, 0xFFFF_FFFF_FFFF_FFFF)
  {
    MmapGrants(s, newSize, PROT_READ_WRITE);
    hide RoundUp;
  }

  /** The address that stands for a failed mapping is remapped like a new one. */
  lemma RemapOfNothing(s: Space, oldSize: size_t, newSize: size_t)
    requires RemapDefined(s, MAP_FAILED, oldSize, newSize)
    ensures SysMremap(s, MAP_FAILED, oldSize, newSize) == Mmap(s, newSize, 3)
    ensures LibMremap(s, MAP_FAILED, oldSize, newSize) == LibMmap(s, newSize, 3)
  {
  }

  /** A growing mremap keeps the old bytes, clears the rest of the new region, and changes nothing below it. */
  lemma RemapGrows(s: Space, oldAddr: size_t, oldSize: size_t, newSize: size_t)
    requires RemapDefined(s, oldAddr, oldSize, newSize)
    requires oldAddr <= LAST_ADDRESS && newSize > oldSize && PageUp(s.next) + newSize <= MMAP_LIMIT
    ensures var (t, addr) := SysMremap(s, oldAddr, oldSize, newSize);
            && t.Valid() && addr == PageUp(s.next) && t.next == addr + newSize
            && t.ram[addr..addr + oldSize] == s.ram[oldAddr..oldAddr + oldSize]
            && t.ram[addr + oldSize..addr + newSize] == Zeros(newSize - oldSize)
            && t.ram[..s.next] == s.ram[..s.next]
  {
    MmapGrants(s, newSize, PROT_READ_WRITE);
    var (m, addr) := Mmap(s, newSize, PROT_READ_WRITE);
    hide RoundUp, Mmap, Zeros;
    CopyIntoZeros(s.ram, m.ram, s.next, addr, oldAddr, oldSize, newSize);
    hide Copied;
  }

  lemma CopyIntoZeros(ram: seq<byte>, cleared: seq<byte>, next: nat, addr: nat, src: nat, len: nat, size: nat)
    requires |cleared| == |ram| && next <= addr && addr + size <= |ram| && len <= size && src + len <= next
    requires cleared[..next] == ram[..next] && cleared[addr..addr + size] == Zeros(size)
    ensures var t := Copied(cleared, addr, src, len);
            && |t| == |ram|
            && t[addr..addr + len] == ram[src..src + len]
            && t[addr + len..addr + size] == Zeros(size - len)
            && t[..next] == ram[..next]
  {
    var t := Copied(cleared, addr, src, len);
    assert t[addr..addr + len] == cleared[src..src + len];
    SamePrefix(cleared, ram, next, src, src + len);
    assert t[..next] == cleared[..next];
    var tail := t[addr + len..addr + size];
    forall i | 0 <= i < |tail|
      ensures tail[i] == 0
    {
      assert cleared[addr..addr + size][len + i] == Zeros(size)[len + i];
      assert tail[i] == t[addr + len + i] == cleared[addr + len + i];
    }
    hide Copied;
  }

  // ---- Whole sessions -----------------------------------------------------------------

  datatype Region = Region(addr: nat, len: nat) {
    function End(): nat { addr + len }

    ghost predicate Contains(x: int) { addr <= x < End() }
  }

  /** The calls of a client, naming regions by the order in which it got them. */
  datatype Call =
    | Map(length: size_t, prot: nat)
    | Unmap(k: nat)
    | Remap(k: nat, newSize: size_t)
  {
    /** Small enough that no sum with an arena address wraps. */
    ghost predicate Supported() {
      match this
      case Map(length, _) => length < TWO64 - MMAP_LIMIT
      case Unmap(_) => true
      case Remap(_, newSize) => newSize < TWO64 - MMAP_LIMIT
    }
  }

  datatype Session = Session(space: Space, regions: seq<Region>) {
    ghost predicate Valid() {
      && space.Valid()
      && (forall i | 0 <= i < |regions| ::
            MMAP_BASE <= regions[i].addr && regions[i].addr % 4096 == 0 && regions[i].End() <= space.next)
      && (forall i, j | 0 <= i < j < |regions| :: PageUp(regions[i].End()) <= regions[j].addr)
    }

    /** The session after a call that may have returned a new region. */
    ghost function Grant(t: Space, ret: int, len: nat): Session {
      Session(t, if ret < 0 then regions else regions + [Region(ret, len)])
    }

    ghost function Step(c: Call): Session
      requires Valid() && c.Supported()
    {
      PageMask(space.next);
      match c
      case Map(length, prot) =>
        var (t, ret) := Mmap(space, length, prot);
        Grant(t, ret, length)
      case Unmap(_) => this
      case Remap(k, newSize) =>
        var region := if k < |regions| then regions[k] else Region(MAP_FAILED, 0);
        var (t, ret) := SysMremap(space, region.addr, region.len, newSize);
        if k < |regions| && newSize <= region.len then Session(t, regions[k := Region(if ret < 0 then 0 else ret, newSize)])
        else Grant(t, ret, newSize)
    }
  }

  lemma GrantKeepsValid(s: Session, t: Space, addr: nat, len: nat)
    requires s.Valid() && t.Valid()
    requires s.space.next <= addr && addr % 4096 == 0 && MMAP_BASE <= addr && addr + len <= t.next
    ensures s.Grant(t, addr, len).Valid()
  {
    forall i | 0 <= i < |s.regions|
      ensures PageUp(s.regions[i].End()) <= addr
    {
      RoundUpIsLeast(s.regions[i].End(), PAGE);
    }
  }

  lemma ShrinkKeepsValid(s: Session, k: nat, len: nat)
    requires s.Valid() && k < |s.regions| && len <= s.regions[k].len
    ensures s.(regions := s.regions[k := Region(s.regions[k].addr, len)]).Valid()
  {
    PageUpMonotone(s.regions[k].addr + len, s.regions[k].End());
  }

  lemma PageUpMonotone(x: nat, y: nat)
    requires x <= y
    ensures PageUp(x) <= PageUp(y)
  {
    RoundUpIsLeast(x, PAGE);
    RoundUpIsLeast(y, PAGE);
  }

  lemma StepKeepsValid(s: Session, c: Call)
    requires s.Valid() && c.Supported()
    ensures s.Step(c).Valid()
    ensures s.space.next <= s.Step(c).space.next
    ensures s.Step(c).space.ram[..s.space.next] == s.space.ram[..s.space.next]
  {
    PageMask(s.space.next);
    hide RoundUp;
    match c
    case Map(length, prot) =>
      MmapGrants(s.space, length, prot);
      var (t, ret) := Mmap(s.space, length, prot);
      if ret >= 0 {
        GrantKeepsValid(s, t, ret, length);
      }
    case Unmap(_) =>
    case Remap(k, newSize) =>
      MmapGrants(s.space, newSize, PROT_READ_WRITE);
      if k < |s.regions| && newSize <= s.regions[k].len {
        ShrinkKeepsValid(s, k, newSize);
      } else {
        var region := if k < |s.regions| then s.regions[k] else Region(MAP_FAILED, 0);
        var (t, ret) := SysMremap(s.space, region.addr, region.len, newSize);
        if ret >= 0 {
          if k < |s.regions| {
            RemapGrows(s.space, region.addr, region.len, newSize);
          }
          GrantKeepsValid(s, t, ret, newSize);
        }
      }
  }

  ghost function RunCalls(s: Session, calls: seq<Call>): Session
    requires s.Valid() && forall c | c in calls :: c.Supported()
    decreases |calls|
  {
    if calls == [] then s
    else
      StepKeepsValid(s, calls[0]);
      RunCalls(s.Step(calls[0]), calls[1..])
  }

  /** After any run every region is page aligned inside the arena, and what lay below the arena's mark is untouched. */
  lemma {:induction false} RunKeepsValid(s: Session, calls: seq<Call>)
    requires s.Valid() && forall c | c in calls :: c.Supported()
    ensures RunCalls(s, calls).Valid()
    ensures s.space.next <= RunCalls(s, calls).space.next
    ensures RunCalls(s, calls).space.ram[..s.space.next] == s.space.ram[..s.space.next]
    decreases |calls|
  {
    if calls != [] {
      var mid := s.Step(calls[0]);
      StepKeepsValid(s, calls[0]);
      RunKeepsValid(mid, calls[1..]);
      var end := RunCalls(mid, calls[1..]);
      assert end.space.ram[..s.space.next] == end.space.ram[..mid.space.next][..s.space.next];
      assert mid.space.ram[..s.space.next] == mid.space.ram[..mid.space.next][..s.space.next];
    }
  }

  /** No two regions of a run ever share a page. */
  lemma PagesAreNeverShared(s: Session, calls: seq<Call>, i: nat, j: nat, x: int, y: int)
    requires s.Valid() && forall c | c in calls :: c.Supported()
    requires var regions := RunCalls(s, calls).regions;
             i < |regions| && j < |regions| && i != j && regions[i].Contains(x) && regions[j].Contains(y)
    ensures x / 4096 != y / 4096
  {
    RunKeepsValid(s, calls);
    var regions := RunCalls(s, calls).regions;
    hide RunCalls, RoundUp;
    if i < j {
      assert PageUp(regions[i].End()) <= regions[j].addr;
      LaterPage(regions[i].End(), x, y);
    } else {
      assert PageUp(regions[j].End()) <= regions[i].addr;
      LaterPage(regions[j].End(), y, x);
    }
  }

  lemma LaterPage(end: nat, x: nat, y: nat)
    requires x < end && PageUp(end) <= y
    ensures x / 4096 < y / 4096
  {
    RoundUpIsLeast(end, PAGE);
    hide RoundUp;
  }

  // ---- The calls themselves --------------------------------------------------------------

  class AddressSpace {
    const ram: array<byte>
    var next: size_t

    ghost function Contents(): Space
      reads this, ram
    {
      Space(ram[..], next)
    }

    ghost predicate Valid()
      reads this, ram
    {
      Contents().Valid()
    }

    constructor (ram: array<byte>)
      requires ram.Length == RAM_SIZE
      ensures Valid() && this.ram == ram && next == MMAP_BASE
      ensures Session(Contents(), []).Valid()
    {
      this.ram := ram;
      next := MMAP_BASE;
    }

    /** memset(at, 0, len) */
    method Clear(at: nat, len: nat)
      requires at + len <= ram.Length
      modifies ram
      ensures ram[..] == Zeroed(old(ram[..]), at, len)
    {
      forall i | at <= i < at + len {
        ram[i] := 0;
      }
    }

    /** memcpy(dst, src, len), the two ranges apart */
    method Copy(dst: nat, src: nat, len: nat)
      requires src + len <= dst && dst + len <= ram.Length
      modifies ram
      ensures ram[..] == Copied(old(ram[..]), dst, src, len)
    {
      forall i | dst <= i < dst + len {
        ram[i] := ram[i - dst + src];
      }
    }

    method MmapCall(length: size_t, prot: nat) returns (ret: int)
      requires Valid() && NoWrap(next, length)
      modifies this, ram
      ensures (Contents(), ret) == Mmap(old(Contents()), length, prot)
    {
      PlaceComputes(next, length);
      hide And, Add, PageUp, Zeroed, Not;
      var aligned := And(Add(next, 4095), Not(4095));
      if Add(aligned, length) > MMAP_LIMIT {
        return -ENOMEM;
      }
      if prot % 4 != 0 {
        Clear(aligned, length);
      }
      next := Add(aligned, length);
      ret := aligned;
    }

    method MremapCall(oldAddr: size_t, oldSize: size_t, newSize: size_t) returns (ret: int)
      requires RemapDefined(Contents(), oldAddr, oldSize, newSize)
      modifies this, ram
      ensures (Contents(), ret) == SysMremap(old(Contents()), oldAddr, oldSize, newSize)
    {
      MmapGrants(Contents(), newSize, PROT_READ_WRITE);
      if oldAddr > LAST_ADDRESS {
        ret := MmapCall(newSize, PROT_READ_WRITE);
        return;
      }
      if newSize <= oldSize {
        return oldAddr;
      }
      ret := MmapCall(newSize, PROT_READ_WRITE);
      if ret < 0 {
        return;
      }
      Copy(ret, oldAddr, oldSize);
    }

    method LibraryMmap(length: size_t, prot: nat) returns (addr: int)
      requires Valid() && NoWrap(next, length)
      modifies this, ram
      ensures (Contents(), addr) == LibMmap(old(Contents()), length, prot)
    {
      var ret := MmapCall(length, prot);
      if ret < 0 && ret > -4096 {
        return MAP_FAILED;
      }
      return ret;
    }

    method LibraryMremap(oldAddr: size_t, oldSize: size_t, newSize: size_t) returns (addr: int)
      requires RemapDefined(Contents(), oldAddr, oldSize, newSize)
      modifies this, ram
      ensures (Contents(), addr) == LibMremap(old(Contents()), oldAddr, oldSize, newSize)
    {
      MmapGrants(Contents(), newSize, PROT_READ_WRITE);
      if oldAddr > LAST_ADDRESS {
        addr := LibraryMmap(newSize, PROT_READ_WRITE);
        return;
      }
      if newSize <= oldSize {
        return oldAddr;
      }
      addr := LibraryMmap(newSize, PROT_READ_WRITE);
      if addr == MAP_FAILED {
        return;
      }
      Copy(addr, oldAddr, oldSize);
    }
  }
}
