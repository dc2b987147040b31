/** `load_kernel_segments` of uefi-bootloader/src/main.rs: places every PT_LOAD segment
    of the kernel image at its physical address, page by page from the firmware. */
module KernelLoader {
  import opened Bits
  import opened LittleEndian
  import opened ElfLoader

  const PAGE: nat := 4096

  datatype LoadResult = Loaded(entry: nat) | ParseFailed(error: ElfError) | AllocationFailed

  /** What the loader relies on: pages to spare in 64 bits, file data within the file and
      within the segment, and page-aligned targets. */
  predicate Sane(elf: seq<Byte>, s: LoadSegment) {
    && 0 < s.memSize && s.memSize + 0xFFF < TWO64 && s.fileSize <= s.memSize
    && s.fileOffset + s.fileSize <= |elf| && s.paddr % PAGE == 0
  }

  ghost predicate AllSane(elf: seq<Byte>, segments: seq<LoadSegment>) {
    forall k | 0 <= k < |segments| :: Sane(elf, segments[k])
  }

  /** The pages a segment needs: those of 4096 bytes that its bytes in memory touch. */
  ghost predicate PageOf(s: LoadSegment, p: nat) {
    p * 4096 < s.paddr + s.memSize && s.paddr < (p + 1) * 4096
  }

  /** The rounded-up count, from the segment's first page, asks for exactly those. */
  lemma PagesCounted(s: LoadSegment, p: nat)
    requires 0 < s.memSize && s.paddr % PAGE == 0
    ensures PageOf(s, p) <==> s.paddr / PAGE <= p < s.paddr / PAGE + (s.memSize + 0xFFF) / 0x1000
  {
  }

  /** The byte a segment puts at address `a`: its file data, then zeros. */
  function ByteAt(elf: seq<Byte>, s: LoadSegment, a: nat): Byte
    requires Sane(elf, s) && s.paddr <= a < s.paddr + s.memSize
  {
    if a < s.paddr + s.fileSize then elf[s.fileOffset + (a - s.paddr)] else 0
  }

  ghost predicate InPlace(elf: seq<Byte>, s: LoadSegment, mem: seq<Byte>)
    requires Sane(elf, s)
  {
    s.paddr + s.memSize <= |mem| && forall a | s.paddr <= a < s.paddr + s.memSize :: mem[a] == ByteAt(elf, s, a)
  }

  /** No two segments were given a page in common. */
  ghost predicate Disjoint(segments: seq<LoadSegment>) {
    forall j, k, p | 0 <= j < k < |segments| && PageOf(segments[j], p) :: !PageOf(segments[k], p)
  }

  lemma PagesCover(s: LoadSegment, a: nat)
    ensures s.paddr <= a < s.paddr + s.memSize ==> PageOf(s, a / PAGE)
  {
  }

  function PageRange(first: nat, count: nat): (s: set<nat>)
    ensures forall p :: p in s <==> first <= p < first + count
  {
    if count == 0 then {} else PageRange(first, count - 1) + {first + count - 1}
  }

  /** What the load asks of the machine: every page exists, none was given out before,
      and none is asked for twice. */
  ghost predicate Available(segments: seq<LoadSegment>, words: nat, taken: set<nat>) {
    && (forall k | 0 <= k < |segments| :: Free(segments[k], words, taken))
    && Disjoint(segments)
  }

  ghost predicate Free(s: LoadSegment, size: nat, taken: set<nat>) {
    forall p: nat | PageOf(s, p) :: (p + 1) * PAGE <= size && p !in taken
  }

  /** The pages in use after the first segments were given theirs. */
  ghost predicate Given(before: set<nat>, segments: seq<LoadSegment>, after: set<nat>) {
    forall p :: p in after <==> p in before || exists k :: 0 <= k < |segments| && PageOf(segments[k], p)
  }

  /** Address `a` belongs to none of the segments. */
  ghost predicate Outside(segments: seq<LoadSegment>, a: nat) {
    forall k | 0 <= k < |segments| :: !(segments[k].paddr <= a < segments[k].paddr + segments[k].memSize)
  }

  /** One more segment was available. */
  lemma {:induction false} AvailableMore(segments: seq<LoadSegment>, i: nat, size: nat, before: set<nat>, taken: set<nat>)
    requires i < |segments| && Given(before, segments[..i], taken) && Available(segments[..i], size, before)
    ensures Available(segments[..i + 1], size, before) <==> Free(segments[i], size, taken)
  {
    var some, more := segments[..i], segments[..i + 1];
    assert forall k | 0 <= k < i :: some[k] == segments[k] && more[k] == segments[k];
    assert more[i] == segments[i];
    if Free(segments[i], size, taken) {
      forall k | 0 <= k < |more| ensures Free(more[k], size, before) {
        if k < i {
          assert Free(some[k], size, before);
        }
      }
      forall j, k, p | 0 <= j < k < |more| && PageOf(more[j], p) ensures !PageOf(more[k], p) {
        assert PageOf(some[j], p);
      }
    }
    if Available(more, size, before) {
      assert Free(more[i], size, before);
      forall p | PageOf(segments[i], p) ensures p !in taken {
        forall k | 0 <= k < |some| ensures !PageOf(some[k], p) {
          assert more[k] == some[k];
        }
      }
    }
  }

  lemma {:induction false} AvailableFewer(segments: seq<LoadSegment>, i: nat, size: nat, taken: set<nat>)
    requires i <= |segments| && Available(segments, size, taken)
    ensures Available(segments[..i], size, taken)
  {
    var some := segments[..i];
    assert forall k | 0 <= k < i :: some[k] == segments[k];
    forall k | 0 <= k < |some| ensures Free(some[k], size, taken) {
      assert Free(segments[k], size, taken);
    }
  }

  lemma {:induction false} GivenMore(before: set<nat>, segments: seq<LoadSegment>, i: nat, taken: set<nat>, s: LoadSegment)
    requires i < |segments| && s == segments[i] && Given(before, segments[..i], taken)
    requires 0 < s.memSize && s.paddr % PAGE == 0
    ensures Given(before, segments[..i + 1], taken + PageRange(s.paddr / PAGE, (s.memSize + 0xFFF) / 0x1000))
  {
    hide PageOf;
    var some, more, after := segments[..i], segments[..i + 1], taken + PageRange(s.paddr / PAGE, (s.memSize + 0xFFF) / 0x1000);
    forall p: nat ensures PageOf(s, p) <==> s.paddr / PAGE <= p < s.paddr / PAGE + (s.memSize + 0xFFF) / 0x1000 {
      PagesCounted(s, p);
    }
    assert forall k | 0 <= k < i :: some[k] == more[k];
    forall p ensures p in after <==> p in before || exists k :: 0 <= k < |more| && PageOf(more[k], p) {
      if p in taken && p !in before {
        var k :| 0 <= k < |some| && PageOf(some[k], p);
        assert PageOf(more[k], p);
      }
      if PageOf(s, p) {
        assert PageOf(more[i], p);
      }
      if k :| 0 <= k < |more| && PageOf(more[k], p) {
        if k < i {
          assert PageOf(some[k], p);
        }
      }
    }
  }

  /** Segments without a page in common have no address in common. */
  lemma {:induction false} Separate(segments: seq<LoadSegment>, i: nat, size: nat, taken: set<nat>, a: nat)
    requires i < |segments| && Available(segments[..i + 1], size, taken)
    requires segments[i].paddr <= a < segments[i].paddr + segments[i].memSize
    requires forall k | 0 <= k <= i :: segments[k].paddr % PAGE == 0
    ensures Outside(segments[..i], a) && a / PAGE !in taken
  {
    var more := segments[..i + 1];
    PagesCover(segments[i], a);
    assert more[i] == segments[i] && Free(more[i], size, taken);
    forall k | 0 <= k < i ensures !(segments[k].paddr <= a < segments[k].paddr + segments[k].memSize) {
      PagesCover(segments[k], a);
      assert more[k] == segments[k];
    }
  }

  /** What the load has done to memory after the first `i` segments. */
  ghost predicate Progress(elf: seq<Byte>, segments: seq<LoadSegment>, i: nat, before: set<nat>, m0: seq<Byte>, m: seq<Byte>)
    requires i <= |segments| && AllSane(elf, segments)
  {
    && |m| == |m0|
    && (forall k | 0 <= k < i :: InPlace(elf, segments[k], m))
    && (forall a | 0 <= a < |m| && (Outside(segments[..i], a) || a / PAGE in before) :: m[a] == m0[a])
  }

  lemma {:induction false} OneMorePlaced(elf: seq<Byte>, segments: seq<LoadSegment>, i: nat, before: set<nat>,
                                         m0: seq<Byte>, m: seq<Byte>, m': seq<Byte>)
    requires i < |segments| && AllSane(elf, segments) && Progress(elf, segments, i, before, m0, m)
    requires Available(segments[..i + 1], |m|, before)
    requires |m'| == |m| && InPlace(elf, segments[i], m')
    requires forall a | 0 <= a < |m| && !(segments[i].paddr <= a < segments[i].paddr + segments[i].memSize) :: m'[a] == m[a]
    ensures Progress(elf, segments, i + 1, before, m0, m')
  {
    hide Available, ByteAt;
    var s := segments[i];
    assert forall k | 0 <= k < |segments| :: Sane(elf, segments[k]);
    forall a | s.paddr <= a < s.paddr + s.memSize ensures Outside(segments[..i], a) && a / PAGE !in before {
      Separate(segments, i, |m|, before, a);
    }
    var some, more := segments[..i], segments[..i + 1];
    assert forall k | 0 <= k < i :: some[k] == segments[k] && more[k] == segments[k];
    assert more[i] == s;
    forall k | 0 <= k < i ensures InPlace(elf, segments[k], m') {
      assert InPlace(elf, segments[k], m);
      forall a | segments[k].paddr <= a < segments[k].paddr + segments[k].memSize ensures m'[a] == m[a] {
        assert !Outside(some, a) by {
          assert some[k] == segments[k];
        }
      }
    }
    forall a | 0 <= a < |m'| && (Outside(more, a) || a / PAGE in before) ensures m'[a] == m0[a] {
      assert Outside(more, a) ==> Outside(some, a);
      assert Outside(more, a) ==> !(more[i].paddr <= a < more[i].paddr + more[i].memSize);
    }
  }

  /** Physical memory and the pages the firmware has given out. */
  class Machine {
    const mem: array<Byte>
    var taken: set<nat>

    constructor (mem: array<Byte>)
      ensures this.mem == mem && taken == {}
    {
      this.mem, taken := mem, {};
    }

    /** AllocatePages at a fixed address: all pages exist and are free, or nothing happens. */
    method AllocatePages(addr: nat, count: nat) returns (ok: bool)
      requires addr % PAGE == 0
      modifies this`taken
      ensures ok <==> addr + count * PAGE <= mem.Length && forall p | addr / PAGE <= p < addr / PAGE + count :: p !in old(taken)
      ensures ok ==> taken == old(taken) + PageRange(addr / PAGE, count)
      ensures !ok ==> taken == old(taken)
    {
      if addr + count * PAGE > mem.Length {
        return false;
      }
      var first := addr / PAGE;
      for k := 0 to count
        invariant forall p | first <= p < first + k :: p !in taken
      {
        if first + k in taken {
          return false;
        }
      }
      taken := taken + PageRange(first, count);
      ok := true;
    }

    /** Copies the file data of a segment and zero-fills the rest. */
    method CopySegment(elf: seq<Byte>, s: LoadSegment)
      requires Sane(elf, s) && s.paddr + s.memSize <= mem.Length
      modifies mem
      ensures InPlace(elf, s, mem[..])
      ensures forall a | 0 <= a < mem.Length && !(s.paddr <= a < s.paddr + s.memSize) :: mem[a] == old(mem[a])
    {
      for k := 0 to s.fileSize
        invariant forall a | s.paddr <= a < s.paddr + k :: mem[a] == elf[s.fileOffset + (a - s.paddr)]
        invariant forall a | 0 <= a < mem.Length && !(s.paddr <= a < s.paddr + k) :: mem[a] == old(mem[a])
      {
        mem[s.paddr + k] := elf[s.fileOffset + k];
      }
      for k := s.fileSize to s.memSize
        invariant forall a | s.paddr <= a < s.paddr + k :: mem[a] == ByteAt(elf, s, a)
        invariant forall a | 0 <= a < mem.Length && !(s.paddr <= a < s.paddr + k) :: mem[a] == old(mem[a])
      {
        mem[s.paddr + k] := 0;
      }
    }

    /** `load_kernel_segments`: succeeds exactly when the image parses and the firmware
        can give every segment its own fresh pages; then every segment, not only the
        last one written, is in place. Whatever the outcome, bytes of pages given out
        before and bytes outside the segments are untouched. */
    method LoadKernelSegments(elf: seq<Byte>, machine: nat) returns (r: LoadResult)
      requires !Parse(elf, machine).Panics?
      requires Parse(elf, machine).Ok? ==> AllSane(elf, Parse(elf, machine).value.segments)
      modifies this`taken, mem
      ensures Parse(elf, machine).Err? ==> r == ParseFailed(Parse(elf, machine).error) && mem[..] == old(mem[..]) && taken == old(taken)
      ensures Parse(elf, machine).Ok? ==>
        var image := Parse(elf, machine).value;
        && r == (if Available(image.segments, mem.Length, old(taken)) then Loaded(image.entry) else AllocationFailed)
        && (r.Loaded? ==> forall k | 0 <= k < |image.segments| :: InPlace(elf, image.segments[k], mem[..]))
        && (r.Loaded? ==> Given(old(taken), image.segments, taken))
        && (forall a | 0 <= a < mem.Length && (Outside(image.segments, a) || a / PAGE in old(taken)) :: mem[a] == old(mem[a]))
    {
      var parsed := Parse(elf, machine);
      if parsed.Err? {
        return ParseFailed(parsed.error);
      }
      var segments := parsed.value.segments;
      ghost var before, m0 := taken, mem[..];
      hide Given, Available, Progress, InPlace, Outside, Sane, Parse, Free;
      NothingYet(elf, segments, before, mem.Length, m0);
      for i := 0 to |segments|
        invariant Given(before, segments[..i], taken) && Available(segments[..i], mem.Length, before)
        invariant Progress(elf, segments, i, before, m0, mem[..])
      {
        var s := segments[i];
        ghost var t0, m := taken, mem[..];
        SaneSegment(elf, segments, i);
        var pageCount := (s.memSize + 0xFFF) / 0x1000;
        var ok := AllocatePages(s.paddr, pageCount);
        AvailableMore(segments, i, mem.Length, before, t0);
        FreeMeans(s, mem.Length, t0);
        if !ok {
          StillUnavailable(segments, i, mem.Length, before);
          ProgressEnds(elf, segments, i, before, m0, mem[..]);
          return AllocationFailed;
        }
        GivenMore(before, segments, i, t0, s);
        CopySegment(elf, s);
        OneMorePlaced(elf, segments, i, before, m0, m, mem[..]);
      }
      assert segments[..|segments|] == segments;
      ProgressEnds(elf, segments, |segments|, before, m0, mem[..]);
      r := Loaded(parsed.value.entry);
    }
  }

  lemma {:induction false} NothingYet(elf: seq<Byte>, segments: seq<LoadSegment>, before: set<nat>, size: nat, m: seq<Byte>)
    requires AllSane(elf, segments)
    ensures Given(before, segments[..0], before) && Available(segments[..0], size, before)
    ensures Progress(elf, segments, 0, before, m, m)
  {
  }

  lemma {:induction false} SaneSegment(elf: seq<Byte>, segments: seq<LoadSegment>, i: nat)
    requires i < |segments| && AllSane(elf, segments)
    ensures var s := segments[i];
      && Sane(elf, s) && s.paddr % PAGE == 0 && 0 < s.memSize <= (s.memSize + 0xFFF) / 0x1000 * PAGE
  {
  }

  /** The request the loader makes is granted exactly when the pages are free. */
  lemma FreeMeans(s: LoadSegment, size: nat, taken: set<nat>)
    requires 0 < s.memSize && s.paddr % PAGE == 0
    ensures var first, count := s.paddr / PAGE, (s.memSize + 0xFFF) / 0x1000;
      Free(s, size, taken) <==> s.paddr + count * PAGE <= size && forall p | first <= p < first + count :: p !in taken
  {
    hide PageOf;
    var first, count := s.paddr / PAGE, (s.memSize + 0xFFF) / 0x1000;
    forall p: nat ensures PageOf(s, p) <==> first <= p < first + count {
      PagesCounted(s, p);
    }
    assert PageOf(s, first + count - 1);
    assert (first + count) * PAGE == s.paddr + count * PAGE;
  }

  lemma {:induction false} StillUnavailable(segments: seq<LoadSegment>, i: nat, size: nat, taken: set<nat>)
    requires i < |segments| && !Available(segments[..i + 1], size, taken)
    ensures !Available(segments, size, taken)
  {
    if Available(segments, size, taken) {
      AvailableFewer(segments, i + 1, size, taken);
    }
  }

  /** What does not belong to any segment, or was in use, is as it was. */
  lemma {:induction false} ProgressEnds(elf: seq<Byte>, segments: seq<LoadSegment>, i: nat, before: set<nat>, m0: seq<Byte>, m: seq<Byte>)
    requires i <= |segments| && AllSane(elf, segments) && Progress(elf, segments, i, before, m0, m)
    ensures |m| == |m0| && forall k | 0 <= k < i :: InPlace(elf, segments[k], m)
    ensures forall a | 0 <= a < |m| && (Outside(segments, a) || a / PAGE in before) :: m[a] == m0[a]
  {
    hide InPlace;
    var some := segments[..i];
    assert forall k | 0 <= k < i :: some[k] == segments[k];
  }
}
