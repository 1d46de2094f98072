/**
 * The boot-time walk over the firmware memory map that initialises the
 * bitmap frame allocator (KernelMainNewStack, kernel/main.cpp).
 *
 * Every descriptor is visited in order. A hole between the end of the last
 * available region and the start of the descriptor is marked allocated, a
 * descriptor the firmware does not report as available is marked allocated
 * in full, and only available descriptors move `available_end`. At the end
 * the allocator is bounded to the frames [1, available_end / frame size).
 */
module MemoryMapWalk {

  import opened KernelTypes

  /** Unsigned 64-bit wrap-around of a non-negative intermediate result. */
  function Wrap(x: nat): (r: U64)
    ensures x < TWO_TO_64 ==> r == x
  {
    x % TWO_TO_64
  }

  /**
   * The two sizes the walk divides and multiplies by: the allocator's
   * frame size (kBytesPerFrame) and the firmware's page size (kUEFIPageSize).
   * Both are positive constants of the kernel.
   */
  datatype FrameGeometry = FrameGeometry(bytesPerFrame: nat, uefiPageSize: nat)
  type Geometry = g: FrameGeometry | g.bytesPerFrame > 0 && g.uefiPageSize > 0
    witness FrameGeometry(1, 1)

  /**
   * One firmware memory descriptor, as far as the walk reads it. `available`
   * is the verdict of IsAvailable on the descriptor's memory type.
   */
  datatype MemoryDescriptor = MemoryDescriptor(physicalStart: U64, numberOfPages: U64, available: bool)

  /** `number_of_pages * kUEFIPageSize`, in 64-bit arithmetic. */
  function SpanBytes(g: Geometry, d: MemoryDescriptor): U64 {
    Wrap(d.numberOfPages * g.uefiPageSize)
  }

  /** `physical_start + number_of_pages * kUEFIPageSize`, in 64-bit arithmetic. */
  function PhysicalEnd(g: Geometry, d: MemoryDescriptor): U64 {
    Wrap(d.physicalStart + SpanBytes(g, d))
  }

  /** The frame holding byte address `addr`, or the number of whole frames in `addr` bytes. */
  function FrameOf(g: Geometry, addr: nat): nat {
    addr / g.bytesPerFrame
  }

  /** The arguments of one call `MarkAllocated(FrameID{start}, count)`. */
  datatype MarkCall = MarkCall(start: nat, count: nat)

  /** The call that marks the hole between `availableEnd` and the descriptor. */
  function GapCall(g: Geometry, availableEnd: U64, d: MemoryDescriptor): MarkCall
    requires availableEnd < d.physicalStart
  {
    MarkCall(FrameOf(g, availableEnd), FrameOf(g, d.physicalStart - availableEnd))
  }

  /** The call that marks a whole descriptor. */
  function SpanCall(g: Geometry, d: MemoryDescriptor): MarkCall {
    MarkCall(FrameOf(g, d.physicalStart), FrameOf(g, SpanBytes(g, d)))
  }

  /** The MarkAllocated calls one descriptor causes, given `available_end` before it. */
  function StepCalls(g: Geometry, availableEnd: U64, d: MemoryDescriptor): (calls: seq<MarkCall>)
    ensures |calls| == (if availableEnd < d.physicalStart then 1 else 0) + (if d.available then 0 else 1)
    ensures availableEnd < d.physicalStart ==> calls[0] == GapCall(g, availableEnd, d)
    ensures !d.available ==> calls[|calls| - 1] == SpanCall(g, d)
  {
    (if availableEnd < d.physicalStart then [GapCall(g, availableEnd, d)] else [])
    + (if d.available then [] else [SpanCall(g, d)])
  }

  /** `available_end` after one descriptor. */
  function StepEnd(g: Geometry, availableEnd: U64, d: MemoryDescriptor): U64 {
    if d.available then PhysicalEnd(g, d) else availableEnd
  }

  /** `available_end` after walking `descs`, starting from 0. */
  function EndAfter(g: Geometry, descs: seq<MemoryDescriptor>): U64
    decreases |descs|
  {
    if descs == [] then 0
    else StepEnd(g, EndAfter(g, descs[..|descs| - 1]), descs[|descs| - 1])
  }

  /** The MarkAllocated calls made while walking `descs`, in order. */
  function CallsAfter(g: Geometry, descs: seq<MemoryDescriptor>): seq<MarkCall>
    decreases |descs|
  {
    if descs == [] then []
    else
      var prefix := descs[..|descs| - 1];
      CallsAfter(g, prefix) + StepCalls(g, EndAfter(g, prefix), descs[|descs| - 1])
  }

  /** Frame `f` lies in the run of some recorded MarkAllocated call. */
  ghost predicate Marked(calls: seq<MarkCall>, f: nat) {
    exists c :: c in calls && c.start <= f < c.start + c.count
  }

  /**
   * Stand-in for the BitmapMemoryManager, whose source is not part of this
   * model: it records every MarkAllocated call and the range last set.
   */
  class BitmapMemoryManager {
    var marks: seq<MarkCall>
    var rangeBegin: nat
    var rangeEnd: nat

    constructor ()
      ensures marks == []
    {
      marks := [];
    }

    method MarkAllocated(startFrame: nat, numFrames: nat)
      modifies this
      ensures marks == old(marks) + [MarkCall(startFrame, numFrames)]
      ensures rangeBegin == old(rangeBegin) && rangeEnd == old(rangeEnd)
    {
      marks := marks + [MarkCall(startFrame, numFrames)];
    }

    method SetMemoryRange(rangeBeginFrame: nat, rangeEndFrame: nat)
      modifies this
      ensures marks == old(marks)
      ensures rangeBegin == rangeBeginFrame && rangeEnd == rangeEndFrame
    {
      rangeBegin, rangeEnd := rangeBeginFrame, rangeEndFrame;
    }
  }

  /**
   * Constructs the frame allocator and walks the memory map into it
   * (kernel/main.cpp:172-201).
   */
  method InitMemoryManager(g: Geometry, memoryMap: seq<MemoryDescriptor>)
    returns (memoryManager: BitmapMemoryManager, availableEnd: U64)
    ensures fresh(memoryManager)
    ensures availableEnd == EndAfter(g, memoryMap)
    ensures memoryManager.marks == CallsAfter(g, memoryMap)
    ensures memoryManager.rangeBegin == 1
    ensures memoryManager.rangeEnd == FrameOf(g, availableEnd)
  {
    memoryManager := new BitmapMemoryManager();
    availableEnd := 0;
    var i := 0;
    while i < |memoryMap|
      invariant 0 <= i <= |memoryMap|
      invariant availableEnd == EndAfter(g, memoryMap[..i])
      invariant memoryManager.marks == CallsAfter(g, memoryMap[..i])
    {
      var desc := memoryMap[i];
      ghost var marksBefore, endBefore := memoryManager.marks, availableEnd;
      if availableEnd < desc.physicalStart {
        var gap := GapCall(g, availableEnd, desc);
        memoryManager.MarkAllocated(gap.start, gap.count);
      }
      var physicalEnd := PhysicalEnd(g, desc);
      if desc.available {
        availableEnd := physicalEnd;
      } else {
        var span := SpanCall(g, desc);
        memoryManager.MarkAllocated(span.start, span.count);
      }
      assert memoryManager.marks == marksBefore + StepCalls(g, endBefore, desc);
      assert availableEnd == StepEnd(g, endBefore, desc);
      WalkStep(g, memoryMap, i);
      i := i + 1;
    }
    assert memoryMap[..|memoryMap|] == memoryMap;
    memoryManager.SetMemoryRange(1, FrameOf(g, availableEnd));
  }

  /** Walking one more descriptor appends its calls and applies its step to `available_end`. */
  lemma WalkStep(g: Geometry, descs: seq<MemoryDescriptor>, i: nat)
    requires i < |descs|
    ensures EndAfter(g, descs[..i + 1]) == StepEnd(g, EndAfter(g, descs[..i]), descs[i])
    ensures CallsAfter(g, descs[..i + 1])
            == CallsAfter(g, descs[..i]) + StepCalls(g, EndAfter(g, descs[..i]), descs[i])
  {
    var upTo := descs[..i + 1];
    assert upTo[..i] == descs[..i];
    assert upTo[i] == descs[i];
  }

  /**
   * `available_end` after the walk is the end of the last available
   * descriptor, or 0 when no descriptor is available.
   */
  lemma {:induction false} EndAfterIsLastAvailableEnd(g: Geometry, descs: seq<MemoryDescriptor>)
    ensures (forall j :: 0 <= j < |descs| ==> !descs[j].available) ==> EndAfter(g, descs) == 0
    ensures forall k :: 0 <= k < |descs| && descs[k].available
                        && (forall j :: k < j < |descs| ==> !descs[j].available)
                     ==> EndAfter(g, descs) == PhysicalEnd(g, descs[k])
    decreases |descs|
  {
    if descs != [] {
      var prefix := descs[..|descs| - 1];
      EndAfterIsLastAvailableEnd(g, prefix);
      assert forall j :: 0 <= j < |prefix| ==> prefix[j] == descs[j];
    }
  }

  /** The calls made for a prefix of the map are a prefix of the calls for the whole map. */
  lemma {:induction false} CallsAfterPrefix(g: Geometry, descs: seq<MemoryDescriptor>, i: nat)
    requires i <= |descs|
    ensures CallsAfter(g, descs[..i]) <= CallsAfter(g, descs)
    decreases |descs|
  {
    if i < |descs| {
      var prefix := descs[..|descs| - 1];
      assert prefix[..i] == descs[..i];
      CallsAfterPrefix(g, prefix, i);
    } else {
      assert descs[..i] == descs;
    }
  }

  /** Every call the walk makes for descriptor `i` is in the final log. */
  lemma StepCallsLogged(g: Geometry, descs: seq<MemoryDescriptor>, i: nat)
    requires i < |descs|
    ensures forall c :: c in StepCalls(g, EndAfter(g, descs[..i]), descs[i]) ==> c in CallsAfter(g, descs)
  {
    var before := CallsAfter(g, descs[..i]);
    var steps := StepCalls(g, EndAfter(g, descs[..i]), descs[i]);
    var whole := CallsAfter(g, descs);
    WalkStep(g, descs, i);
    CallsAfterPrefix(g, descs, i + 1);
    assert before + steps <= whole;
    forall c | c in steps
      ensures c in whole
    {
      var k :| 0 <= k < |steps| && steps[k] == c;
      assert whole[|before| + k] == (before + steps)[|before| + k] == c;
    }
  }

  /**
   * Allocator coverage for reserved memory: every frame of a descriptor
   * that is not available is marked allocated by the walk.
   */
  lemma {:induction false} UnavailableFramesMarked(g: Geometry, descs: seq<MemoryDescriptor>, i: nat, f: nat)
    requires i < |descs| && !descs[i].available
    requires descs[i].physicalStart / g.bytesPerFrame <= f
    requires f < descs[i].physicalStart / g.bytesPerFrame + SpanBytes(g, descs[i]) / g.bytesPerFrame
    ensures Marked(CallsAfter(g, descs), f)
  {
    StepCallsLogged(g, descs, i);
    var calls := StepCalls(g, EndAfter(g, descs[..i]), descs[i]);
    assert calls[|calls| - 1] in calls;
  }

  /**
   * Allocator coverage for holes: when a descriptor starts above the
   * `available_end` reached before it, the frames of the hole are marked.
   */
  lemma GapFramesMarked(g: Geometry, descs: seq<MemoryDescriptor>, i: nat, f: nat)
    requires i < |descs|
    requires EndAfter(g, descs[..i]) < descs[i].physicalStart
    requires EndAfter(g, descs[..i]) / g.bytesPerFrame <= f
    requires f < EndAfter(g, descs[..i]) / g.bytesPerFrame
               + (descs[i].physicalStart - EndAfter(g, descs[..i])) / g.bytesPerFrame
    ensures Marked(CallsAfter(g, descs), f)
  {
    StepCallsLogged(g, descs, i);
    var calls := StepCalls(g, EndAfter(g, descs[..i]), descs[i]);
    assert calls[0] in calls;
  }

  /** Every descriptor ends without 64-bit wrap-around. */
  ghost predicate EndsFit(g: Geometry, descs: seq<MemoryDescriptor>) {
    forall k :: 0 <= k < |descs| ==> descs[k].physicalStart + SpanBytes(g, descs[k]) < TWO_TO_64
  }

  /**
   * The memory map as firmware normally reports it: every descriptor ends
   * without 64-bit wrap-around, and each one ends at or before the start of
   * every later one.
   */
  ghost predicate SortedAndDisjoint(g: Geometry, descs: seq<MemoryDescriptor>) {
    EndsFit(g, descs)
    && (forall j, k :: 0 <= j < k < |descs| ==>
          descs[j].physicalStart + SpanBytes(g, descs[j]) <= descs[k].physicalStart)
  }

  lemma MulMono(a: nat, b: nat, n: nat)
    requires a <= b
    ensures a * n <= b * n
  {
  }

  /** A multiple of `n` that fits in `x` counts at most `x / n` frames. */
  lemma DivAtLeast(x: nat, n: nat, q: nat)
    requires n > 0
    ensures q * n <= x ==> q <= x / n
  {
    if q > x / n {
      MulMono(x / n + 1, q, n);
      assert (x / n + 1) * n == x / n * n + n;
    }
  }

  /** A byte count below `q * n` holds fewer than `q` whole frames. */
  lemma DivBelow(x: nat, n: nat, q: nat)
    requires n > 0
    ensures x < q * n ==> x / n < q
  {
  }

  lemma DivMono(a: nat, b: nat, n: nat)
    requires n > 0 && a <= b
    ensures a / n <= b / n
  {
    DivAtLeast(b, n, a / n);
  }

  /** Dividing two byte counts separately loses at least as much as dividing their sum. */
  lemma DivSum(a: nat, b: nat, n: nat)
    requires n > 0
    ensures a / n + b / n <= (a + b) / n
  {
    assert (a / n + b / n) * n == a / n * n + b / n * n;
    DivAtLeast(a + b, n, a / n + b / n);
  }

  /** `q` whole frames of `n` bytes divide back to exactly `q`. */
  lemma MulDivExact(q: nat, n: nat)
    requires n > 0
    ensures q * n / n == q
    ensures q * n % n == 0
  {
    DivAtLeast(q * n, n, q);
    DivBelow(q * n, n, q + 1);
  }

  /** Two frame-aligned byte counts add up to a frame-aligned count of as many frames. */
  lemma AlignedSum(x: nat, y: nat, n: nat)
    requires n > 0 && x % n == 0 && y % n == 0
    ensures (x + y) % n == 0 && (x + y) / n == x / n + y / n
  {
    var a, b := x / n, y / n;
    assert x == a * n && y == b * n;
    assert x + y == (a + b) * n;
    MulDivExact(a + b, n);
  }

  /** The distance between two frame-aligned addresses is as many frames as they lie apart. */
  lemma AlignedDiff(x: nat, y: nat, n: nat)
    requires n > 0 && x % n == 0 && y % n == 0 && x <= y
    ensures (y - x) / n == y / n - x / n
  {
    var a, b := x / n, y / n;
    assert x == a * n && y == b * n;
    DivMono(x, y, n);
    assert y - x == (b - a) * n;
    MulDivExact(b - a, n);
  }

  /**
   * Every descriptor starts on a frame boundary and spans a whole number of
   * frames, as UEFI maps with 4 KiB pages and 4 KiB frames do.
   */
  ghost predicate FrameAligned(g: Geometry, descs: seq<MemoryDescriptor>) {
    forall k :: 0 <= k < |descs| ==>
      descs[k].physicalStart % g.bytesPerFrame == 0 && SpanBytes(g, descs[k]) % g.bytesPerFrame == 0
  }

  /** On an aligned map without wrap-around, `available_end` stays on a frame boundary. */
  lemma {:induction false} EndAfterAligned(g: Geometry, descs: seq<MemoryDescriptor>, i: nat)
    requires EndsFit(g, descs) && FrameAligned(g, descs)
    requires i <= |descs|
    ensures EndAfter(g, descs[..i]) % g.bytesPerFrame == 0
    decreases i
  {
    if i > 0 {
      EndAfterAligned(g, descs, i - 1);
      WalkStep(g, descs, i - 1);
      var d := descs[i - 1];
      if d.available {
        var start, span := d.physicalStart, SpanBytes(g, d);
        assert start % g.bytesPerFrame == 0 && span % g.bytesPerFrame == 0;
        assert start + span < TWO_TO_64;
        AlignedSum(start, span, g.bytesPerFrame);
        assert EndAfter(g, descs[..i]) == start + span;
      }
    }
  }

  /**
   * Allocator coverage for holes, frame by frame: on an aligned map without
   * wrap-around, every frame lying wholly between the `available_end`
   * reached before a descriptor and that descriptor's start is marked.
   */
  lemma {:induction false} HoleFramesMarked(g: Geometry, descs: seq<MemoryDescriptor>, i: nat, f: nat)
    requires EndsFit(g, descs) && FrameAligned(g, descs)
    requires i < |descs|
    requires EndAfter(g, descs[..i]) <= f * g.bytesPerFrame
    requires (f + 1) * g.bytesPerFrame <= descs[i].physicalStart
    ensures Marked(CallsAfter(g, descs), f)
  {
    var n := g.bytesPerFrame;
    var availableEnd := EndAfter(g, descs[..i]);
    var start := descs[i].physicalStart;
    EndAfterAligned(g, descs, i);
    assert (f + 1) * n == f * n + n;
    DivBelow(availableEnd, n, f + 1);
    DivAtLeast(start, n, f + 1);
    AlignedDiff(availableEnd, start, n);
    GapFramesMarked(g, descs, i, f);
  }

  /**
   * Allocator coverage for reserved memory, frame by frame: on an aligned
   * map, every frame lying wholly inside a descriptor that is not
   * available is marked.
   */
  lemma {:induction false} ReservedFramesMarked(g: Geometry, descs: seq<MemoryDescriptor>, i: nat, f: nat)
    requires FrameAligned(g, descs)
    requires i < |descs| && !descs[i].available
    requires descs[i].physicalStart <= f * g.bytesPerFrame
    requires (f + 1) * g.bytesPerFrame <= descs[i].physicalStart + SpanBytes(g, descs[i])
    ensures Marked(CallsAfter(g, descs), f)
  {
    var n := g.bytesPerFrame;
    var d := descs[i];
    assert (f + 1) * n == f * n + n;
    DivBelow(d.physicalStart, n, f + 1);
    AlignedSum(d.physicalStart, SpanBytes(g, d), n);
    DivAtLeast(d.physicalStart + SpanBytes(g, d), n, f + 1);
    UnavailableFramesMarked(g, descs, i, f);
  }

  /**
   * Without alignment a hole frame can stay unmarked: with 4 KiB frames and
   * pages, available descriptors at 2048 and 12288 leave the hole
   * [6144, 12288), and the walk marks only frame 1 of it, not frame 2 =
   * [8192, 12288).
   */
  lemma UnalignedHoleFrameUnmarked()
    ensures var g: Geometry := FrameGeometry(4096, 4096);
            var descs := [MemoryDescriptor(2048, 1, true), MemoryDescriptor(12288, 1, true)];
            SortedAndDisjoint(g, descs)
            && EndAfter(g, descs[..1]) <= 2 * 4096 && 3 * 4096 <= descs[1].physicalStart
            && !Marked(CallsAfter(g, descs), 2)
  {
    var g: Geometry := FrameGeometry(4096, 4096);
    var descs := [MemoryDescriptor(2048, 1, true), MemoryDescriptor(12288, 1, true)];
    assert descs[..1] == [descs[0]] && [descs[0]][..0] == [];
    assert EndAfter(g, descs[..1]) == 6144;
    assert CallsAfter(g, descs[..1]) == [MarkCall(0, 0)];
    assert CallsAfter(g, descs) == [MarkCall(0, 0), MarkCall(1, 1)];
  }

  /**
   * On a sorted map, once an available descriptor has been walked,
   * `available_end` never falls below its end again.
   */
  lemma {:induction false} EndAfterPassesAvailable(g: Geometry, descs: seq<MemoryDescriptor>, k: nat, j: nat)
    requires SortedAndDisjoint(g, descs)
    requires k < j <= |descs| && descs[k].available
    ensures EndAfter(g, descs[..j]) >= descs[k].physicalStart + SpanBytes(g, descs[k])
    decreases j
  {
    WalkStep(g, descs, j - 1);
    if j > k + 1 {
      EndAfterPassesAvailable(g, descs, k, j - 1);
    }
  }

  /**
   * On a sorted map, no call made for descriptor `j` covers a frame that
   * lies wholly inside the available descriptor `k`.
   */
  lemma StepAvoidsFrame(g: Geometry, descs: seq<MemoryDescriptor>, k: nat, f: nat, j: nat)
    requires SortedAndDisjoint(g, descs)
    requires k < |descs| && descs[k].available && j < |descs|
    requires descs[k].physicalStart <= f * g.bytesPerFrame
    requires (f + 1) * g.bytesPerFrame <= descs[k].physicalStart + SpanBytes(g, descs[k])
    ensures forall c :: c in StepCalls(g, EndAfter(g, descs[..j]), descs[j]) ==> !(c.start <= f < c.start + c.count)
  {
    var n := g.bytesPerFrame;
    var availableEnd := EndAfter(g, descs[..j]);
    var d := descs[j];
    var regionStart := descs[k].physicalStart;
    var regionEnd := descs[k].physicalStart + SpanBytes(g, descs[k]);
    assert (f + 1) * n == f * n + n;
    DivBelow(regionStart, n, f + 1);
    DivAtLeast(regionEnd, n, f + 1);
    if j <= k {
      // Both runs end at or before the frame holding the region's start.
      if availableEnd < d.physicalStart {
        DivSum(availableEnd, d.physicalStart - availableEnd, n);
        DivMono(d.physicalStart, regionStart, n);
      }
      if !d.available {
        DivSum(d.physicalStart, SpanBytes(g, d), n);
        DivMono(d.physicalStart + SpanBytes(g, d), regionStart, n);
      }
    } else {
      // Both runs start at or after the frame holding the region's end.
      EndAfterPassesAvailable(g, descs, k, j);
      if availableEnd < d.physicalStart {
        DivMono(regionEnd, availableEnd, n);
      }
      if !d.available {
        DivMono(regionEnd, d.physicalStart, n);
      }
    }
  }

  lemma {:induction false} AvailableFrameUnmarkedUpTo(g: Geometry, descs: seq<MemoryDescriptor>, k: nat, f: nat, i: nat)
    requires SortedAndDisjoint(g, descs)
    requires k < |descs| && descs[k].available && i <= |descs|
    requires descs[k].physicalStart <= f * g.bytesPerFrame
    requires (f + 1) * g.bytesPerFrame <= descs[k].physicalStart + SpanBytes(g, descs[k])
    ensures !Marked(CallsAfter(g, descs[..i]), f)
    decreases i
  {
    if i > 0 {
      AvailableFrameUnmarkedUpTo(g, descs, k, f, i - 1);
      WalkStep(g, descs, i - 1);
      StepAvoidsFrame(g, descs, k, f, i - 1);
    }
  }

  /**
   * Allocator coverage, the other half: on a sorted map without
   * wrap-around, no frame lying wholly inside an available descriptor is
   * marked allocated by the walk.
   */
  lemma {:induction false} AvailableFramesUnmarked(g: Geometry, descs: seq<MemoryDescriptor>, k: nat, f: nat)
    requires SortedAndDisjoint(g, descs)
    requires k < |descs| && descs[k].available
    requires descs[k].physicalStart <= f * g.bytesPerFrame
    requires (f + 1) * g.bytesPerFrame <= descs[k].physicalStart + SpanBytes(g, descs[k])
    ensures !Marked(CallsAfter(g, descs), f)
  {
    AvailableFrameUnmarkedUpTo(g, descs, k, f, |descs|);
    assert descs[..|descs|] == descs;
  }

  /** The number of descriptors that start above the `available_end` reached before them. */
  function GapCount(g: Geometry, descs: seq<MemoryDescriptor>): nat
    decreases |descs|
  {
    if descs == [] then 0
    else
      var prefix := descs[..|descs| - 1];
      GapCount(g, prefix) + if EndAfter(g, prefix) < descs[|descs| - 1].physicalStart then 1 else 0
  }

  /** The number of descriptors that are not available. */
  function UnavailableCount(descs: seq<MemoryDescriptor>): nat {
    |set j | 0 <= j < |descs| && !descs[j].available|
  }

  /**
   * The walk makes one call per hole and one per unavailable descriptor, so
   * an available descriptor never causes a call for its own span.
   */
  lemma {:induction false} CallCount(g: Geometry, descs: seq<MemoryDescriptor>)
    ensures |CallsAfter(g, descs)| == GapCount(g, descs) + UnavailableCount(descs)
    decreases |descs|
  {
    if descs != [] {
      var n := |descs| - 1;
      var prefix := descs[..n];
      CallCount(g, prefix);
      var before := set j | 0 <= j < n && !prefix[j].available;
      var after := set j | 0 <= j < |descs| && !descs[j].available;
      if descs[n].available {
        assert after == before;
      } else {
        assert after == before + {n};
      }
    }
  }
}
