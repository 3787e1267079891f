// Source/AvFifo/DtAvFrame.c: the frames of a FIFO, and the FIFO.

module FramePool {
  import opened Bytes
  import MediaTime

  /** The boundary that a frame's data starts on. */
  const ALIGNMENT: nat := 32

  /** What asking for memory gives. */
  datatype Memory = NoMemory | Block(address: nat)

  /** How far the boundary is. */
  function AlignPad(address: nat): (pad: nat)
    ensures pad < ALIGNMENT && (address + pad) % ALIGNMENT == 0
  {
    (ALIGNMENT - address % ALIGNMENT) % ALIGNMENT
  }

  /** What the application sees of a frame besides its data. */
  class FrameInfo {
    var rtpTime: int
    var tod: MediaTime.TimeOfDay
    var numValid: int
    var field: int
    var numRows: int
    var is420: bool

    ghost predicate IsCleared()
      reads this
    {
      && numRows == -1 && rtpTime == 0 && tod == MediaTime.TimeOfDay(0, 0)
      && numValid == 0 && field == 0 && !is420
    }

    constructor ()
      ensures IsCleared()
    {
      rtpTime, tod, numValid := 0, MediaTime.TimeOfDay(0, 0), 0;
      field, numRows, is420 := 0, -1, false;
    }

    method Clear()
      modifies this
      ensures IsCleared()
    {
      rtpTime, tod, numValid := 0, MediaTime.TimeOfDay(0, 0), 0;
      field, numRows, is420 := 0, -1, false;
    }
  }

  /**
   * A frame of a pool, in the list of all frames and in that of the free ones. Its data is at
   * an address, and size of its bytes are asked for.
   */
  class PoolFrame {
    const info: FrameInfo
    var isFree: bool
    var nextInPool: PoolFrame?
    var nextFree: PoolFrame?
    var data: array<Byte>
    var address: nat
    var size: nat

    /** Whether the data is on its boundary and holds the bytes asked for. */
    ghost predicate IsSound()
      reads this`size, this`data, this`address
    {
      size <= data.Length && address % ALIGNMENT == 0
    }

    /** The bytes asked for. */
    ghost function Bytes(): (s: seq<Byte>)
      reads this`size, this`data, this`address, data
      ensures IsSound() ==> |s| == size
    {
      data[..if size <= data.Length then size else data.Length]
    }

    constructor (next: PoolFrame?, size: nat, block: nat)
      ensures !isFree && nextInPool == next && nextFree == null && fresh(data) && fresh(info)
      ensures IsSound() && this.size == size && info.IsCleared()
    {
      isFree, nextInPool, nextFree := false, next, null;
      data := new Byte[size + ALIGNMENT - AlignPad(block)];
      address := block + AlignPad(block);
      this.size := size;
      info := new FrameInfo();
    }

    // Other memory, on its boundary.
    method Reallocate(size: nat, block: nat)
      modifies this`data, this`address
      ensures fresh(data) && size <= data.Length && address % ALIGNMENT == 0
    {
      data := new Byte[size + ALIGNMENT - AlignPad(block)];
      address := block + AlignPad(block);
    }
  }

  /** Frames linked one to the next, by the list of all. */
  ghost predicate IsAllList(first: PoolFrame?, frames: seq<PoolFrame>)
    reads frames`nextInPool
  {
    if frames == [] then first == null
    else first == frames[0] && IsAllList(frames[0].nextInPool, frames[1..])
  }

  /** Frames linked one to the next, by the list of free ones. */
  ghost predicate IsFreeList(first: PoolFrame?, frames: seq<PoolFrame>)
    reads frames`nextFree
  {
    if frames == [] then first == null
    else first == frames[0] && IsFreeList(frames[0].nextFree, frames[1..])
  }

  predicate AreDistinct(frames: seq<PoolFrame>) {
    forall i, j | 0 <= i < j < |frames| :: frames[i] != frames[j]
  }

  lemma DistinctGrows(frame: PoolFrame, frames: seq<PoolFrame>)
    requires AreDistinct(frames) && frame !in frames
    ensures AreDistinct([frame] + frames) && ([frame] + frames)[1..] == frames
  {
  }

  lemma DistinctShrinks(frames: seq<PoolFrame>)
    requires AreDistinct(frames) && frames != []
    ensures AreDistinct(frames[1..]) && frames[0] !in frames[1..]
  {
  }

  /** No two frames share their data, or what the application sees of them. */
  ghost predicate AreApart(frames: seq<PoolFrame>)
    reads frames`data
  {
    forall i, j | 0 <= i < j < |frames| ::
      frames[i].data != frames[j].data && frames[i].info != frames[j].info
  }

  /** A frame that was free, or is new, is neither any more; or there is none. */
  ghost predicate IsHandedOut(all: seq<PoolFrame>, free: seq<PoolFrame>, all': seq<PoolFrame>,
                              free': seq<PoolFrame>, frame: PoolFrame?) {
    if frame == null then all' == all && free' == free
    else if free == [] then frame !in all && all' == [frame] + all && free' == []
    else frame == free[0] && all' == all && free' == free[1..]
  }

  /** A pool: all its frames, the newest first, and those of them that are free. */
  class Pool {
    var allFrames: PoolFrame?
    var freeList: PoolFrame?
    var numFrames: nat
    var numFree: nat

    ghost var all: seq<PoolFrame>
    ghost var free: seq<PoolFrame>

    /** A frame is in the free list exactly when it is marked free; there it is once. */
    ghost predicate Valid()
      reads this, all`isFree, all`nextInPool, all`data, all`size, all`address, free`nextFree
    {
      && IsAllList(allFrames, all) && IsFreeList(freeList, free)
      && AreDistinct(all) && AreDistinct(free)
      && (forall f | f in free :: f in all)
      && (forall f | f in all :: (f.isFree <==> f in free) && f.IsSound())
      && AreApart(all)
      && numFrames == |all| && numFree == |free|
    }

    constructor ()
      ensures Valid() && all == free == []
    {
      allFrames, freeList, numFrames, numFree, all, free := null, null, 0, 0, [], [];
    }

    /** The frame that is handed out next. */
    ghost function First(): (s: seq<PoolFrame>)
      reads this
    {
      if free == [] then [] else free[..1]
    }

    // Takes the first of the free frames.
    method PopFree() returns (frame: PoolFrame)
      requires Valid() && free != []
      modifies this`freeList, this`numFree, this`free, First()`isFree, First()`nextFree
      ensures Valid() && frame == old(free[0]) && free == old(free[1..])
    {
      DistinctShrinks(free);
      frame := freeList;
      freeList, numFree := frame.nextFree, numFree - 1;
      free := free[1..];
      frame.isFree, frame.nextFree := false, null;
    }

    // Adds a frame to the free ones.
    method PushFree(frame: PoolFrame)
      requires Valid() && frame in all && !frame.isFree
      modifies this`freeList, this`numFree, this`free, frame`isFree, frame`nextFree
      ensures Valid() && free == [frame] + old(free)
    {
      frame.isFree, frame.nextFree := true, freeList;
      DistinctGrows(frame, free);
      freeList, numFree := frame, numFree + 1;
      free := [frame] + free;
    }

    // Adds a new frame.
    method AddFrame(size: nat, block: nat) returns (frame: PoolFrame)
      requires Valid()
      modifies this`allFrames, this`numFrames, this`all
      ensures Valid() && fresh(frame) && fresh(frame.data) && fresh(frame.info)
      ensures all == [frame] + old(all) && !frame.isFree && frame.size == size
      ensures frame.info.IsCleared()
    {
      frame := new PoolFrame(allFrames, size, block);
      DistinctGrows(frame, all);
      all := [frame] + all;
      allFrames, numFrames := frame, numFrames + 1;
    }

    /**
     * A frame that nobody has, cleared and with room for size bytes on the boundary. hasFrame
     * and block tell what memory there is for a new frame and for its data; without, no frame
     * changes hands.
     */
    method Get(size: nat, hasFrame: bool, block: Memory) returns (frame: PoolFrame?)
      requires Valid()
      modifies this, First(), set f | f in First() :: f.info
      ensures Valid()
      ensures frame == null <==> if old(free) == [] then !hasFrame || block.NoMemory?
                                 else old(free[0].data.Length) < size && block.NoMemory?
      ensures IsHandedOut(old(all), old(free), all, free, frame)
      ensures forall f | f in all :: f in old(all) || (fresh(f) && fresh(f.info))
      ensures forall f | f in all :: fresh(f.data) || (f in old(all) && f.data == old(f.data))
      ensures forall f | f in all :: f == frame || (f in old(all) && f.data == old(f.data))
      ensures frame != null ==> frame.size == size && frame.info.IsCleared() && frame.IsSound()
    {
      if freeList == null {
        if !hasFrame || block.NoMemory? {
          return null;
        }
        frame := AddFrame(size, block.address);
        return;
      }
      frame := PopFree();
      var fits := Refit(frame, size, block);
      if !fits {
        PushFree(frame);
        frame := null;
      }
    }

    // A frame of the pool cleared, and with room for size bytes, if there is memory for it.
    method Refit(frame: PoolFrame, size: nat, block: Memory) returns (fits: bool)
      requires Valid() && frame in all
      modifies frame`data, frame`address, frame`size, frame.info
      ensures Valid() && fits == (old(frame.data.Length) >= size || block.Block?)
      ensures frame.data == old(frame.data) || (fits && fresh(frame.data))
      ensures fits ==> frame.size == size && frame.info.IsCleared() && frame.IsSound()
    {
      if frame.data.Length < size {
        if block.NoMemory? {
          return false;
        }
        frame.Reallocate(size, block.address);
      }
      frame.size := size;
      frame.info.Clear();
      fits := true;
    }

    /** Whether a frame is one of the pool that is not free. */
    method Owns(frame: PoolFrame) returns (owns: bool)
      requires Valid()
      ensures owns <==> frame in all && frame !in free
    {
      var found := allFrames;
      ghost var i := 0;
      while found != null && found != frame
        invariant i <= |all| && IsAllList(found, all[i..]) && frame !in all[..i]
        decreases |all| - i
      {
        assert all[i..][1..] == all[i + 1..];
        found := found.nextInPool;
        i := i + 1;
      }
      owns := found != null && !found.isFree;
    }

    /** Returns a frame; one that is free already, or is not of the pool, is refused. */
    method Return(frame: PoolFrame) returns (returned: bool)
      requires Valid()
      modifies this`freeList, this`numFree, this`free, frame`isFree, frame`nextFree
      ensures Valid() && (returned <==> frame in all && frame !in old(free))
      ensures free == if returned then [frame] + old(free) else old(free)
      ensures !returned ==>
        frame.isFree == old(frame.isFree) && frame.nextFree == old(frame.nextFree)
    {
      returned := Owns(frame);
      if returned {
        PushFree(frame);
      }
    }
  }

  // ---------------------------------------------------------------- The FIFO

  const DEFAULT_MAX_SIZE: nat := 4

  /** Frames in a ring of slots, which grows with the largest load allowed. */
  class Fifo<T(0)> {
    var ring: array<T>
    var head: nat
    var load: nat
    var maxSize: nat
    var hasOverflowed: bool

    ghost predicate Valid()
      reads this, ring
    {
      0 < ring.Length && head < ring.Length && load <= ring.Length && 0 < maxSize <= ring.Length
    }

    /** The frames, the oldest first. */
    ghost function Contents(): (s: seq<T>)
      requires Valid()
      reads this, ring
      ensures |s| == load
    {
      Window(ring[..], head, load)
    }

    constructor ()
      ensures Valid() && fresh(ring) && Contents() == [] && !hasOverflowed
      ensures maxSize == DEFAULT_MAX_SIZE
    {
      ring := new T[DEFAULT_MAX_SIZE];
      head, load, maxSize, hasOverflowed := 0, 0, DEFAULT_MAX_SIZE, false;
    }

    /** Adds a frame, unless the FIFO is full, which counts as an overflow. */
    method Push(x: T) returns (pushed: bool)
      requires Valid()
      modifies this`load, this`hasOverflowed, ring
      ensures Valid() && pushed == (|old(Contents())| < maxSize)
      ensures Contents() == if pushed then old(Contents()) + [x] else old(Contents())
      ensures hasOverflowed == (old(hasOverflowed) || !pushed)
    {
      pushed := load < maxSize && load < ring.Length;
      if pushed {
        WindowGrows(ring[..], head, load, x);
        ring[(head + load) % ring.Length] := x;
        load := load + 1;
      } else {
        hasOverflowed := true;
      }
    }

    /** Takes the oldest frame. */
    method Pop() returns (popped: bool, x: T)
      requires Valid()
      modifies this`head, this`load
      ensures Valid() && popped == (old(Contents()) != [])
      ensures popped ==> [x] + Contents() == old(Contents())
      ensures !popped ==> Contents() == old(Contents())
    {
      x := ring[head];
      popped := load > 0;
      if popped {
        WindowShrinks(ring[..], head, load);
        head := (head + 1) % ring.Length;
        load := load - 1;
      }
    }

    // The frames in a larger ring, from its start on.
    method MoveTo(size: nat) returns (items: array<T>)
      requires Valid() && size > ring.Length
      ensures fresh(items) && items.Length == size
      ensures Window(items[..], 0, load) == Contents()
    {
      hide Slot;
      items := new T[size];
      ghost var was := Contents();
      for i := 0 to load
        invariant items[..i] == was[..i]
      {
        items[i] := ring[Slot(head, i, ring.Length)];
      }
      WindowFromStart(items[..], load);
      assert was[..load] == was;
    }

    /** Sets the largest load; the frames there are stay, in order, whatever it is. */
    method SetMaxSize(size: int, hasMemory: bool) returns (ok: bool)
      requires Valid()
      modifies this`ring, this`head, this`maxSize
      ensures Valid() && Contents() == old(Contents())
      ensures ok == (size >= 1 && (size <= old(ring.Length) || hasMemory))
      ensures maxSize == if ok then size else old(maxSize)
    {
      if size < 1 {
        return false;
      }
      if size > ring.Length {
        if !hasMemory {
          return false;
        }
        var items := MoveTo(size);
        ring, head := items, 0;
      }
      maxSize := size;
      ok := true;
    }
  }

  /** The slot that is i behind the head. */
  function Slot(head: nat, i: nat, slots: nat): (k: nat)
    requires slots > 0
    ensures k < slots
  {
    (head + i) % slots
  }

  function Window<T>(s: seq<T>, head: nat, load: nat): (w: seq<T>)
    requires |s| > 0
    ensures |w| == load
  {
    seq(load, i requires 0 <= i < load => s[Slot(head, i, |s|)])
  }

  lemma SlotIs(head: nat, i: nat, slots: nat)
    requires head < slots && i <= slots
    ensures Slot(head, i, slots) == if head + i < slots then head + i else head + i - slots
  {
  }

  lemma WindowGrows<T>(s: seq<T>, head: nat, load: nat, x: T)
    requires head < |s| && load < |s|
    ensures Window(s[Slot(head, load, |s|) := x], head, load + 1) == Window(s, head, load) + [x]
  {
    hide Slot;
    var t := s[Slot(head, load, |s|) := x];
    SlotIs(head, load, |s|);
    forall i | 0 <= i < load
      ensures t[Slot(head, i, |s|)] == s[Slot(head, i, |s|)]
    {
      SlotIs(head, i, |s|);
    }
  }

  lemma WindowShrinks<T>(s: seq<T>, head: nat, load: nat)
    requires head < |s| && 0 < load <= |s|
    ensures Window(s, head, load) == [s[head]] + Window(s, Slot(head, 1, |s|), load - 1)
  {
    hide Slot;
    SlotIs(head, 0, |s|);
    SlotIs(head, 1, |s|);
    forall i | 0 <= i < load - 1
      ensures Slot(Slot(head, 1, |s|), i, |s|) == Slot(head, i + 1, |s|)
    {
      SlotIs(Slot(head, 1, |s|), i, |s|);
      SlotIs(head, i + 1, |s|);
    }
  }

  lemma WindowFromStart<T>(s: seq<T>, load: nat)
    requires 0 < |s| && load <= |s|
    ensures Window(s, 0, load) == s[..load]
  {
    hide Slot;
    forall i | 0 <= i < load
      ensures s[Slot(0, i, |s|)] == s[i]
    {
      SlotIs(0, i, |s|);
    }
  }
}
