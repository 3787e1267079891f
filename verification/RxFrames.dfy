// Source/AvFifo/DtAvRxFifo.c, DtAvStream.h: the frames of a receive FIFO, and who has them.

module RxFrames {
  import opened FramePool
  import VideoParser

  /** A frame of the pool as a value. */
  ghost function FrameOf(f: PoolFrame): VideoParser.Frame
    reads f`size, f`data, f`address, f.data, f.info
  {
    VideoParser.Frame(f.Bytes(), f.info.numValid, f.info.field, f.info.numRows, f.info.is420,
                      f.info.rtpTime, f.info.tod)
  }

  /** No frame is free and in use, or in two places of use. */
  ghost predicate AreOwned(all: seq<PoolFrame>, free: seq<PoolFrame>, partial: PoolFrame?,
                           waiting: seq<PoolFrame?>) {
    && (partial != null ==> partial in all && partial !in free && partial !in waiting)
    && (forall i | 0 <= i < |waiting| ::
          waiting[i] != null && waiting[i] in all && waiting[i] !in free)
    && (forall i, j | 0 <= i < j < |waiting| :: waiting[i] != waiting[j])
  }

  /** The frames of a pool that are neither free nor being filled nor waiting. */
  ghost function Others(all: seq<PoolFrame>, free: seq<PoolFrame>, partial: PoolFrame?,
                        waiting: seq<PoolFrame?>): set<PoolFrame> {
    set f | f in all && f !in free && f != partial && f !in waiting
  }

  // The frame being filled is put behind those that wait, or given back.
  lemma OwnedDelivers(all: seq<PoolFrame>, free: seq<PoolFrame>, frame: PoolFrame,
                      waiting: seq<PoolFrame?>)
    requires AreOwned(all, free, frame, waiting)
    ensures AreOwned(all, free, null, waiting + [frame])
    ensures Others(all, free, null, waiting + [frame]) == Others(all, free, frame, waiting)
    ensures AreOwned(all, [frame] + free, null, waiting)
    ensures Others(all, [frame] + free, null, waiting) == Others(all, free, frame, waiting)
  {
  }

  lemma IsOwned(all: seq<PoolFrame>, free: seq<PoolFrame>, frame: PoolFrame,
                waiting: seq<PoolFrame?>)
    requires AreOwned(all, free, frame, waiting)
    ensures frame in all && frame !in free && frame !in waiting
  {
  }

  lemma NoneIsFree(all: seq<PoolFrame>, free: seq<PoolFrame>, partial: PoolFrame?,
                   waiting: seq<PoolFrame?>)
    requires AreOwned(all, free, partial, waiting)
    ensures forall f | f in waiting :: f != null && f in all && f !in free
  {
  }

  lemma OwnedIsApart(all: seq<PoolFrame>, free: seq<PoolFrame>, partial: PoolFrame?,
                     waiting: seq<PoolFrame?>)
    requires AreOwned(all, free, partial, waiting)
    ensures partial != null ==> partial in all && partial !in waiting
  {
  }

  // The first of those that wait is read.
  lemma OwnedReads(all: seq<PoolFrame>, free: seq<PoolFrame>, partial: PoolFrame?,
                   waiting: seq<PoolFrame?>)
    requires AreOwned(all, free, partial, waiting) && waiting != []
    ensures waiting[0] != null && waiting[0] in all && AreOwned(all, free, partial, waiting[1..])
    ensures var frame: PoolFrame := waiting[0];
      && frame !in Others(all, free, partial, waiting)
      && Others(all, free, partial, waiting[1..]) == Others(all, free, partial, waiting) + {frame}
  {
    assert waiting[0] !in waiting[1..];
  }

  // A frame the application has is given back.
  lemma OwnedReturns(all: seq<PoolFrame>, free: seq<PoolFrame>, partial: PoolFrame?,
                     waiting: seq<PoolFrame?>, frame: PoolFrame)
    requires AreOwned(all, free, partial, waiting) && frame != partial && frame !in waiting
    ensures AreOwned(all, [frame] + free, partial, waiting)
    ensures Others(all, [frame] + free, partial, waiting)
         == Others(all, free, partial, waiting) - {frame}
    ensures frame in Others(all, free, partial, waiting) <==> frame in all && frame !in free
  {
  }

  /** The free frames of a pool that is given a frame back, if it is one of its own in use. */
  ghost function FreeAfterReturn(all: seq<PoolFrame>, free: seq<PoolFrame>,
                                 frame: PoolFrame): seq<PoolFrame> {
    if frame in all && frame !in free then [frame] + free else free
  }

  /**
   * A pool takes back any of its frames that is not free, whoever has it. No frame is then free
   * and in use if and only if neither the parser nor the FIFO had the frame.
   */
  lemma ReturnIsSafe(all: seq<PoolFrame>, free: seq<PoolFrame>, partial: PoolFrame?,
                     waiting: seq<PoolFrame?>, frame: PoolFrame)
    requires AreOwned(all, free, partial, waiting)
    ensures AreOwned(all, FreeAfterReturn(all, free, frame), partial, waiting)
       <==> frame != partial && frame !in waiting
    ensures frame == partial || frame in waiting ==> frame in all && frame !in free
  {
    if frame in waiting {
      var i :| 0 <= i < |waiting| && waiting[i] == frame;
      assert waiting[i] in [frame] + free;
    }
  }

  /**
   * So it is with a frame that is returned twice: the second time the parser may have it again.
   * Here it does, and its frame is free.
   */
  method ReturnTwice(size: nat, block: nat)
    returns (pool: Pool, fifo: Fifo<PoolFrame?>, partial: PoolFrame?, returned: bool)
    ensures pool.Valid() && fifo.Valid() && partial != null && returned
    ensures partial in pool.free && !AreOwned(pool.all, pool.free, partial, fifo.Contents())
  {
    var frame;
    pool, fifo, frame := FillAndRead(size, block);
    hide AreOwned, FrameInfo.IsCleared, PoolFrame.IsSound, Pool.Valid, Fifo.Valid, Window;
    returned := pool.Return(frame);
    partial := pool.Get(size, true, Block(block));
    returned := pool.Return(frame);
    NotOwned(pool.all, pool.free, partial, fifo.Contents());
  }

  // A frame is filled, delivered and read.
  method FillAndRead(size: nat, block: nat)
    returns (pool: Pool, fifo: Fifo<PoolFrame?>, frame: PoolFrame)
    ensures pool.Valid() && pool.all == [frame] && pool.free == []
    ensures fifo.Valid() && fifo.Contents() == []
    ensures fresh(pool) && fresh(fifo) && fresh(fifo.ring) && fresh(frame) && fresh(frame.info)
  {
    pool := new Pool();
    fifo := new Fifo<PoolFrame?>();
    hide FrameInfo.IsCleared, PoolFrame.IsSound, Pool.Valid, Fifo.Valid, Window;
    var filled := pool.Get(size, true, Block(block));
    var pushed := fifo.Push(filled);
    assert pushed && fifo.Contents() == [filled];
    var popped, read := fifo.Pop();
    assert [read] + fifo.Contents() == [filled];
    frame := read;
  }

  lemma NotOwned(all: seq<PoolFrame>, free: seq<PoolFrame>, partial: PoolFrame?,
                 waiting: seq<PoolFrame?>)
    requires partial != null && partial in free
    ensures !AreOwned(all, free, partial, waiting)
  {
  }

  // A free frame, or a new one, is taken to be filled.
  lemma OwnedGets(all: seq<PoolFrame>, free: seq<PoolFrame>, all': seq<PoolFrame>,
                  free': seq<PoolFrame>, waiting: seq<PoolFrame?>, frame: PoolFrame?)
    requires AreOwned(all, free, null, waiting) && AreDistinct(free)
    requires (forall f | f in free :: f in all) && IsHandedOut(all, free, all', free', frame)
    ensures AreOwned(all', free', frame, waiting)
    ensures Others(all', free', frame, waiting) == Others(all, free, null, waiting)
    ensures frame != null ==> frame in all' && frame !in waiting && (frame in free || frame !in all)
    ensures forall f | f in free' :: f in free && f in all'
  {
    if frame != null && free != [] {
      DistinctShrinks(free);
      assert forall f | f in free :: f == frame || f in free[1..];
    }
  }

  lemma AllAreSound(pool: Pool)
    requires pool.Valid()
    ensures forall f | f in pool.all :: f.IsSound()
  {
  }

  lemma DataIsApart(pool: Pool)
    requires pool.Valid()
    ensures forall f | f in pool.free :: f in pool.all
    ensures forall f, g | f in pool.all && g in pool.all && f != g ::
              f.data != g.data && f.info != g.info
  {
    forall f, g | f in pool.all && g in pool.all && f != g
      ensures f.data != g.data && f.info != g.info
    {
      var i :| 0 <= i < |pool.all| && pool.all[i] == f;
      var j :| 0 <= j < |pool.all| && pool.all[j] == g;
      hide Pool.Valid;
      if i < j {
        assert pool.all[i].data != pool.all[j].data;
      } else {
        assert pool.all[j].data != pool.all[i].data;
      }
    }
  }

  lemma FreeOnce(pool: Pool)
    requires pool.Valid()
    ensures AreDistinct(pool.free) && forall f | f in pool.free :: f in pool.all
  {
  }

  /**
   * The use of frames: those that the application has read and not returned, those that wait
   * in the FIFO, and how many may, and how many were read so far.
   */
  datatype Usage = Usage(inHands: set<PoolFrame>, waiting: seq<PoolFrame?>, maxSize: nat,
                         numRead: nat)

  /** The oldest frame that waited is the application's. */
  ghost predicate IsRead(was: Usage, now: Usage, frame: PoolFrame) {
    && was.waiting == [frame] + now.waiting && frame !in was.inHands
    && now == was.(waiting := now.waiting, inHands := was.inHands + {frame},
                   numRead := was.numRead + 1)
  }

  /** Whether the FIFO takes another frame. */
  ghost predicate HasRoom(u: Usage) {
    |u.waiting| < u.maxSize
  }

  ghost function FramesIn(queue: seq<PoolFrame?>): set<PoolFrame> {
    set f: PoolFrame | f in queue
  }

  /** Frames, and what is theirs. */
  ghost function ObjectsOf(frames: set<PoolFrame>): set<object>
    reads frames`data
  {
    frames + (set f | f in frames :: f.data) + (set f | f in frames :: f.info)
  }

  /**
   * The frames of a receive FIFO: those of its pool that are free, the one that the parser
   * fills, those that wait in the FIFO, and all others, which the application has. delivered
   * are all frames the FIFO has taken, as they were then.
   */
  class Frames {
    const pool: Pool
    const fifo: Fifo<PoolFrame?>
    ghost var partial: PoolFrame?
    ghost var delivered: seq<VideoParser.Frame>

    /** The frames that the application has read so far; those that wait were delivered after. */
    ghost var taken: seq<PoolFrame>

    /** What the parser's calls may change: no frame that waits or that the application has. */
    ghost var repr: set<object>

    /** What it is made of: all frames, but not their data. */
    ghost var parts: set<object>

    /** The data of all frames, and what is told of them. */
    ghost var contents: set<object>

    /** All frames. */
    ghost var frames: set<PoolFrame>

    ghost predicate Valid()
      reads this, pool, fifo, parts
    {
      && IsWithin() && HasParts() && IsShared() && repr == Footprint()
      && |delivered| == |taken| + |Waiting()|
    }

    /** Of the frames that wait, those behind the first n are as they were delivered. */
    ghost predicate AreIntact(n: nat)
      reads this`delivered, this`frames, this`contents, fifo, fifo.ring
      reads frames`size, frames`data, frames`address, contents
    {
      n <= |Waiting()| && AreDelivered(Waiting()[n..])
    }

    /** The frames in a queue are the last that were delivered. */
    ghost predicate AreDelivered(queue: seq<PoolFrame?>)
      reads this`delivered, this`frames, this`contents
      reads frames`size, frames`data, frames`address, contents
    {
      |queue| <= |delivered| && Shown(queue) == delivered[|delivered| - |queue|..]
    }

    /** What frames are now. */
    ghost function Shown(queue: seq<PoolFrame?>): seq<VideoParser.Frame>
      reads this`frames, this`contents, frames`size, frames`data, frames`address, contents
    {
      if queue == [] then []
      else
        var f := queue[0];
        (if f != null && f in frames && f.data in contents && f.info in contents then [FrameOf(f)]
         else []) + Shown(queue[1..])
    }

    /** A frame is what was delivered as number k. */
    ghost predicate IsDelivered(frame: PoolFrame, k: int)
      reads this`delivered, frame`size, frame`data, frame`address, frame.data, frame.info
    {
      0 <= k < |delivered| && FrameOf(frame) == delivered[k]
    }

    ghost predicate IsWithin()
      reads this`parts, this`frames, pool, fifo
    {
      && this in parts && pool in parts && fifo in parts && fifo.ring in parts
      && (forall f | f in pool.all :: f in parts) && (forall f | f in pool.free :: f in parts)
      && (forall f | f in frames :: f in parts)
    }

    ghost predicate HasParts()
      reads this`parts, this`contents, this`frames, pool, pool.all`data
    {
      && parts !! contents
      && forall f | f in pool.all :: f in frames && f.data in contents && f.info in contents
    }

    /** Every frame is with one of those that use them. */
    ghost predicate IsShared()
      reads this`partial, pool, fifo, fifo.ring, pool.free`nextFree
      reads pool.all`isFree, pool.all`nextInPool, pool.all`data, pool.all`size, pool.all`address
    {
      && pool.Valid() && fifo.Valid()
      && AreOwned(pool.all, pool.free, partial, fifo.Contents())
      && (forall f | f in fifo.Contents() && f != null :: f in pool.all)
    }

    /** The frames that wait, oldest first. */
    ghost function Waiting(): seq<PoolFrame?>
      reads fifo, fifo.ring
    {
      if fifo.Valid() then fifo.Contents() else []
    }

    /** Who has the frames that are in use. */
    ghost function Use(): Usage
      reads this`partial, this`taken, pool`all, pool`free, fifo, fifo.ring
    {
      Usage(Others(pool.all, pool.free, partial, Waiting()), Waiting(), fifo.maxSize, |taken|)
    }

    /** The frames that are free, and the one the parser fills. */
    ghost function Ours(): set<PoolFrame>
      reads this`partial, pool`free
    {
      (set f | f in pool.free) + if partial == null then {} else var f: PoolFrame := partial; {f}
    }

    ghost function Footprint(): set<object>
      reads this`partial, pool`free, fifo`ring, Ours()`data
    {
      {this, pool, fifo, fifo.ring} + ObjectsOf(Ours())
    }

    constructor (pool: Pool, fifo: Fifo<PoolFrame?>)
      requires pool.Valid() && pool.all == pool.free == []
      requires fifo.Valid() && fifo.Contents() == []
      ensures Valid() && Use() == Usage({}, [], fifo.maxSize, 0)
      ensures this.pool == pool && this.fifo == fifo && AreIntact(0)
      ensures repr == parts == {this, pool, fifo, fifo.ring} && contents == frames == {}
      ensures partial == null && delivered == [] && taken == []
    {
      this.pool, this.fifo := pool, fifo;
      partial, delivered, taken := null, [], [];
      new;
      Begin();
    }

    // At first nobody has a frame.
    ghost method Begin()
      requires pool.Valid() && fifo.Valid() && pool.all == pool.free == [] && partial == null
      requires fifo.Contents() == []
      requires delivered == [] && taken == []
      modifies this`repr, this`parts, this`contents, this`frames
      ensures Valid() && Use() == Usage({}, [], fifo.maxSize, 0) && AreIntact(0)
      ensures repr == parts == {this, pool, fifo, fifo.ring} && contents == frames == {}
    {
      hide Pool.Valid, Fifo.Valid, Window;
      repr := {this, pool, fifo, fifo.ring};
      parts, contents, frames := repr, {}, {};
      assert Others([], [], null, []) == {} && Ours() == {};
    }

    /** A frame for the parser to fill, of room for so many bytes. */
    method Get(size: nat, hasFrame: bool, block: Memory) returns (frame: PoolFrame?)
      requires Valid() && partial == null
      modifies repr
      ensures Valid() && partial == frame && fresh(repr - old(repr)) && fresh(parts - old(parts))
      ensures fresh(contents - old(contents))
      ensures frame != null ==> frame.size == size && frame.info.IsCleared() && frame.IsSound()
      ensures hasFrame && block.Block? ==> frame != null
      ensures Use() == old(Use()) && delivered == old(delivered)
    {
      IsMine();
      hide AreOwned, FrameInfo.IsCleared, PoolFrame.IsSound, Pool.Valid;
      hide IsShared, Fifo.Valid, Footprint, Use, Waiting, FrameOf;
      hide HasParts, IsWithin;
      frame := TakePart(size, hasFrame, block);
    }

    // No other frames than there were, but for the one handed out.
    ghost predicate AreKept(all: seq<PoolFrame>, free: seq<PoolFrame>, frame: PoolFrame?)
      reads pool
    {
      && (forall f | f in pool.all :: f in all || f == frame)
      && (forall f | f in pool.free :: f in free)
    }

    // The same, with what there is then.
    method TakePart(size: nat, hasFrame: bool, block: Memory) returns (frame: PoolFrame?)
      requires IsShared() && IsWithin() && HasParts() && partial == null && repr == Footprint()
      modifies this`partial, this`repr, this`parts, this`contents, this`frames, pool, pool.First()
      modifies set f | f in pool.First() :: f.info
      ensures IsShared() && IsWithin() && HasParts() && partial == frame
      ensures repr == Footprint() && fresh(repr - old(repr)) && fresh(parts - old(parts))
      ensures fresh(contents - old(contents))
      ensures frame != null ==> frame.size == size && frame.info.IsCleared() && frame.IsSound()
      ensures hasFrame && block.Block? ==> frame != null
      ensures Use() == old(Use()) && Waiting() == old(Waiting())
    {
      hide AreOwned, FrameInfo.IsCleared, PoolFrame.IsSound, Pool.Valid;
      hide IsShared, Fifo.Valid, Footprint, Use, Waiting;
      frame := TakeMine(size, hasFrame, block);
      if frame != null {
        parts, contents := parts + {frame}, contents + {frame.data, frame.info};
        frames := frames + {frame};
      }
    }

    // The same, with what the parser may change then.
    method TakeMine(size: nat, hasFrame: bool, block: Memory) returns (frame: PoolFrame?)
      requires IsShared() && partial == null && repr == Footprint()
      modifies this`partial, this`repr, pool, pool.First()
      modifies set f | f in pool.First() :: f.info
      ensures IsShared() && partial == frame
      ensures repr == Footprint() && fresh(repr - old(repr))
      ensures AreKept(old(pool.all), old(pool.free), frame)
      ensures forall f | f in pool.all ::
                fresh(f.data) || (f in old(pool.all) && f.data == old(f.data))
      ensures forall f | f in pool.all :: fresh(f.info) || f in old(pool.all)
      ensures forall f | f in pool.all ::
                f == frame || (f in old(pool.all) && f.data == old(f.data))
      ensures frame != null ==> frame in pool.all
      ensures frame != null ==> frame.size == size && frame.info.IsCleared() && frame.IsSound()
      ensures frame != null ==> frame in old(pool.free) || fresh(frame)
      ensures hasFrame && block.Block? ==> frame != null
      ensures Use() == old(Use()) && Waiting() == old(Waiting())
    {
      hide AreOwned, FrameInfo.IsCleared, PoolFrame.IsSound, Pool.Valid;
      hide IsShared, Fifo.Valid, Use, Window, FrameOf, AreKept;
      frame := Take(size, hasFrame, block);
      repr := Footprint();
    }

    // The same, with the frames it is of.
    method Take(size: nat, hasFrame: bool, block: Memory) returns (frame: PoolFrame?)
      requires IsShared() && partial == null
      modifies this`partial, pool, pool.First()
      modifies set f | f in pool.First() :: f.info
      ensures IsShared() && partial == frame
      ensures frame != null ==> frame.size == size && frame.info.IsCleared() && frame.IsSound()
      ensures hasFrame && block.Block? ==> frame != null
      ensures Use() == old(Use()) && Waiting() == old(Waiting())
      ensures AreKept(old(pool.all), old(pool.free), frame)
      ensures forall f | f in pool.all ::
                fresh(f.data) || (f in old(pool.all) && f.data == old(f.data))
      ensures forall f | f in pool.all :: fresh(f.info) || f in old(pool.all)
      ensures forall f | f in pool.all ::
                f == frame || (f in old(pool.all) && f.data == old(f.data))
      ensures frame != null ==> frame in pool.all
      ensures frame != null ==> frame in old(pool.free) || fresh(frame)
      ensures forall f | f in Ours() :: f in old(pool.free) || fresh(f)
      ensures forall f | f in Ours() ::
                fresh(f.data) || (f in old(pool.free) && f.data == old(f.data))
      ensures forall f | f in Ours() :: fresh(f.info) || f in old(pool.free)
    {
      FreeOnce(pool);
      hide AreOwned, Others, FrameInfo.IsCleared, Pool.Valid, Fifo.Valid, Window;
      hide IsHandedOut;
      ghost var all, free, waiting := pool.all, pool.free, fifo.Contents();
      NoneIsFree(all, free, partial, waiting);
      frame := pool.Get(size, hasFrame, block);
      OwnedGets(all, free, pool.all, pool.free, waiting, frame);
      partial := frame;
    }

    /** Hands the frame being filled over; refused, it goes back to the pool. */
    method Deliver(frame: PoolFrame) returns (accepted: bool)
      requires Valid() && partial == frame
      modifies repr
      ensures AreIntact(old(|Use().waiting|))
      ensures Valid() && partial == null && repr <= old(repr)
      ensures parts == old(parts) && contents == old(contents)
      ensures accepted == old(HasRoom(Use()))
      ensures delivered == if accepted then old(delivered + [FrameOf(frame)]) else old(delivered)
      ensures Use() == old(Use()).(waiting := old(Use().waiting) + if accepted then [frame] else [])
    {
      IsOfPool();
      hide FrameOf, Valid, AreIntact, Waiting, Use, HasRoom;
      accepted := DeliverOrForget(frame);
      if accepted {
        NewestIsIntact(frame);
      } else {
        NoneIsNew();
      }
    }

    // The same, whatever is in the frame.
    method DeliverOrForget(frame: PoolFrame) returns (accepted: bool)
      requires Valid() && partial == frame
      modifies repr
      ensures Valid() && partial == null && repr <= old(repr)
      ensures parts == old(parts) && contents == old(contents) && frames == old(frames)
      ensures accepted == old(HasRoom(Use()))
      ensures delivered == if accepted then old(delivered + [FrameOf(frame)]) else old(delivered)
      ensures Use() == old(Use()).(waiting := old(Use().waiting) + if accepted then [frame] else [])
      ensures accepted ==> Waiting() == old(Waiting()) + [frame]
      ensures !accepted ==> Waiting() == old(Waiting())
      ensures accepted ==> FrameOf(frame) == old(FrameOf(frame)) && frame.data == old(frame.data)
    {
      IsMine();
      hide FrameOf, Valid, Waiting, Use, HasRoom;
      accepted := DeliverToFifo(frame);
      if !accepted {
        Forget(frame);
      }
    }

    lemma NewestIsIntact(frame: PoolFrame)
      requires |Waiting()| > 0 && Waiting()[|Waiting()| - 1..] == [frame]
      requires frame in frames && frame.data in contents && frame.info in contents
      requires delivered != [] && delivered[|delivered| - 1] == FrameOf(frame)
      ensures AreIntact(|Use().waiting| - 1)
    {
      hide FrameOf, Waiting;
      assert [frame][1..] == [] && Shown([frame]) == [FrameOf(frame)];
      assert delivered[|delivered| - 1..] == [FrameOf(frame)];
    }

    lemma NoneIsNew()
      ensures AreIntact(|Use().waiting|)
    {
      assert Waiting()[|Waiting()|..] == [] && delivered[|delivered|..] == [];
    }

    // Puts the frame being filled in the FIFO if there is room.
    method DeliverToFifo(frame: PoolFrame) returns (accepted: bool)
      requires Valid() && partial == frame
      modifies this`partial, this`repr, this`delivered, fifo`load, fifo`hasOverflowed, fifo.ring
      ensures Valid() && partial == (if accepted then null else frame) && repr <= old(repr)
      ensures accepted == old(HasRoom(Use()))
      ensures delivered == if accepted then old(delivered + [FrameOf(frame)]) else old(delivered)
      ensures Use() == old(Use()).(waiting := old(Use().waiting) + if accepted then [frame] else [])
      ensures Waiting() == old(Waiting()) + if accepted then [frame] else []
      ensures FrameOf(frame) == old(FrameOf(frame))
    {
      RingIsApart(frame);
      hide AreOwned, Others, FrameOf, Pool.Valid, Fifo.Valid, IsShared, Waiting;
      hide IsWithin, HasParts, HasRoom, Footprint, Use;
      ghost var value := FrameOf(frame);
      accepted := PushMine(frame);
      if accepted {
        Log(frame, value);
      }
    }

    // What was delivered, as it was then.
    ghost method Log(frame: PoolFrame, value: VideoParser.Frame)
      requires IsWithin() && HasParts() && IsShared()
      requires |delivered| + 1 == |taken| + |Waiting()|
      modifies this`delivered, this`repr
      ensures Valid() && delivered == old(delivered) + [value] && repr == old(Footprint())
      ensures Use() == old(Use()) && FrameOf(frame) == old(FrameOf(frame))
      ensures Waiting() == old(Waiting())
    {
      hide IsWithin, HasParts, IsShared, FrameOf, Waiting;
      delivered, repr := delivered + [value], Footprint();
    }

    lemma RingIsApart(frame: PoolFrame)
      requires Valid() && partial == frame
      ensures var ring: object := fifo.ring; frame.data != ring
    {
      IsOfPool();
      hide Valid;
    }

    // The FIFO's part of it.
    method PushMine(frame: PoolFrame) returns (accepted: bool)
      requires IsShared() && partial == frame
      requires var ring: object := fifo.ring; frame.data != ring
      modifies this`partial, fifo`load, fifo`hasOverflowed, fifo.ring
      ensures IsShared() && FrameOf(frame) == old(FrameOf(frame))
      ensures partial == (if accepted then null else frame) && accepted == old(HasRoom(Use()))
      ensures Waiting() == old(Waiting()) + if accepted then [frame] else []
      ensures Use() == old(Use()).(waiting := old(Use().waiting) + if accepted then [frame] else [])
      ensures IsWithin() == old(IsWithin()) && HasParts() == old(HasParts())
      ensures Footprint() <= old(Footprint()) && (!accepted ==> Footprint() == old(Footprint()))
    {
      hide IsShared, FrameOf, HasRoom, Use, Waiting;
      accepted := PushOwned(frame);
    }

    // What becomes of who has the frames.
    method PushOwned(frame: PoolFrame) returns (accepted: bool)
      requires IsShared() && partial == frame
      modifies this`partial, fifo`load, fifo`hasOverflowed, fifo.ring
      ensures IsShared()
      ensures partial == (if accepted then null else frame) && accepted == old(HasRoom(Use()))
      ensures Waiting() == old(Waiting()) + if accepted then [frame] else []
      ensures Use() == old(Use()).(waiting := old(Use().waiting) + if accepted then [frame] else [])
    {
      hide AreOwned, Others, FrameOf, Pool.Valid, Fifo.Valid, Window;
      OwnedDelivers(pool.all, pool.free, frame, fifo.Contents());
      IsOwned(pool.all, pool.free, frame, fifo.Contents());
      accepted := fifo.Push(frame);
      if accepted {
        partial := null;
      }
    }

    /** Gives the frame being filled back to the pool. */
    method Forget(frame: PoolFrame)
      requires Valid() && partial == frame
      modifies repr
      ensures Valid() && partial == null && repr == old(repr)
      ensures parts == old(parts) && contents == old(contents) && frames == old(frames)
      ensures Use() == old(Use()) && delivered == old(delivered) && Waiting() == old(Waiting())
    {
      IsMine();
      hide AreOwned, Others, FrameOf, Pool.Valid, Fifo.Valid, IsShared, Footprint, Waiting, Use;
      hide IsWithin, HasParts;
      ForgetMine(frame);
    }

    // The pool's part of it.
    method ForgetMine(frame: PoolFrame)
      requires IsShared() && partial == frame
      modifies this`partial, pool`freeList, pool`numFree, pool`free, frame`isFree, frame`nextFree
      ensures IsShared() && partial == null && Footprint() == old(Footprint())
      ensures IsWithin() == old(IsWithin()) && HasParts() == old(HasParts())
      ensures Use() == old(Use()) && Waiting() == old(Waiting())
    {
      hide AreOwned, Others, Pool.Valid, Fifo.Valid, Window, Footprint, FrameOf;
      OwnedDelivers(pool.all, pool.free, frame, fifo.Contents());
      IsOwned(pool.all, pool.free, frame, fifo.Contents());
      GiveBack(frame);
    }

    // The frame being filled to the free ones.
    method GiveBack(frame: PoolFrame)
      requires pool.Valid() && partial == frame && frame in pool.all && frame !in pool.free
      modifies this`partial, pool`freeList, pool`numFree, pool`free, frame`isFree, frame`nextFree
      ensures pool.Valid() && pool.free == [frame] + old(pool.free) && partial == null
      ensures Footprint() == old(Footprint())
    {
      hide Pool.Valid, ObjectsOf;
      ghost var ours := Ours();
      var _ := pool.Return(frame);
      partial := null;
      assert Ours() == ours;
    }

    // What is the parser's to change.
    lemma IsMine()
      requires repr == Footprint()
      ensures this in repr && pool in repr && fifo in repr && fifo.ring in repr
      ensures forall f | f in pool.First() :: f in repr && f.info in repr
      ensures partial != null ==> partial in repr && partial.data in repr && partial.info in repr
    {
      hide AreOwned, Pool.Valid, Fifo.Valid;
    }

    /** The application reads the oldest frame that waits: it is as it was delivered. */
    method Read() returns (frame: PoolFrame?)
      requires Valid()
      modifies this`taken, fifo`head, fifo`load
      ensures old(AreIntact(0)) ==> AreIntact(0)
      ensures old(AreIntact(0)) && frame != null ==> IsDelivered(frame, |old(taken)|)
      ensures Valid()
      ensures if frame == null then Use() == old(Use()) && Use().waiting == [] && taken == old(taken)
              else IsRead(old(Use()), Use(), frame) && taken == old(taken) + [frame]
    {
      hide Waiting, FrameOf;
      ghost var queue := Waiting();
      IsInParts();
      if queue != [] {
        FirstIsDelivered(queue);
      }
      hide Valid, IsDelivered, AreDelivered, Use, IsRead;
      assert queue[0..] == queue;
      frame := ReadFirst();
      assert Waiting()[0..] == Waiting() && (frame != null ==> Waiting() == queue[1..]);
    }

    // The first of frames that are intact.
    lemma FirstIsDelivered(queue: seq<PoolFrame?>)
      requires Valid() && queue == Waiting() != []
      ensures AreDelivered(queue) ==>
        && AreDelivered(queue[1..])
        && queue[0] != null && IsDelivered(queue[0], |delivered| - |queue|)
    {
      WaitingIsKept();
      hide Valid, Waiting, FrameOf;
      assert IsKept(queue[0]);
      if AreDelivered(queue) {
        var all := delivered[|delivered| - |queue|..];
        assert all == [FrameOf(queue[0])] + Shown(queue[1..]);
        assert all[1..] == Shown(queue[1..]) && all[1..] == delivered[|delivered| - |queue| + 1..];
      }
    }

    // The same, whatever the frames are.
    method ReadFirst() returns (frame: PoolFrame?)
      requires Valid()
      modifies this`taken, fifo`head, fifo`load
      ensures Valid()
      ensures if frame == null then Use() == old(Use()) && Use().waiting == [] && taken == old(taken)
              else IsRead(old(Use()), Use(), frame) && taken == old(taken) + [frame]
      ensures old(Waiting()) == (if frame == null then [] else [frame]) + Waiting()
      ensures old(|delivered| == |taken| + |Waiting()|)
    {
      hide AreOwned, Others, FrameOf, Pool.Valid, Fifo.Valid, IsShared, Waiting;
      frame := PopMine();
      if frame != null {
        assert |old(Waiting())| == 1 + |Waiting()|;
        taken := taken + [frame];
      }
    }

    // The FIFO's part of it.
    method PopMine() returns (frame: PoolFrame?)
      requires IsShared()
      modifies fifo`head, fifo`load
      ensures IsShared() && (frame == null <==> old(Waiting()) == [])
      ensures frame != null ==>
        && old(Waiting()) == [frame] + Waiting() && frame !in old(Use().inHands)
        && Use() == old(Use()).(waiting := Waiting(), inHands := old(Use().inHands) + {frame})
      ensures frame == null ==> Use() == old(Use()) && Waiting() == old(Waiting())
    {
      hide AreOwned, Others, FrameOf;
      ghost var waiting := fifo.Contents();
      if waiting != [] {
        OwnedReads(pool.all, pool.free, partial, waiting);
      }
      var popped;
      popped, frame := fifo.Pop();
      assert popped ==> waiting[0] == frame && waiting[1..] == fifo.Contents();
      if !popped {
        frame := null;
      }
    }

    /** Whether a frame is being filled, or waits. */
    ghost predicate IsOurs(frame: PoolFrame)
      reads this`partial, fifo, fifo.ring
    {
      frame == partial || frame in Waiting()
    }

    /**
     * The application returns a frame. One that it has is taken back, and a free or a foreign
     * one refused. One that is being filled or waits is taken back too, and is then in use and
     * free.
     */
    method Return(frame: PoolFrame) returns (returned: bool)
      requires Valid()
      modifies this`repr, pool`freeList, pool`numFree, pool`free, frame`isFree, frame`nextFree
      ensures old(AreIntact(0)) ==> AreIntact(0)
      ensures returned <==> frame in old(Use().inHands) || old(IsOurs(frame))
      ensures old(IsOurs(frame)) ==> !AreOwned(pool.all, pool.free, partial, Waiting())
      ensures !old(IsOurs(frame)) ==>
        && Valid() && repr <= old(repr) + parts + contents
        && Use() == old(Use()).(inHands := old(Use().inHands) - {frame})
    {
      IsInParts();
      hide AreOwned, Valid, Waiting, Use, IsOurs, Shown;
      returned := TakeBack(frame);
    }

    // The same, whatever the frames are.
    method TakeBack(frame: PoolFrame) returns (returned: bool)
      requires Valid()
      modifies this`repr, pool`freeList, pool`numFree, pool`free, frame`isFree, frame`nextFree
      ensures Waiting() == old(Waiting())
      ensures returned <==> frame in old(Use().inHands) || old(IsOurs(frame))
      ensures old(IsOurs(frame)) ==> !AreOwned(pool.all, pool.free, partial, Waiting())
      ensures !old(IsOurs(frame)) ==>
        && Valid() && repr <= old(repr) + parts + contents
        && Use() == old(Use()).(inHands := old(Use().inHands) - {frame})
      ensures frame !in parts ==>
        frame.isFree == old(frame.isFree) && frame.nextFree == old(frame.nextFree)
    {
      hide AreOwned, Others, Pool.Valid, Fifo.Valid, IsShared, Waiting, Use;
      hide IsOurs, IsWithin, HasParts;
      returned := ReturnMine(frame);
      repr := Footprint();
    }

    // The pool's part of it.
    method ReturnMine(frame: PoolFrame) returns (returned: bool)
      requires IsShared() && IsWithin() && HasParts()
      modifies pool`freeList, pool`numFree, pool`free, frame`isFree, frame`nextFree
      ensures returned <==> frame in old(Use().inHands) || old(IsOurs(frame))
      ensures Waiting() == old(Waiting())
      ensures old(IsOurs(frame)) ==> !AreOwned(pool.all, pool.free, partial, Waiting())
      ensures !old(IsOurs(frame)) ==>
        && IsShared() && IsWithin() && HasParts()
        && Use() == old(Use()).(inHands := old(Use().inHands) - {frame})
        && Footprint() <= old(Footprint()) + parts + contents
      ensures frame !in parts ==>
        frame.isFree == old(frame.isFree) && frame.nextFree == old(frame.nextFree)
    {
      hide AreOwned, Others, Pool.Valid, Fifo.Valid, Window;
      if frame != partial && frame !in fifo.Contents() {
        OwnedReturns(pool.all, pool.free, partial, fifo.Contents(), frame);
      }
      ReturnIsSafe(pool.all, pool.free, partial, fifo.Contents(), frame);
      returned := pool.Return(frame);
      FreeOnce(pool);
    }

    // The frame being filled.
    lemma IsOfPool()
      requires Valid() && partial != null
      ensures partial in pool.all && partial !in pool.free && partial.IsSound()
      ensures partial in repr && partial.data in repr && partial.info in repr
      ensures partial.data !in parts && partial.info !in parts
      ensures partial in frames && partial.data in contents && partial.info in contents
      ensures this in parts && pool in parts && fifo in parts && fifo.ring in parts
    {
      IsMine();
      hide Pool.Valid, Fifo.Valid, Waiting, AreOwned, Footprint, PoolFrame.IsSound;
      IsOwned(pool.all, pool.free, partial, fifo.Contents());
      AllAreSound(pool);
    }

    lemma IsInParts()
      requires Valid()
      ensures this in parts && pool in parts && fifo in parts && fifo.ring in parts
      ensures parts !! contents && forall f | f in frames :: f in parts
    {
      hide IsShared, Footprint, Waiting;
    }

    /** What waits, or the application has, the parser's calls leave as it is. */
    lemma OthersAreKept(f: PoolFrame)
      requires Valid() && (f in Waiting() || f in Use().inHands)
      ensures f !in repr && f.data !in repr && f.info !in repr
    {
      NoneIsFree(pool.all, pool.free, partial, fifo.Contents());
      DataIsApart(pool);
      OwnedIsApart(pool.all, pool.free, partial, fifo.Contents());
      hide Pool.Valid, AreOwned, Waiting, Use;
      assert f in pool.all && f !in Ours();
      assert f.data !in parts && f.info !in parts;
      var frame: object, data: object, info: object := f, f.data, f.info;
      assert forall g | g in Ours() :: g in pool.all && g in parts;
      assert forall g | g in Ours() :: frame != g && frame != g.data && frame != g.info;
      assert forall g | g in Ours() :: data != g && data != g.data && data != g.info;
      assert forall g | g in Ours() :: info != g && info != g.data && info != g.info;
      IsNotMine(frame);
      IsNotMine(data);
      IsNotMine(info);
      hide Footprint, Ours;
    }

    lemma IsNotMine(o: object)
      requires o != this && o != pool && o != fifo && o != fifo.ring
      requires forall g | g in Ours() :: o != g && o != g.data && o != g.info
      ensures o !in Footprint()
    {
      hide Ours;
    }

    lemma {:induction false} ShownJoin(a: seq<PoolFrame?>, b: seq<PoolFrame?>)
      ensures Shown(a + b) == Shown(a) + Shown(b)
      decreases |a|
    {
      hide FrameOf;
      if a == [] {
        assert a + b == b;
      } else {
        assert (a + b)[1..] == a[1..] + b;
        ShownJoin(a[1..], b);
      }
    }

    /** Whether a frame is among the frames, with its contents. */
    ghost predicate IsKept(f: PoolFrame?)
      reads this`frames, this`contents, frames`data
    {
      f != null && f in frames && f.data in contents && f.info in contents
    }

    twostate lemma {:induction false} ShownStays(queue: seq<PoolFrame?>)
      requires forall f: PoolFrame | f in queue ::
                 && old(IsKept(f)) && IsKept(f) && FrameOf(f) == old(FrameOf(f))
      requires null !in queue
      ensures Shown(queue) == old(Shown(queue))
      decreases |queue|
    {
      hide FrameOf;
      if queue != [] {
        var f := queue[0];
        assert old(IsKept(f)) && IsKept(f);
        ShownStays(queue[1..]);
      }
    }

    lemma WaitingIsKept()
      requires Valid()
      ensures null !in Waiting() && forall f | f in Waiting() :: IsKept(f)
    {
      NoneIsFree(pool.all, pool.free, partial, fifo.Contents());
      hide Pool.Valid, AreOwned, IsWithin, Footprint;
    }

    lemma {:induction false} ShownAt(queue: seq<PoolFrame?>, i: nat)
      requires i < |queue| && null !in queue && forall f | f in queue :: IsKept(f)
      ensures |Shown(queue)| == |queue| && Shown(queue)[i] == FrameOf(queue[i])
      decreases |queue|
    {
      hide FrameOf;
      assert IsKept(queue[0]);
      if |queue| == 1 {
        assert Shown(queue[1..]) == [];
      } else {
        ShownAt(queue[1..], if i > 0 then i - 1 else 0);
      }
    }

    /** Frames that wait are those delivered behind the ones that were read. */
    lemma WaitsAsDelivered(i: nat)
      requires Valid() && AreIntact(0) && i < |Waiting()|
      ensures Waiting()[i] != null && IsDelivered(Waiting()[i], |taken| + i)
    {
      WaitingIsKept();
      NumbersAdd();
      hide Valid, Waiting, IsKept, FrameOf, Use;
      var queue := Waiting();
      assert queue[0..] == queue;
      ShownAt(queue, i);
    }

    lemma NumbersAdd()
      requires Valid()
      ensures |delivered| == Use().numRead + |Waiting()| && Use().waiting == Waiting()
    {
      hide IsShared, IsWithin, HasParts, Footprint, Waiting, Others;
    }

    /** What was intact stays so when frames that are come behind it. */
    lemma MoreAreIntact(was: seq<VideoParser.Frame>, queue: seq<PoolFrame?>)
      requires queue <= Waiting() && was <= delivered && |queue| <= |was|
      requires Shown(queue) == was[|was| - |queue|..]
      requires |was| - |queue| == |delivered| - |Waiting()| && AreIntact(|queue|)
      ensures AreIntact(0)
    {
      hide Waiting;
      var more := Waiting()[|queue|..];
      assert Waiting()[0..] == Waiting() == queue + more;
      ShownJoin(queue, more);
      hide Shown;
      var first := |was| - |queue|;
      assert delivered[first..] == was[first..] + delivered[|was|..];
    }
  }
}
