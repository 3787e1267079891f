// Source/AvFifo/DtAvRxFifo.c: what a receive FIFO of video does with what the card writes.

module RxFifo {
  import opened Bytes
  import opened FramePool
  import opened RxFrames
  import opened VideoParser
  import opened VideoReceiver
  import opened PipeReader

  /** Parsing one packet more. */
  lemma {:induction false} RunMore(format: Format, s: RxState, arrivals: seq<Arrival>,
                                   envs: seq<Env>, a: Arrival, e: Env)
    requires Inv(s) && |arrivals| == |envs|
    ensures Run(format, s, arrivals + [a], envs + [e])
         == Step(format, Run(format, s, arrivals, envs), a, e)
    decreases |arrivals|
  {
    hide Inv, Step;
    if arrivals == [] {
      assert ([] + [a])[1..] == [] && ([] + [e])[1..] == [];
      RunNothing(format, Step(format, s, a, e));
    } else {
      assert (arrivals + [a])[1..] == arrivals[1..] + [a] && (envs + [e])[1..] == envs[1..] + [e];
      RunMore(format, Step(format, s, arrivals[0], envs[0]), arrivals[1..], envs[1..], a, e);
    }
  }

  lemma RunNothing(format: Format, s: RxState)
    requires Inv(s)
    ensures Run(format, s, [], []) == s
  {
  }

  lemma {:induction false} ArrivalsOfMore(packets: seq<seq<Byte>>, p: seq<Byte>)
    ensures ArrivalsOf(packets + [p]) == ArrivalsOf(packets) + [ArrivalOf(p)]
  {
    hide ArrivalOf;
    if packets == [] {
      assert ([] + [p])[1..] == [];
    } else {
      assert (packets + [p])[1..] == packets[1..] + [p];
      ArrivalsOfMore(packets[1..], p);
    }
  }

  // A pass of the reader: what it hands over, and when it stays in sync.
  method PassOver(reader: Reader, status: Result, writeOffset: nat, setStatus: Result,
                  ghost seen: nat)
    returns (result: Result, packets: nat, lostSync: bool)
    requires reader.Valid() && reader.read <= seen <= |reader.history|
    requires status.Ok? && writeOffset < reader.data.Length
             ==> writeOffset == seen % reader.data.Length
    modifies reader, reader.wrapPacket
    ensures reader.Valid() && reader.history == old(reader.history)
    ensures old(reader.handed) <= reader.handed
    ensures packets == |reader.handed| - |old(reader.handed)|
    ensures var unread := old(reader.history[reader.read..seen]);
      !IsLost(Rest(unread)) ==>
        && reader.base == old(reader.base) && reader.before == old(reader.before)
        && (status.Ok? && writeOffset < reader.data.Length ==>
              reader.read == seen - |Rest(unread)|)
  {
    hide Reader.Valid, Packets, Rest, IsLost;
    result, packets, lostSync := reader.Pass(status, writeOffset, setStatus, seen);
  }

  /** What memory there is for a frame and its data. */
  datatype Supply = Supply(hasFrame: bool, block: Memory)

  predicate IsPlenty(s: Supply) {
    s.hasFrame && s.block.Block?
  }

  /**
   * A receive FIFO: the reader of its pipe, its parser and its frames. envs is what each packet
   * met that was handed over.
   */
  class VideoRxFifo {
    const reader: Reader
    const rx: VideoRx
    var syncErrors: nat
    ghost var envs: seq<Env>

    /** The parser has parsed what the reader has handed over, each packet once and in order. */
    ghost predicate Valid()
      reads this, reader, reader.data, rx, rx.sink, rx.sink.pool, rx.sink.fifo, rx.sink.parts
      reads rx.partial, if rx.partial == null then {} else {rx.partial.data, rx.partial.info}
    {
      && reader.Valid() && rx.Valid() && IsApart()
      && |envs| == |reader.handed|
      && rx.State() == Run(rx.format, INITIAL, ArrivalsOf(reader.handed), envs)
    }

    /** The buffers of the pipe are not those of frames, whoever has them. */
    ghost predicate IsApart()
      reads rx.sink
    {
      && {this, reader, reader.data, reader.wrapPacket} !! rx.Repr()
      && {this, reader, reader.data, reader.wrapPacket} !! rx.sink.parts
      && {this, reader, reader.data, reader.wrapPacket} !! rx.sink.contents
    }

    constructor (reader: Reader, rx: VideoRx)
      requires reader.Valid() && reader.handed == [] && rx.Valid() && rx.State() == INITIAL
      requires var theirs := rx.Repr() + rx.sink.parts + rx.sink.contents;
        {reader, reader.data, reader.wrapPacket} !! theirs
      ensures Valid() && this.reader == reader && this.rx == rx && syncErrors == 0
    {
      this.reader, this.rx, syncErrors, envs := reader, rx, 0, [];
      new;
      RunNothing(rx.format, INITIAL);
    }

    // The packets from number first on, one after the other.
    method ParseNew(handed: seq<seq<Byte>>, first: nat, supply: nat -> Supply)
      requires reader.Valid() && rx.Valid() && IsApart() && first <= |handed| && |envs| == first
      requires rx.State() == Run(rx.format, INITIAL, ArrivalsOf(handed[..first]), envs)
      modifies this`envs, rx.Repr()
      ensures old(rx.sink.AreIntact(0)) ==> rx.sink.AreIntact(0)
      ensures reader.Valid() && rx.Valid() && IsApart() && |envs| == |handed|
      ensures reader.handed == old(reader.handed) && reader.history == old(reader.history)
      ensures reader.base == old(reader.base) && reader.before == old(reader.before)
      ensures reader.read == old(reader.read)
      ensures rx.State() == Run(rx.format, INITIAL, ArrivalsOf(handed), envs)
      ensures old(envs) <= envs && AreMet(envs, first, supply, old(rx.sink.Use()))
      ensures rx.sink.Use().inHands == old(rx.sink.Use().inHands)
    {
      InitialIsSound();
      hide Run, Step, Inv, ArrivalOf, Frames.Valid, Frames.Use, HasRoom, HasOneMore, AreMet;
      hide Frames.AreIntact;
      ghost var use := rx.sink.Use();
      NothingMet(envs, supply, use);
      for i := first to |handed|
        invariant old(rx.sink.AreIntact(0)) ==> rx.sink.AreIntact(0)
        invariant rx.Valid() && IsApart() && |envs| == i && old(envs) <= envs
        invariant fresh(rx.Repr() - old(rx.Repr()))
        invariant rx.State() == Run(rx.format, INITIAL, ArrivalsOf(handed[..i]), envs)
        invariant HasMore(use, rx.sink.Use(), i - first) && AreMet(envs, first, supply, use)
      {
        ghost var was := rx.sink.Use();
        ghost var env := rx.Parse(handed[i], supply(i).hasFrame, supply(i).block);
        RunMore(rx.format, INITIAL, ArrivalsOf(handed[..i]), envs, ArrivalOf(handed[i]), env);
        ArrivalsOfMore(handed[..i], handed[i]);
        assert handed[..i] + [handed[i]] == handed[..i + 1];
        MetMore(envs, env, first, supply, use, was, rx.sink.Use());
        envs := envs + [env];
      }
      assert handed[..|handed|] == handed;
    }

    /**
     * A pass of the receive thread: every packet that the reader finds is parsed, and lost
     * packet boundaries are counted.
     */
    method ThreadPass(status: Result, writeOffset: nat, setStatus: Result, ghost seen: nat,
                      supply: nat -> Supply)
      returns (result: Result, packets: nat)
      requires Valid() && reader.read <= seen <= |reader.history|
      requires status.Ok? && writeOffset < reader.data.Length
               ==> writeOffset == seen % reader.data.Length
      modifies this, reader, reader.wrapPacket, rx.Repr()
      ensures old(rx.sink.AreIntact(0)) ==> rx.sink.AreIntact(0)
      ensures Valid() && old(reader.handed) <= reader.handed && reader.history == old(reader.history)
      ensures packets == |reader.handed| - |old(reader.handed)|
      ensures var unread := old(reader.history[reader.read..seen]);
        !IsLost(Rest(unread)) ==>
          && reader.base == old(reader.base) && reader.before == old(reader.before)
          && (status.Ok? && writeOffset < reader.data.Length ==>
                reader.read == seen - |Rest(unread)|)
      ensures old(envs) <= envs && AreMet(envs, |old(envs)|, supply, old(rx.sink.Use()))
      ensures rx.sink.Use().inHands == old(rx.sink.Use().inHands)
    {
      hide Run, Inv, Frames.Valid, Frames.Use, AreMet, VideoRx.Valid, Reader.Valid, IsApart;
      hide IsLost, Rest, Frames.AreIntact;
      var first := |reader.handed|;
      ghost var before := reader.handed;
      var lostSync;
      result, packets, lostSync := ReadNew(status, writeOffset, setStatus, seen);
      if lostSync {
        CountSyncError();
      }
      assert reader.handed[..first] == before;
      ParseNew(reader.handed, first, supply);
    }

    // What the reader finds.
    method ReadNew(status: Result, writeOffset: nat, setStatus: Result, ghost seen: nat)
      returns (result: Result, packets: nat, lostSync: bool)
      requires reader.Valid() && rx.Valid() && IsApart()
      requires reader.read <= seen <= |reader.history|
      requires status.Ok? && writeOffset < reader.data.Length
               ==> writeOffset == seen % reader.data.Length
      modifies reader, reader.wrapPacket
      ensures old(rx.sink.AreIntact(0)) ==> rx.sink.AreIntact(0)
      ensures reader.Valid() && rx.Valid() && IsApart() && rx.State() == old(rx.State())
      ensures rx.sink.Use() == old(rx.sink.Use()) && reader.history == old(reader.history)
      ensures old(reader.handed) <= reader.handed
      ensures packets == |reader.handed| - |old(reader.handed)|
      ensures var unread := old(reader.history[reader.read..seen]);
        !IsLost(Rest(unread)) ==>
          && reader.base == old(reader.base) && reader.before == old(reader.before)
          && (status.Ok? && writeOffset < reader.data.Length ==>
                reader.read == seen - |Rest(unread)|)
    {
      ReaderIsApart();
      hide Inv, Frames.Valid, Frames.Use, Reader.Valid, VideoRx.HasSink, VideoRx.State;
      hide Packets, Rest, IsLost, VideoRx.Valid, Frames.AreIntact, IsApart;
      result, packets, lostSync := PassOver(reader, status, writeOffset, setStatus, seen);
      rx.IsSame();
    }

    // What the reader changes is nothing of the parser's.
    lemma ReaderIsApart()
      requires rx.Valid() && IsApart()
      ensures var changed: set<object> := {reader, reader.wrapPacket};
        && changed !! {rx, rx.sink, rx.sink.pool, rx.sink.fifo, rx.sink.fifo.ring}
        && changed !! rx.sink.parts && changed !! rx.sink.repr && changed !! rx.sink.contents
        && (rx.partial != null ==> changed !! {rx.partial, rx.partial.data, rx.partial.info})
    {
      rx.sink.IsInParts();
      if rx.partial != null {
        rx.sink.IsOfPool();
      }
      hide Inv, Frames.Valid, VideoRx.State;
    }

    method CountSyncError()
      requires reader.Valid() && rx.Valid() && IsApart()
      modifies this`syncErrors
      ensures old(rx.sink.AreIntact(0)) ==> rx.sink.AreIntact(0)
      ensures syncErrors == old(syncErrors) + 1
      ensures reader.Valid() && rx.Valid() && IsApart() && rx.State() == old(rx.State())
      ensures rx.sink.Use() == old(rx.sink.Use())
    {
      rx.sink.IsInParts();
      if rx.partial != null {
        rx.sink.IsOfPool();
      }
      hide Inv, Frames.Valid, Frames.Use, Reader.Valid, VideoRx.HasSink, VideoRx.State;
      hide Frames.AreIntact;
      syncErrors := syncErrors + 1;
    }

    /** The card writes on. */
    method CardWrites(bytes: seq<Byte>)
      requires Valid() && |bytes| <= SharedRing.Room(reader.Shared())
      modifies reader`history, reader`cardOffset, reader.data
      ensures old(rx.sink.AreIntact(0)) ==> rx.sink.AreIntact(0)
      ensures Valid() && reader.history == old(reader.history) + bytes
      ensures rx.sink.Use() == old(rx.sink.Use())
    {
      DataIsApart();
      hide Inv, Frames.Valid, Frames.Use, Reader.Valid, VideoRx.HasSink, VideoRx.State;
      hide VideoRx.Valid, Run, Frames.AreIntact;
      reader.CardWrites(bytes);
      rx.IsSame();
    }

    lemma DataIsApart()
      requires rx.Valid() && IsApart()
      ensures var changed: set<object> := {reader, reader.data};
        && changed !! {rx, rx.sink, rx.sink.pool, rx.sink.fifo, rx.sink.fifo.ring}
        && changed !! rx.sink.parts && changed !! rx.sink.repr && changed !! rx.sink.contents
        && (rx.partial != null ==> changed !! {rx.partial, rx.partial.data, rx.partial.info})
    {
      rx.sink.IsInParts();
      if rx.partial != null {
        rx.sink.IsOfPool();
      }
      hide Inv, Frames.Valid, VideoRx.State;
    }

    /** The application reads the oldest frame that waits: it is as it was delivered. */
    method Read() returns (frame: PoolFrame?)
      requires Valid()
      modifies rx.sink`taken, rx.sink.fifo`head, rx.sink.fifo`load
      ensures old(rx.sink.AreIntact(0)) ==> rx.sink.AreIntact(0)
      ensures old(rx.sink.AreIntact(0)) && frame != null ==>
                rx.sink.IsDelivered(frame, |old(rx.sink.taken)|)
      ensures Valid()
      ensures if frame == null then rx.sink.Use() == old(rx.sink.Use()) && rx.sink.Use().waiting == []
              else IsRead(old(rx.sink.Use()), rx.sink.Use(), frame)
      ensures rx.sink.taken == old(rx.sink.taken) + if frame == null then [] else [frame]
    {
      hide Inv, Frames.Valid, Frames.Use, Reader.Valid, Run, VideoRx.State, ArrivalsOf, IsRead;
      hide Frames.AreIntact, Frames.IsDelivered;
      frame := rx.sink.Read();
    }

    /**
     * The application returns a frame. One that it has is taken back, and a free or a foreign
     * one refused. One that is being filled or waits, which it cannot have, is taken back too.
     */
    method ReturnToMemPool(frame: PoolFrame) returns (returned: bool)
      requires Valid()
      modifies rx.sink`repr, rx.sink.pool`freeList, rx.sink.pool`numFree, rx.sink.pool`free
      modifies frame`isFree, frame`nextFree
      ensures old(rx.sink.AreIntact(0)) ==> rx.sink.AreIntact(0)
      ensures returned <==> frame in old(rx.sink.Use().inHands) || old(rx.sink.IsOurs(frame))
      ensures !old(rx.sink.IsOurs(frame)) ==>
        && Valid()
        && rx.sink.Use()
           == old(rx.sink.Use()).(inHands := old(rx.sink.Use().inHands) - {frame})
    {
      hide Inv, Frames.Valid, Frames.Use, Reader.Valid, Run, VideoRx.State, ArrivalsOf;
      hide Frames.AreIntact, AreOwned, Frames.Waiting;
      returned := rx.sink.Return(frame);
    }
  }

  lemma InitialIsSound()
    ensures Inv(INITIAL)
  {
  }

  /** At most so many more frames wait, and the application has those it had. */
  ghost predicate HasMore(was: Usage, now: Usage, n: int) {
    && now.inHands == was.inHands && now.maxSize == was.maxSize && now.numRead == was.numRead
    && |now.waiting| <= |was.waiting| + n
  }

  /** With memory there is a frame, and it is taken as long as the FIFO cannot be full. */
  ghost predicate AreMet(envs: seq<Env>, first: nat, supply: nat -> Supply, use: Usage) {
    forall i: nat | first <= i < |envs| ::
      && (IsPlenty(supply(i)) ==> envs[i].hasMemory)
      && (|use.waiting| + i - first < use.maxSize ==> envs[i].accepts)
  }

  lemma NothingMet(envs: seq<Env>, supply: nat -> Supply, use: Usage)
    ensures HasMore(use, use, 0) && AreMet(envs, |envs|, supply, use)
  {
  }

  // What one packet more met.
  lemma MetMore(envs: seq<Env>, env: Env, first: nat, supply: nat -> Supply, use: Usage,
                was: Usage, now: Usage)
    requires first <= |envs| && HasOneMore(was, now) && HasMore(use, was, |envs| - first)
    requires AreMet(envs, first, supply, use) && env.accepts == HasRoom(was)
    requires supply(|envs|).hasFrame && supply(|envs|).block.Block? ==> env.hasMemory
    ensures HasMore(use, now, |envs| + 1 - first) && AreMet(envs + [env], first, supply, use)
  {
  }
}
