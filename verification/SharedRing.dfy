// The buffer that a transmit pipe shares with the card: what each side may touch, and when.

/**
 * The host writes packets behind its write offset and the card reads them behind its read
 * offset, each at its own pace. The model counts positions from the start of the stream, so
 * that the offsets are positions modulo the size of the buffer.
 */
module SharedRing {
  import opened Arithmetic
  import opened Bytes

  /** No packet in a pipe is larger: its header counts words in eleven bits. */
  const MAX_PACKET: nat := 2047 * 8

  // ---------------------------------------------------------------- Positions

  /** How far offset k of a buffer of so many bytes is ahead of a position. */
  function Ahead(k: int, position: int, size: nat): (d: nat)
    requires size > 0
    ensures d < size
  {
    (k - position) % size
  }

  // The offset of a position is as far ahead as the position is.
  lemma AheadOfPosition(i: nat, position: nat, size: nat)
    requires 0 < size && position <= i < position + size
    ensures Ahead(i % size, position, size) == i - position
  {
    var q := i / size;
    assert i == size * q + i % size;
    ModShift(i - position, -q, size);
    assert i % size - position == i - position + size * (-q);
  }

  lemma ModShift(x: nat, k: int, size: nat)
    requires x < size
    ensures (x + size * k) % size == x
  {
    DivUnique(x + size * k, size, k) by {
      assert k * size == size * k;
    }
    DivBounds(x + size * k, size);
  }

  // A position behind, less than a turn, is the rest of the turn ahead.
  lemma AheadOfBehind(i: nat, position: nat, size: nat)
    requires i < position <= i + size
    ensures Ahead(i % size, position, size) == i - position + size
  {
    var q := i / size;
    assert i == size * q + i % size;
    ModShift(i - position + size, -q - 1, size);
    assert i % size - position == (i - position + size) + size * (-q - 1);
  }

  // ---------------------------------------------------------------- The ring

  /**
   * The buffer, everything committed to it since the start, how much of that the card has
   * read, and how much of it the card has been told of.
   */
  datatype Ring = Ring(data: seq<Byte>, word: nat, history: seq<Byte>, read: nat, told: nat)

  /** The bytes the card has not read. */
  function Load(r: Ring): int {
    |r.history| - r.read
  }

  /** The room the host may write in: one data word always stays free. */
  function Room(r: Ring): int {
    |r.data| - r.word - Load(r)
  }

  predicate IsRing(r: Ring) {
    0 < r.word < |r.data| && r.read <= r.told <= |r.history| && Room(r) >= 0
  }

  /** The unread bytes are where the card will read them. */
  ghost predicate Holds(data: seq<Byte>, history: seq<Byte>, from: nat)
    requires |data| > 0
  {
    forall i | from <= i < |history| :: data[i % |data|] == history[i]
  }

  ghost predicate IsIntact(r: Ring) {
    IsRing(r) && Holds(r.data, r.history, r.read)
  }

  /** data differs from was only in so many bytes ahead of a position. */
  ghost predicate OnlyAhead(was: seq<Byte>, data: seq<Byte>, position: nat, n: nat)
  {
    && |data| == |was| > 0
    && forall k | 0 <= k < |was| && Ahead(k, position, |was|) >= n :: data[k] == was[k]
  }

  /** The bytes that are ahead of a position. */
  function BytesAhead(data: seq<Byte>, position: nat, n: nat): (s: seq<Byte>)
    requires |data| > 0
    ensures |s| == n
  {
    seq(n, j requires 0 <= j < n => data[(position + j) % |data|])
  }

  /** Writing in the room ahead of the host's offset leaves every unread byte as it is. */
  lemma WritingAhead(r: Ring, data: seq<Byte>, n: nat)
    requires IsIntact(r) && n <= Room(r) && OnlyAhead(r.data, data, |r.history|, n)
    ensures IsIntact(r.(data := data)) && |data| == |r.data|
  {
    forall i | r.read <= i < |r.history|
      ensures data[i % |data|] == r.history[i]
    {
      AheadOfBehind(i, |r.history|, |data|);
    }
  }

  /** Committing what is in the room makes it the card's to read. */
  lemma Committing(r: Ring, n: nat)
    requires IsIntact(r) && n <= Room(r)
    ensures var t := r.(history := r.history + BytesAhead(r.data, |r.history|, n));
      IsIntact(t) && Room(t) == Room(r) - n
  {
  }

  /** What the card reads is what was committed, whatever the host has written meanwhile. */
  lemma CardReads(r: Ring, n: nat)
    requires IsIntact(r) && r.read + n <= r.told
    ensures BytesAhead(r.data, r.read, n) == r.history[r.read..r.read + n]
    ensures IsIntact(r.(read := r.read + n)) && Room(r.(read := r.read + n)) == Room(r) + n
  {
  }

  /** The load, worked out from the two offsets. */
  function LoadBytes(writeOffset: nat, offset: nat, size: nat): (n: nat)
    requires 0 < size
    ensures n < size
  {
    (writeOffset + size - offset) % size
  }

  lemma LoadBytesIsLoad(from: nat, to: nat, size: nat)
    requires 0 < size && from <= to < from + size
    ensures LoadBytes(to % size, from % size, size) == to - from
  {
    var x, y := from / size, to / size;
    assert from == size * x + from % size;
    assert to == size * y + to % size;
    assert to % size + size - from % size == to - from + size * (1 + x - y);
    hide *;
    ModShift(to - from, 1 + x - y, size);
  }

  lemma SameOffset(a: nat, b: nat, size: nat)
    requires 0 < size && a <= b < a + size && a % size == b % size
    ensures a == b
  {
    LoadBytesIsLoad(a, b, size);
    assert LoadBytes(b % size, a % size, size) == 0;
  }

  // What the card may read of what it was told of.
  lemma LoadToTold(r: Ring)
    requires IsIntact(r)
    ensures 0 < |r.data| && r.read <= r.told <= |r.history|
    ensures LoadBytes(r.told % |r.data|, r.read % |r.data|, |r.data|) == r.told - r.read
  {
    hide LoadBytes;
    LoadBytesIsLoad(r.read, r.told, |r.data|);
  }

  // The bytes ahead of an offset are those ahead of the position.
  lemma SameAhead(data: seq<Byte>, position: nat, n: nat)
    requires |data| > 0
    ensures BytesAhead(data, position % |data|, n) == BytesAhead(data, position, n)
  {
    forall j | 0 <= j < n
      ensures BytesAhead(data, position % |data|, n)[j] == BytesAhead(data, position, n)[j]
    {
      OffsetMoves(position, j, |data|, 1);
    }
  }

  /** The free bytes, worked out from the two offsets. */
  function FreeBytes(readOffset: nat, offset: nat, size: nat, word: nat): (n: nat)
    requires 0 < size
    ensures n < size
  {
    (readOffset + size - word - offset) % size
  }

  /** The two offsets tell the free bytes exactly: a full buffer and an empty one differ. */
  lemma FreeBytesIsRoom(r: Ring)
    requires IsRing(r)
    ensures FreeBytes(r.read % |r.data|, |r.history| % |r.data|, |r.data|, r.word) == Room(r)
  {
    var size := |r.data|;
    var x, y := r.read / size, |r.history| / size;
    assert r.read == size * x + r.read % size;
    assert |r.history| == size * y + |r.history| % size;
    assert r.read % size + size - r.word - |r.history| % size == Room(r) + size * (y - x);
    ModShift(Room(r), y - x, size);
  }

  // What the card has written and the host has not given back.
  lemma Unread(r: Ring, position: nat, n: nat)
    requires IsIntact(r) && r.read <= position && position + n <= |r.history|
    ensures 0 < |r.data| && n < |r.data|
    ensures BytesAhead(r.data, position, n) == r.history[position..position + n]
  {
  }

  lemma ReadIsThere(r: Ring, from: nat, to: nat)
    requires IsIntact(r) && r.read == r.told <= from <= to <= |r.history|
    ensures from <= |r.history| && 0 < |r.data|
    ensures IsIntact(r.(read := from, told := from))
  {
    CardReads(r.(told := from), from - r.read);
  }

  // ---------------------------------------------------------------- The host's two ways to write

  // In place: bytes stored at the host's offset that do not reach the end.
  lemma StoredAhead(was: seq<Byte>, data: seq<Byte>, position: nat, bytes: seq<Byte>, n: nat)
    requires |was| > 0 && position % |was| + n <= |was| && |bytes| <= n
    requires Stored(was, data, position % |was|, bytes)
    ensures OnlyAhead(was, data, position, n)
    ensures BytesAhead(data, position, |bytes|) == bytes
  {
    var size, at := |was|, position % |was|;
    StoredAt(was, data, at, bytes);
    forall k | 0 <= k < size && Ahead(k, position, size) >= n
      ensures data[k] == was[k]
    {
      if at <= k < at + |bytes| {
        AheadInPlace(k, position, size);
      }
    }
    forall j | 0 <= j < |bytes|
      ensures data[(position + j) % size] == bytes[j]
    {
      OffsetInPlace(position, j, size);
    }
    assert BytesAhead(data, position, |bytes|) == bytes;
  }

  lemma AheadInPlace(k: nat, position: nat, size: nat)
    requires 0 < size && position % size <= k < size
    ensures Ahead(k, position, size) == k - position % size
  {
    var q := position / size;
    assert position == size * q + position % size;
    assert size * (-q) == -(size * q);
    hide *;
    AheadIs(k, position, size, k - position % size, -q);
  }

  lemma AheadIs(k: int, position: int, size: nat, ahead: nat, turns: int)
    requires ahead < size && k - position == ahead + size * turns
    ensures Ahead(k, position, size) == ahead
  {
    ModShift(ahead, turns, size);
  }

  lemma OffsetInPlace(position: nat, j: nat, size: nat)
    requires 0 < size && position % size + j < size
    ensures (position + j) % size == position % size + j
  {
    var q := position / size;
    assert position == size * q + position % size;
    ModShift(position % size + j, q, size);
  }

  lemma OffsetWrapped(position: nat, j: nat, size: nat)
    requires 0 < size && size <= position % size + j < 2 * size
    ensures (position + j) % size == position % size + j - size
  {
    var q := position / size;
    assert position == size * q + position % size;
    assert size * (q + 1) == size * q + size;
    hide *;
    ModShift(position % size + j - size, q + 1, size);
  }

  // What is ahead of a position, read in one piece or in two.
  lemma AheadInOnePiece(data: seq<Byte>, position: nat, n: nat)
    requires |data| > 0 && position % |data| + n <= |data|
    ensures BytesAhead(data, position, n) == data[position % |data|..position % |data| + n]
  {
    forall j | 0 <= j < n
      ensures BytesAhead(data, position, n)[j]
           == data[position % |data|..position % |data| + n][j]
    {
      OffsetInPlace(position, j, |data|);
    }
  }

  lemma AheadInTwoPieces(data: seq<Byte>, position: nat, n: nat)
    requires |data| > 0 && |data| - position % |data| <= n <= |data|
    ensures BytesAhead(data, position, n)
         == data[position % |data|..] + data[..n - (|data| - position % |data|)]
  {
    var toEnd := |data| - position % |data|;
    forall j | 0 <= j < n
      ensures BytesAhead(data, position, n)[j]
           == (data[position % |data|..] + data[..n - toEnd])[j]
    {
      if j < toEnd {
        OffsetInPlace(position, j, |data|);
      } else {
        OffsetWrapped(position, j, |data|);
      }
    }
  }

  // In two parts: bytes copied up to the end, and the rest from the start.
  lemma WrappedAhead(was: seq<Byte>, half: seq<Byte>, data: seq<Byte>, position: nat,
                     bytes: seq<Byte>)
    requires |was| > 0 && |was| - position % |was| <= |bytes| <= |was|
    requires Stored(was, half, position % |was|, bytes[..|was| - position % |was|])
    requires Stored(half, data, 0, bytes[|was| - position % |was|..])
    ensures OnlyAhead(was, data, position, |bytes|)
    ensures BytesAhead(data, position, |bytes|) == bytes
  {
    var size, at := |was|, position % |was|;
    TwoParts(was, half, data, at, bytes);
    hide Stored, Ahead;
    forall k | 0 <= k < size && Ahead(k, position, size) >= |bytes|
      ensures data[k] == was[k]
    {
      KeptAround(k, position, size, |bytes|);
    }
    forall j | 0 <= j < |bytes|
      ensures data[(position + j) % size] == bytes[j]
    {
      WhereAround(j, position, size);
    }
    assert BytesAhead(data, position, |bytes|) == bytes;
  }

  // What a copy in two parts leaves where.
  lemma TwoParts(was: seq<Byte>, half: seq<Byte>, data: seq<Byte>, at: nat, bytes: seq<Byte>)
    requires at < |was| && |was| - at <= |bytes| <= |was|
    requires Stored(was, half, at, bytes[..|was| - at]) && Stored(half, data, 0, bytes[|was| - at..])
    ensures var toEnd := |was| - at;
      && |data| == |was|
      && (forall k | 0 <= k < |bytes| - toEnd :: data[k] == bytes[toEnd + k])
      && (forall k | |bytes| - toEnd <= k < at :: data[k] == was[k])
      && (forall k | at <= k < |was| :: data[k] == bytes[k - at])
  {
    StoredAt(was, half, at, bytes[..|was| - at]);
    StoredAt(half, data, 0, bytes[|was| - at..]);
    hide Stored;
  }

  // Offsets too far ahead to be written are between the two parts.
  lemma KeptAround(k: nat, position: nat, size: nat, n: nat)
    requires k < size && n <= size && Ahead(k, position, size) >= n
    ensures n - (size - position % size) <= k < position % size || n < size - position % size
  {
    if k >= position % size {
      AheadInPlace(k, position, size);
    } else {
      AheadWrapped(k, position, size);
    }
  }

  lemma WhereAround(j: nat, position: nat, size: nat)
    requires 0 < size && j < size
    ensures (position + j) % size
         == if j < size - position % size then position % size + j
            else position % size + j - size
  {
    if j < size - position % size {
      OffsetInPlace(position, j, size);
    } else {
      OffsetWrapped(position, j, size);
    }
  }

  // A copy in one or two parts, as it falls.
  lemma CopiedAhead(was: seq<Byte>, half: seq<Byte>, data: seq<Byte>, position: nat,
                    bytes: seq<Byte>, toEnd: nat)
    requires |was| > 0 && |bytes| <= |was|
    requires toEnd == if |was| - position % |was| > |bytes| then |bytes|
                      else |was| - position % |was|
    requires Stored(was, half, position % |was|, bytes[..toEnd])
    requires Stored(half, data, 0, bytes[toEnd..])
    ensures OnlyAhead(was, data, position, |bytes|)
    ensures BytesAhead(data, position, |bytes|) == bytes
  {
    hide OnlyAhead, BytesAhead;
    if toEnd < |bytes| {
      WrappedAhead(was, half, data, position, bytes);
    } else {
      assert bytes[..toEnd] == bytes && data == half;
      StoredAhead(was, data, position, bytes, |bytes|);
    }
  }

  /** Copies bytes into the buffer, in two parts when they reach its end. */
  method StoreAround(data: array<Byte>, at: nat, bytes: seq<Byte>, ghost position: nat)
    requires 0 < data.Length && at == position % data.Length && |bytes| <= data.Length
    modifies data
    ensures OnlyAhead(old(data[..]), data[..], position, |bytes|)
    ensures BytesAhead(data[..], position, |bytes|) == bytes
  {
    hide OnlyAhead, BytesAhead;
    ghost var was := data[..];
    var bytesToEnd := data.Length - at;
    if bytesToEnd > |bytes| {
      bytesToEnd := |bytes|;
    }
    Store(data, at, bytes[..bytesToEnd]);
    ghost var half := data[..];
    Store(data, 0, bytes[bytesToEnd..]);
    CopiedAhead(was, half, data[..], position, bytes, bytesToEnd);
  }

  // Bytes that are there already.
  lemma InPlaceAhead(data: seq<Byte>, position: nat, bytes: seq<Byte>)
    requires |data| > 0 && position % |data| + |bytes| <= |data|
    requires data[position % |data|..position % |data| + |bytes|] == bytes
    ensures OnlyAhead(data, data, position, |bytes|)
    ensures BytesAhead(data, position, |bytes|) == bytes
  {
    hide OnlyAhead, BytesAhead;
    StoredAhead(data, data, position, bytes, |bytes|);
  }

  lemma RingFacts(r: Ring)
    requires IsIntact(r)
    ensures 0 < r.word < |r.data| && Room(r) < |r.data|
  {
  }

  /** A packet written ahead and committed. */
  lemma Committed(r: Ring, data: seq<Byte>, packet: seq<Byte>)
    requires IsIntact(r) && |packet| <= Room(r) && OnlyAhead(r.data, data, |r.history|, |packet|)
    requires BytesAhead(data, |r.history|, |packet|) == packet
    ensures var t := r.(data := data, history := r.history + packet);
      IsIntact(t) && Room(t) == Room(r) - |packet|
  {
    hide OnlyAhead, BytesAhead, Holds;
    WritingAhead(r, data, |packet|);
    Committing(r.(data := data), |packet|);
  }

  // The offset and the alignment of what follows.
  lemma OffsetMoves(position: nat, n: nat, size: nat, word: nat)
    requires 0 < size && 0 < word && position % word == 0 && n % word == 0
    ensures (position % size + n) % size == (position + n) % size
    ensures (position + n) % word == 0
  {
    MultiplesAdd(position, n, word);
    var q := position / size;
    assert position + n == (position % size + n) + size * q;
    hide *;
    ModTurns(position % size + n, q, size);
  }

  lemma ModTurns(x: nat, q: nat, size: nat)
    requires size > 0
    ensures (x + size * q) % size == x % size
  {
    var k := x / size;
    assert x + size * q == x % size + size * (k + q);
    hide *;
    ModShift(x % size, k + q, size);
  }

  lemma AheadWrapped(k: nat, position: nat, size: nat)
    requires 0 < size && k < position % size
    ensures Ahead(k, position, size) == k + size - position % size
  {
    var q := position / size;
    assert position == size * q + position % size;
    assert size * (-q - 1) == -(size * q) - size;
    hide *;
    AheadIs(k, position, size, k + size - position % size, -q - 1);
  }

  // ---------------------------------------------------------------- Every interleaving

  /** The host, the card and the buffer; budget is the room the host still counts on. */
  datatype State = State(ring: Ring, budget: nat, sent: seq<Byte>)

  /**
   * What happens next: the host asks for the free bytes, stores a byte some way ahead of its
   * offset, commits a packet or tells the card how far it is; or the card reads some bytes.
   */
  datatype Step = Measure | StoreByte(ahead: nat, byte: Byte) | Commit(size: nat) | Tell
                | CardTakes(count: nat)

  /** The host keeps to its budget, and the card to what it has been told. */
  predicate IsEnabled(s: State, step: Step) {
    match step
    case Measure => true
    case StoreByte(ahead, byte) => ahead < s.budget
    case Commit(size) => size <= s.budget
    case Tell => true
    case CardTakes(count) => s.ring.read + count <= s.ring.told
  }

  function Next(s: State, step: Step): State
    requires IsRing(s.ring) && IsEnabled(s, step)
  {
    var r := s.ring;
    var size := |r.data|;
    match step
    case Measure =>
      s.(budget := FreeBytes(r.read % size, |r.history| % size, size, r.word))
    case StoreByte(ahead, byte) =>
      s.(ring := r.(data := r.data[(|r.history| + ahead) % size := byte]))
    case Commit(n) =>
      s.(ring := r.(history := r.history + BytesAhead(r.data, |r.history|, n)),
         budget := s.budget - n)
    case Tell => s.(ring := r.(told := |r.history|))
    case CardTakes(n) =>
      s.(ring := r.(read := r.read + n), sent := s.sent + BytesAhead(r.data, r.read, n))
  }

  /** What every step keeps: the card has read what was committed, and the budget is room. */
  ghost predicate IsSafe(s: State) {
    IsIntact(s.ring) && s.budget <= Room(s.ring) && s.sent == s.ring.history[..s.ring.read]
  }

  lemma StepIsSafe(s: State, step: Step)
    requires IsSafe(s) && IsEnabled(s, step)
    ensures IsSafe(Next(s, step))
    ensures s.ring.history <= Next(s, step).ring.history && s.sent <= Next(s, step).sent
  {
    hide BytesAhead, Holds, FreeBytes;
    match step
    case Measure => FreeBytesIsRoom(s.ring);
    case StoreByte(ahead, byte) => StoreByteIsSafe(s, ahead, byte);
    case Commit(size) => Committing(s.ring, size);
    case Tell =>
      assert Holds(s.ring.data, s.ring.history, s.ring.read);
    case CardTakes(count) => CardReads(s.ring, count);
  }

  lemma StoreByteIsSafe(s: State, ahead: nat, byte: Byte)
    requires IsSafe(s) && ahead < s.budget
    ensures IsIntact(Next(s, StoreByte(ahead, byte)).ring)
  {
    var r := s.ring;
    var size := |r.data|;
    var data := Next(s, StoreByte(ahead, byte)).ring.data;
    AheadOfPosition(|r.history| + ahead, |r.history|, size);
    ByteIsAhead(r.data, |r.history|, (|r.history| + ahead) % size, byte, s.budget);
    WritingAhead(r, data, s.budget);
  }

  lemma ByteIsAhead(data: seq<Byte>, position: nat, k: nat, byte: Byte, n: nat)
    requires k < |data| && Ahead(k, position, |data|) < n
    ensures OnlyAhead(data, data[k := byte], position, n)
  {
    hide Ahead;
  }

  /** A run of steps, each possible when it is taken. */
  predicate IsRun(s: State, steps: seq<Step>)
    decreases |steps|
  {
    steps == []
    || (IsRing(s.ring) && IsEnabled(s, steps[0]) && IsRun(Next(s, steps[0]), steps[1..]))
  }

  function AfterRun(s: State, steps: seq<Step>): State
    requires IsRun(s, steps)
    decreases |steps|
  {
    if steps == [] then s else AfterRun(Next(s, steps[0]), steps[1..])
  }

  /**
   * In every interleaving of the host's single stores with the card's reads, the card reads
   * exactly the bytes committed, in order: no unread byte is ever overwritten, and none is
   * read before it is committed.
   */
  lemma {:induction false} RunIsSafe(s: State, steps: seq<Step>)
    requires IsSafe(s) && IsRun(s, steps)
    ensures IsSafe(AfterRun(s, steps))
    ensures s.sent <= AfterRun(s, steps).sent <= AfterRun(s, steps).ring.history
    decreases |steps|
  {
    hide IsSafe, IsEnabled, Next, IsRing;
    if steps != [] {
      StepIsSafe(s, steps[0]);
      RunIsSafe(Next(s, steps[0]), steps[1..]);
    }
    SentIsCommitted(AfterRun(s, steps));
  }

  lemma SentIsCommitted(s: State)
    requires IsSafe(s)
    ensures s.sent <= s.ring.history
  {
  }
}
