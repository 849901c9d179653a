/** The buffer's position and limit as JfrReader moves them between chunks and
    records: ByteBuffer.position(int) and limit(int), moveToNextChunk, the
    header checks of readChunk, and readEvent's loop over framed records. */
module Stream {
  import opened Wire
  import opened Records

  const CHUNK_HEADER_SIZE: int := 68
  const CPOOL_OFFSET: int := 16
  const META_OFFSET: int := 24
  /** "FLR\0" read as a big-endian int. */
  const CHUNK_MAGIC: jint := 0x464c5200

  /** A ByteBuffer's position and limit; its capacity is the length of the
      buffer, which is a Java int. */
  datatype Cursor = Cursor(pos: int, lim: int)

  predicate ValidCursor(d: seq<byte>, c: Cursor) {
    |d| < 0x8000_0000 && InBuffer(d, c.pos, c.lim)
  }

  /** ByteBuffer.position(newPosition): rejected outside 0 .. limit. */
  function SetPosition(d: seq<byte>, c: Cursor, newPos: int): (r: Result<Cursor>)
    requires ValidCursor(d, c)
    ensures r.Ok? <==> 0 <= newPos <= c.lim
    ensures r.Ok? ==> ValidCursor(d, r.value) && r.value == Cursor(newPos, c.lim)
    ensures r.Err? ==> r.error == IllegalArgument
  {
    if newPos < 0 || newPos > c.lim then Err(IllegalArgument) else Ok(Cursor(newPos, c.lim))
  }

  /** ByteBuffer.limit(newLimit): rejected outside 0 .. capacity; a position
      past the new limit is pulled back to it. */
  function SetLimit(d: seq<byte>, c: Cursor, newLim: int): (r: Result<Cursor>)
    requires ValidCursor(d, c)
    ensures r.Ok? <==> 0 <= newLim <= |d|
    ensures r.Ok? ==> ValidCursor(d, r.value) && r.value.lim == newLim
    ensures r.Ok? ==> r.value.pos == if c.pos <= newLim then c.pos else newLim
    ensures r.Err? ==> r.error == IllegalArgument
  {
    if newLim < 0 || newLim > |d| then Err(IllegalArgument)
    else Ok(Cursor(if c.pos > newLim then newLim else c.pos, newLim))
  }

  /** The size of the chunk starting at `start`: the long at offset 8, cut to
      an int as `(int)` does. */
  function ChunkSize(d: seq<byte>, lim: int, start: int): (r: Result<int>)
    requires 0 <= lim <= |d|
    ensures r.Ok? ==> IsInt(r.value)
  {
    var size :- GetLong(d, lim, start + 8);
    Ok(Wrap32(Long(size)))
  }

  /** moveToNextChunk(p) (JfrReader.java:170-179): when the chunk header at `p`
      ends before the capacity, the position moves past the header and the
      limit to the end of the chunk; otherwise nothing changes. The result is
      the method's boolean and the new cursor. */
  function MoveToNextChunk(d: seq<byte>, c: Cursor, p: int): (r: Result<(bool, Cursor)>)
    requires ValidCursor(d, c) && 0 <= p
    ensures r.Ok? ==> ValidCursor(d, r.value.1)
  {
    var newPos := Wrap32(p + CHUNK_HEADER_SIZE);
    if newPos < |d| then
      var c1 :- SetLimit(d, c, newPos);
      // position(newPos) cannot fail once the limit is newPos
      ChunkEnd(d, Cursor(newPos, c1.lim), p)
    else Ok((false, c))
  }

  /** The end of moveToNextChunk (JfrReader.java:175), with the cursor
      `c` past the header of the chunk at `p`: the limit moves to the end of
      the chunk. */
  function ChunkEnd(d: seq<byte>, c: Cursor, p: int): (r: Result<(bool, Cursor)>)
    requires ValidCursor(d, c)
    ensures r.Ok? ==> ValidCursor(d, r.value.1) && r.value.0
  {
    var size :- ChunkSize(d, c.lim, p);
    var c2 :- SetLimit(d, c, Wrap32(p + size));
    Ok((true, c2))
  }

  /** moveToNextChunk answers true exactly when a whole chunk header fits
      before the capacity. Then the limit is the chunk's end and the position
      the end of the header, or the chunk's end when the stored size is smaller
      than a header; a chunk end outside the buffer is rejected. Otherwise the
      cursor stays as it was, unless `p + 68` overflows a Java int: then the
      wrapped, negative position is below the capacity and the limit rejects it. */
  lemma MoveToNextChunkMoves(d: seq<byte>, c: Cursor, p: int)
    requires ValidCursor(d, c) && 0 <= p <= |d|
    ensures var r := MoveToNextChunk(d, c, p);
      && (|d| <= p + CHUNK_HEADER_SIZE < 0x8000_0000 ==> r == Ok((false, c)))
      && (p + CHUNK_HEADER_SIZE >= 0x8000_0000 ==> r == Err(IllegalArgument))
      && (p + CHUNK_HEADER_SIZE < |d| ==>
            var size := ChunkSize(d, p + CHUNK_HEADER_SIZE, p);
            && size.Ok?
            && var end := Wrap32(p + size.value);
            && (r.Ok? <==> 0 <= end <= |d|)
            && (r.Err? ==> r.error == IllegalArgument)
            && (r.Ok? ==> r.value.0 && r.value.1 == Cursor(if p + CHUNK_HEADER_SIZE <= end then p + CHUNK_HEADER_SIZE else end, end)))
  {
    if p + CHUNK_HEADER_SIZE >= 0x8000_0000 {
      assert Wrap32(p + CHUNK_HEADER_SIZE) == p + CHUNK_HEADER_SIZE - TWO_32;
    }
  }

  // ---------------------------------------------------------------------------
  // Chunk header

  /** The first checks of readChunk (JfrReader.java:182-189): the magic number,
      then the version, a Java int that must lie in 0x20000 .. 0x2ffff. */
  function CheckHeader(d: seq<byte>, lim: int, start: int): (r: Result<int>)
    requires 0 <= lim <= |d|
    ensures r.Ok? ==> 0x20000 <= r.value <= 0x2ffff
  {
    var magic :- GetInt(d, lim, start);
    if magic != CHUNK_MAGIC then Err(NotValidJfr)
    else
      var version :- GetInt(d, lim, start + 4);
      if Int32(version) < 0x20000 || Int32(version) > 0x2ffff then Err(UnsupportedVersion(Int32(version)))
      else Ok(Int32(version))
  }

  /** A chunk passes the header checks exactly when its magic number is
      0x464c5200 and its version lies in 0x20000 .. 0x2ffff; each other case
      is rejected with its own error. */
  lemma CheckHeaderCases(d: seq<byte>, lim: int, start: int, magic: jint, version: jint)
    requires 0 <= lim <= |d|
    requires GetInt(d, lim, start) == Ok(magic) && GetInt(d, lim, start + 4) == Ok(version)
    ensures var r := CheckHeader(d, lim, start);
      && (magic != CHUNK_MAGIC ==> r == Err(NotValidJfr))
      && ((magic == CHUNK_MAGIC && !(0x20000 <= Int32(version) <= 0x2ffff))
          ==> r == Err(UnsupportedVersion(Int32(version))))
      && (r.Ok? <==> magic == CHUNK_MAGIC && 0x20000 <= Int32(version) <= 0x2ffff)
      && (r.Ok? ==> r.value == Int32(version))
  {
    VersionRejected(d, lim, start, magic, version);
    HeaderAccepted(d, lim, start, magic, version);
  }

  lemma VersionRejected(d: seq<byte>, lim: int, start: int, magic: jint, version: jint)
    requires 0 <= lim <= |d|
    requires GetInt(d, lim, start) == Ok(magic) && GetInt(d, lim, start + 4) == Ok(version)
    ensures (magic == CHUNK_MAGIC && !(0x20000 <= Int32(version) <= 0x2ffff))
          ==> CheckHeader(d, lim, start) == Err(UnsupportedVersion(Int32(version)))
  {
  }

  lemma HeaderAccepted(d: seq<byte>, lim: int, start: int, magic: jint, version: jint)
    requires 0 <= lim <= |d|
    requires GetInt(d, lim, start) == Ok(magic) && GetInt(d, lim, start + 4) == Ok(version)
    ensures var r := CheckHeader(d, lim, start);
      && (magic != CHUNK_MAGIC ==> r == Err(NotValidJfr))
      && (r.Ok? <==> magic == CHUNK_MAGIC && 0x20000 <= Int32(version) <= 0x2ffff)
      && (r.Ok? ==> r.value == Int32(version))
  {
    var v := Int32(version);
    if magic == CHUNK_MAGIC {
      if v < 0x20000 || v > 0x2ffff {
        assert CheckHeader(d, lim, start) == Err(UnsupportedVersion(v));
      } else {
        assert CheckHeader(d, lim, start) == Ok(v);
      }
    } else {
      assert CheckHeader(d, lim, start) == Err(NotValidJfr);
    }
  }

  // ---------------------------------------------------------------------------
  // Records

  /** The type ids of the events the reader decodes, as getTypeId found them
      (-1 for a type the metadata does not declare). */
  datatype EventIds = EventIds(executionSample: int, nativeMethodSample: int, allocationInNewTLAB: int,
                               allocationOutsideTLAB: int, monitorEnter: int, threadPark: int)

  /** The `Class<E>` readEvent is asked for; None stands for null. */
  datatype EventClass = ExecutionSampleClass | AllocationSampleClass | ContendedLockClass | OtherClass

  /** How a record of a known type is decoded. */
  datatype Record = ExecutionRecord | AllocationRecord(tlab: bool) | LockRecord(hasTimeout: bool)

  /** readEvent's chain of type tests (JfrReader.java:124-134): the first test
      the type passes decides, and a type that passes none is unknown. */
  function RecordOf(ids: EventIds, t: int): (k: Option<Record>)
    ensures k.None? <==> t !in {ids.executionSample, ids.nativeMethodSample, ids.allocationInNewTLAB,
                                ids.allocationOutsideTLAB, ids.monitorEnter, ids.threadPark}
  {
    if t == ids.executionSample || t == ids.nativeMethodSample then Some(ExecutionRecord)
    else if t == ids.allocationInNewTLAB then Some(AllocationRecord(true))
    else if t == ids.allocationOutsideTLAB then Some(AllocationRecord(false))
    else if t == ids.monitorEnter then Some(LockRecord(false))
    else if t == ids.threadPark then Some(LockRecord(true))
    else None
  }

  /** Whether readEvent(cls) returns a record of this kind. */
  predicate Wanted(cls: Option<EventClass>, k: Record) {
    match k
    case ExecutionRecord => cls == None || cls == Some(ExecutionSampleClass)
    case AllocationRecord(_) => cls == None || cls == Some(AllocationSampleClass)
    case LockRecord(_) => cls == None || cls == Some(ContendedLockClass)
  }

  /** An event is of the class asked for. */
  predicate Matches(cls: Option<EventClass>, e: Event) {
    match e
    case ExecutionSample(_, _, _, _) => cls == None || cls == Some(ExecutionSampleClass)
    case AllocationSample(_, _, _, _, _, _) => cls == None || cls == Some(AllocationSampleClass)
    case ContendedLock(_, _, _, _, _) => cls == None || cls == Some(ContendedLockClass)
  }

  /** The body of a record of a known kind. */
  function Body(d: seq<byte>, p: int, lim: int, k: Record): (r: Result<Parsed<Event>>)
    requires InBuffer(d, p, lim)
    ensures Advanced(r, p, lim)
    ensures r.Ok? ==> match k
                      case ExecutionRecord => r.value.value.ExecutionSample?
                      case AllocationRecord(_) => r.value.value.AllocationSample?
                      case LockRecord(_) => r.value.value.ContendedLock?
  {
    match k
    case ExecutionRecord => ExecutionSampleAt(d, p, lim)
    case AllocationRecord(tlab) => AllocationSampleAt(d, p, lim, tlab)
    case LockRecord(hasTimeout) => ContendedLockAt(d, p, lim, hasTimeout)
  }

  /** readEvent's loop test: bytes remain before the limit, or the next chunk
      can be entered. The cursor is the one the loop goes on with. */
  function HasNext(d: seq<byte>, c: Cursor): (r: Result<(bool, Cursor)>)
    requires ValidCursor(d, c)
    ensures r.Ok? ==> ValidCursor(d, r.value.1)
    ensures r.Ok? && r.value.0 ==> (r.value.1.pos < r.value.1.lim
                                    || (c.pos == c.lim && c.pos + CHUNK_HEADER_SIZE < |d|))
    ensures r.Ok? && !r.value.0 ==> r.value.1 == c && c.pos == c.lim && c.pos + CHUNK_HEADER_SIZE >= |d|
  {
    if c.pos < c.lim then Ok((true, c))
    else
      MoveToNextChunkMoves(d, c, c.pos);
      MoveToNextChunk(d, c, c.pos)
  }

  /** What one record does to readEvent's loop: it is of a kind the loop
      returns, and the cursor is at its body; or it is skipped, and the cursor
      is where the next turn starts. */
  datatype Turn = Found(kind: Record, next: Cursor) | Skipped(next: Cursor)

  /** A record's header (JfrReader.java:122-123): its size, then its type,
      both varints. */
  function RecordHeader(d: seq<byte>, p: int, lim: int): (r: Result<Parsed<(jint, jint)>>)
    requires InBuffer(d, p, lim)
    ensures Advanced(r, p, lim)
  {
    var size :- Varint(d, p, lim);
    var t :- Varint(d, size.next, lim);
    Ok(Parsed((size.value, t.value), t.next))
  }

  /** Where a skipped record ends (JfrReader.java:136): its start plus its
      size, added as Java ints. */
  function Beyond(start: int, size: jint): int {
    Wrap32(start + Int32(size))
  }

  /** One turn of readEvent's loop (JfrReader.java:121-136) from the cursor `c`,
      up to the body of a record it returns: the record's header; a record of a
      known type that `cls` asks for is found, and any other record is skipped
      by moving to its start plus its size. */
  function ReadRecord(d: seq<byte>, c: Cursor, ids: EventIds, cls: Option<EventClass>): (r: Result<Turn>)
    requires ValidCursor(d, c)
    ensures r.Ok? ==> ValidCursor(d, r.value.next) && r.value.next.lim == c.lim
    ensures r.Ok? && r.value.Found? ==> Wanted(cls, r.value.kind)
  {
    var h :- RecordHeader(d, c.pos, c.lim);
    var (size, t) := h.value;
    var k := RecordOf(ids, Int32(t));
    if k.Some? && Wanted(cls, k.value) then Ok(Found(k.value, Cursor(h.next, c.lim)))
    else
      var c2 :- SetPosition(d, Cursor(h.next, c.lim), Beyond(c.pos, size));
      Ok(Skipped(c2))
  }

  /** readEvent's loop (JfrReader.java:120-137), given `fuel` turns: the kind
      of the record it returns, with the cursor at that record's body, or None
      when no bytes and no further chunk remain. A record whose size takes the
      cursor back to itself makes the Java loop run forever; the fuel bounds
      it. */
  function NextRecord(d: seq<byte>, c: Cursor, ids: EventIds, cls: Option<EventClass>, fuel: nat)
    : (r: Result<(Option<Record>, Cursor)>)
    requires ValidCursor(d, c)
    ensures r.Ok? ==> ValidCursor(d, r.value.1)
    ensures r.Ok? && r.value.0.None? ==> r.value.1.pos == r.value.1.lim
                                         && r.value.1.pos + CHUNK_HEADER_SIZE >= |d|
    ensures r.Ok? && r.value.0.Some? ==> Wanted(cls, r.value.0.value)
    decreases fuel
  {
    if fuel == 0 then Err(OutOfFuel)
    else
      var more :- HasNext(d, c);
      if !more.0 then Ok((None, more.1))
      else
        var turn :- ReadRecord(d, more.1, ids, cls);
        match turn
        case Found(k, c1) => Ok((Some(k), c1))
        case Skipped(c2) => NextRecord(d, c2, ids, cls, fuel - 1)
  }

  /** readEvent(cls) (JfrReader.java:118-139): the body of the record its loop
      stops at, decoded as the record's type says, or null. */
  function NextEvent(d: seq<byte>, c: Cursor, ids: EventIds, cls: Option<EventClass>, fuel: nat)
    : (r: Result<(Option<Event>, Cursor)>)
    requires ValidCursor(d, c)
    ensures r.Ok? ==> ValidCursor(d, r.value.1)
    ensures r.Ok? && r.value.0.None? ==> r.value.1.pos == r.value.1.lim
                                         && r.value.1.pos + CHUNK_HEADER_SIZE >= |d|
    ensures r.Ok? && r.value.0.Some? ==> Matches(cls, r.value.0.value)
  {
    var found :- NextRecord(d, c, ids, cls, fuel);
    match found.0
    case None => Ok((None, found.1))
    case Some(k) =>
      var e :- Body(d, found.1.pos, found.1.lim, k);
      Ok((Some(e.value), Cursor(e.next, found.1.lim)))
  }

  /** A record that readEvent does not return is skipped whole: the next turn
      of the loop starts exactly `size` bytes after the record's start, or the
      skip is rejected when that lies outside the buffer's limit. */
  lemma SkipRecord(d: seq<byte>, c: Cursor, ids: EventIds, cls: Option<EventClass>, fuel: nat)
    requires ValidCursor(d, c) && c.pos < c.lim
    requires var size := Varint(d, c.pos, c.lim);
      && size.Ok? && var t := Varint(d, size.value.next, c.lim);
      && t.Ok? && var k := RecordOf(ids, Int32(t.value.value));
      && !(k.Some? && Wanted(cls, k.value))
    ensures var size := Varint(d, c.pos, c.lim).value;
      var t := Varint(d, size.next, c.lim).value;
      var next := Beyond(c.pos, size.value);
      && (0 <= next <= c.lim ==> NextEvent(d, c, ids, cls, fuel + 1) == NextEvent(d, Cursor(next, c.lim), ids, cls, fuel))
      && (!(0 <= next <= c.lim) ==> NextEvent(d, c, ids, cls, fuel + 1) == Err(IllegalArgument))
  {
    var size := Varint(d, c.pos, c.lim).value;
    var next := Beyond(c.pos, size.value);
    SkippedTurn(d, c, ids, cls);
    if 0 <= next <= c.lim {
      assert NextRecord(d, c, ids, cls, fuel + 1) == NextRecord(d, Cursor(next, c.lim), ids, cls, fuel);
    } else {
      assert NextRecord(d, c, ids, cls, fuel + 1) == Err(IllegalArgument);
    }
  }

  /** The turn of readEvent's loop at a record it does not return. */
  lemma SkippedTurn(d: seq<byte>, c: Cursor, ids: EventIds, cls: Option<EventClass>)
    requires ValidCursor(d, c) && c.pos < c.lim
    requires var size := Varint(d, c.pos, c.lim);
      && size.Ok? && var t := Varint(d, size.value.next, c.lim);
      && t.Ok? && var k := RecordOf(ids, Int32(t.value.value));
      && !(k.Some? && Wanted(cls, k.value))
    ensures var size := Varint(d, c.pos, c.lim).value;
      var next := Beyond(c.pos, size.value);
      ReadRecord(d, c, ids, cls) == if 0 <= next <= c.lim then Ok(Skipped(Cursor(next, c.lim))) else Err(IllegalArgument)
  {
  }

  // ---------------------------------------------------------------------------
  // readAllEvents

  /** readAllEvents' loop (JfrReader.java:104-108): readEvent until it answers
      null, the events in the order read. `fuel` bounds both the number of
      events and each readEvent. */
  function AllEvents(d: seq<byte>, c: Cursor, ids: EventIds, cls: Option<EventClass>, fuel: nat, acc: seq<Event>)
    : (r: Result<seq<Event>>)
    requires ValidCursor(d, c)
    ensures r.Ok? ==> acc <= r.value
    decreases fuel, 1
  {
    if fuel == 0 then Err(OutOfFuel) else AllEventsTurn(d, c, ids, cls, fuel, acc)
  }

  /** One turn of readAllEvents' loop: readEvent's error ends the loop with
      that error, null ends it with the events read, and an event is added to
      them before the next turn. */
  function AllEventsTurn(d: seq<byte>, c: Cursor, ids: EventIds, cls: Option<EventClass>, fuel: nat, acc: seq<Event>)
    : (r: Result<seq<Event>>)
    requires ValidCursor(d, c) && fuel > 0
    ensures r.Ok? ==> acc <= r.value
    decreases fuel, 0
  {
    var next :- NextEvent(d, c, ids, cls, fuel);
    if next.0.None? then Ok(acc)
    else AllEvents(d, next.1, ids, cls, fuel - 1, acc + [next.0.value])
  }

  /** `v` starts with the events `acc` and goes on with events of the class
      asked for only. */
  ghost predicate KeepsAfter(cls: Option<EventClass>, acc: seq<Event>, v: seq<Event>) {
    && |acc| <= |v| && v[..|acc|] == acc
    && forall i :: |acc| <= i < |v| ==> Matches(cls, v[i])
  }

  /** Events after `acc + [e]`, with `e` of the class asked for, are events
      after `acc`. */
  lemma KeptAfter(cls: Option<EventClass>, acc: seq<Event>, e: Event, v: seq<Event>)
    requires Matches(cls, e) && KeepsAfter(cls, acc + [e], v)
    ensures KeepsAfter(cls, acc, v)
  {
    assert v[..|acc|] == v[..|acc| + 1][..|acc|];
    assert v[|acc|] == v[..|acc| + 1][|acc|];
  }

  /** readAllEvents from cursor `c`, with `fuel` and the events `acc` read so
      far, ends as it does from `c0`, `fuel0` and `acc0`. */
  ghost predicate SameRun(d: seq<byte>, ids: EventIds, cls: Option<EventClass>,
                          c: Cursor, fuel: nat, acc: seq<Event>, c0: Cursor, fuel0: nat, acc0: seq<Event>)
  {
    && ValidCursor(d, c) && ValidCursor(d, c0)
    && AllEvents(d, c, ids, cls, fuel, acc) == AllEvents(d, c0, ids, cls, fuel0, acc0)
  }

  /** Every successful run of readAllEvents from `c` keeps the events read
      before it and adds only events of the class asked for. */
  ghost predicate KeepsRun(d: seq<byte>, c: Cursor, ids: EventIds, cls: Option<EventClass>, fuel: nat, acc: seq<Event>)
    requires ValidCursor(d, c)
  {
    var r := AllEvents(d, c, ids, cls, fuel, acc);
    r.Ok? ==> KeepsAfter(cls, acc, r.value)
  }

  /** What one turn of readAllEvents' loop leaves: when `more`, an event `e`
      of the class asked for was read and the loop goes on from `c2`; otherwise
      the loop ended, and if without error, with the events read before. */
  lemma NextTurn(d: seq<byte>, c: Cursor, ids: EventIds, cls: Option<EventClass>, fuel: nat, acc: seq<Event>)
    returns (more: bool, e: Event, c2: Cursor)
    requires ValidCursor(d, c) && fuel > 0
    ensures more ==> Matches(cls, e) && SameRun(d, ids, cls, c, fuel, acc, c2, fuel - 1, acc + [e])
    ensures !more ==> KeepsRun(d, c, ids, cls, fuel, acc)
  {
    AllEventsStep(d, c, ids, cls, fuel, acc, fuel - 1);
    var next := NextEvent(d, c, ids, cls, fuel);
    if next.Ok? && next.value.0.Some? {
      more, e, c2 := true, next.value.0.value, next.value.1;
    } else {
      more, e, c2 := false, ExecutionSample(0, 0, 0, 0), c;
    }
  }

  /** readAllEvents keeps the events it has read, in order, and adds only
      events of the class asked for. */
  lemma {:induction false} AllEventsKeeps(d: seq<byte>, c: Cursor, ids: EventIds, cls: Option<EventClass>, fuel: nat, acc: seq<Event>)
    requires ValidCursor(d, c)
    ensures KeepsRun(d, c, ids, cls, fuel, acc)
    decreases fuel
  {
    if fuel > 0 {
      var more, e, c2 := NextTurn(d, c, ids, cls, fuel, acc);
      if more {
        AllEventsKeeps(d, c2, ids, cls, fuel - 1, acc + [e]);
        var r := AllEvents(d, c2, ids, cls, fuel - 1, acc + [e]);
        if r.Ok? {
          KeptAfter(cls, acc, e, r.value);
        }
      }
    }
  }

  /** A turn of readAllEvents' loop that reads an event `e`, leaving the
      cursor at `c2`, adds `e` to the events read and goes on from `c2`. */
  lemma AllEventsNext(d: seq<byte>, c: Cursor, ids: EventIds, cls: Option<EventClass>, fuel: nat, acc: seq<Event>, e: Event, c2: Cursor)
    requires ValidCursor(d, c) && fuel > 0
    requires NextEvent(d, c, ids, cls, fuel) == Ok((Some(e), c2))
    ensures ValidCursor(d, c2)
    ensures AllEvents(d, c, ids, cls, fuel, acc) == AllEvents(d, c2, ids, cls, fuel - 1, acc + [e])
  {
  }

  /** One turn of readAllEvents' loop: an error of readEvent ends it with
      that error, null ends it with the events so far, and an event is added to
      them. */
  lemma AllEventsStep(d: seq<byte>, c: Cursor, ids: EventIds, cls: Option<EventClass>, fuel: nat, acc: seq<Event>, rest: nat)
    requires ValidCursor(d, c) && fuel == rest + 1
    ensures var next := NextEvent(d, c, ids, cls, fuel);
      AllEvents(d, c, ids, cls, fuel, acc) ==
        if next.Err? then Err(next.error)
        else if next.value.0.None? then Ok(acc)
        else AllEvents(d, next.value.1, ids, cls, rest, acc + [next.value.0.value])
  {
    var next := NextEvent(d, c, ids, cls, fuel);
    assert AllEvents(d, c, ids, cls, fuel, acc) == AllEventsTurn(d, c, ids, cls, fuel, acc);
    if next.Ok? && next.value.0.Some? {
      assert AllEventsTurn(d, c, ids, cls, fuel, acc) == AllEvents(d, next.value.1, ids, cls, rest, acc + [next.value.0.value]);
    }
  }

  /** Event.compareTo: by timestamp, as signed longs. */
  predicate NotAfter(a: Event, b: Event) {
    Long(a.time) <= Long(b.time)
  }

  predicate SortedByTime(s: seq<Event>) {
    forall i, j :: 0 <= i < j < |s| ==> NotAfter(s[i], s[j])
  }

  /** Puts `e` into the sorted `s` after every event that is not later. */
  function Insert(e: Event, s: seq<Event>): (r: seq<Event>)
    ensures |r| == |s| + 1
    decreases |s|
  {
    if s == [] then [e]
    else if NotAfter(s[|s| - 1], e) then s + [e]
    else Insert(e, s[..|s| - 1]) + [s[|s| - 1]]
  }

  /** Collections.sort on the events read: a stable sort by timestamp, here an
      insertion sort. */
  function SortByTime(s: seq<Event>): (r: seq<Event>)
    ensures |r| == |s|
    decreases |s|
  {
    if s == [] then [] else Insert(s[|s| - 1], SortByTime(s[..|s| - 1]))
  }

  lemma {:induction false} InsertKeeps(e: Event, s: seq<Event>)
    ensures multiset(Insert(e, s)) == multiset(s) + multiset{e}
    ensures |Insert(e, s)| == |s| + 1
    decreases |s|
  {
    if s != [] && !NotAfter(s[|s| - 1], e) {
      var init := s[..|s| - 1];
      InsertKeeps(e, init);
      assert s == init + [s[|s| - 1]];
    }
  }

  /** Every event of Insert(e, s) is no later than a bound of `e` and `s`. */
  lemma {:induction false} InsertBounded(e: Event, s: seq<Event>, x: Event)
    requires NotAfter(e, x) && forall i :: 0 <= i < |s| ==> NotAfter(s[i], x)
    ensures forall i :: 0 <= i < |Insert(e, s)| ==> NotAfter(Insert(e, s)[i], x)
    decreases |s|
  {
    if s != [] && !NotAfter(s[|s| - 1], e) {
      InsertBounded(e, s[..|s| - 1], x);
    }
  }

  lemma {:induction false} InsertSorted(e: Event, s: seq<Event>)
    requires SortedByTime(s)
    ensures SortedByTime(Insert(e, s))
    decreases |s|
  {
    if s == [] {
    } else if NotAfter(s[|s| - 1], e) {
      var r := s + [e];
      forall i, j | 0 <= i < j < |r| ensures NotAfter(r[i], r[j]) {
        if j < |s| { assert r[i] == s[i] && r[j] == s[j]; }
        else if i < |s| - 1 { assert NotAfter(s[i], s[|s| - 1]); }
      }
    } else {
      var init := s[..|s| - 1];
      var last := s[|s| - 1];
      assert SortedByTime(init);
      InsertSorted(e, init);
      forall i | 0 <= i < |init| ensures NotAfter(init[i], last) {
        assert init[i] == s[i];
      }
      InsertBounded(e, init, last);
      var r := Insert(e, init);
      var full := r + [last];
      forall i, j | 0 <= i < j < |full| ensures NotAfter(full[i], full[j]) {
        if j < |r| { assert full[i] == r[i] && full[j] == r[j]; }
      }
    }
  }

  /** The sort returns the events read, each as often as it was read, ... */
  lemma {:induction false} SortByTimePermutes(s: seq<Event>)
    ensures multiset(SortByTime(s)) == multiset(s)
    decreases |s|
  {
    if s != [] {
      var init, last := s[..|s| - 1], s[|s| - 1];
      SortByTimePermutes(init);
      InsertKeeps(last, SortByTime(init));
      LastOff(s);
    }
  }

  /** A sequence is its front and its last element. */
  lemma LastOff(s: seq<Event>)
    requires s != []
    ensures multiset(s) == multiset(s[..|s| - 1]) + multiset{s[|s| - 1]}
  {
    assert s == s[..|s| - 1] + [s[|s| - 1]];
  }

  /** ... in order of their timestamps. */
  lemma {:induction false} SortByTimeSorts(s: seq<Event>)
    ensures SortedByTime(SortByTime(s))
    decreases |s|
  {
    if s != [] {
      SortByTimeSorts(s[..|s| - 1]);
      InsertSorted(s[|s| - 1], SortByTime(s[..|s| - 1]));
    }
  }
}
