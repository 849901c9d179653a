/** The JfrReader constructor (JfrReader.java:70-92) and readChunk
    (JfrReader.java:181-197), read as functions: every chunk of the file in
    turn has its header checked, its metadata read into the type tables and
    its constant pools into the constant tables; then the recording's times
    and the six event type ids are taken, and the buffer is set on the first
    chunk's records. */
module Chunks {
  import opened Wire
  import opened Names
  import opened Stream
  import opened Meta
  import opened Pools
  import Varints
  import Codec

  /** What the reader holds between chunks: the type tables as a Registry
      and as the name and fields of each class, the constant tables, and the
      buffer's position (the limit stays at the capacity until the end). */
  datatype Loaded = Loaded(g: Registry, infos: map<int, TypeInfo>, tables: Tables, pos: int)

  /** The reader the mapping of the file starts from: nothing registered,
      no constants, the position at 0. */
  const Fresh: Loaded := Loaded(Registry(map[], {}), map[], Tables(map[], map[], map[], map[], map[], map[], map[]), 0)

  /** The type tables agree with each other: types holds a class under
      exactly the ids the registry has. */
  predicate Coherent(st: Loaded) {
    st.infos.Keys == st.g.ids
  }

  /** `buf.position(chunkStart + buf.getInt(chunkStart + offset + 4))`
      (JfrReader.java:191, 194): the int at that header slot, added to the
      chunk's start in Java int arithmetic. */
  function Seek(d: seq<byte>, start: int, offset: int, pos: int): (r: Result<int>)
    requires |d| < 0x8000_0000 && 0 <= pos <= |d|
    ensures r.Ok? ==> 0 <= r.value <= |d|
  {
    var delta :- GetInt(d, |d|, start + offset + 4);
    var c :- SetPosition(d, Cursor(pos, |d|), Wrap32(start + Int32(delta)));
    Ok(c.pos)
  }

  /** readChunk's metadata (JfrReader.java:191-192): the metadata record the
      header points to, registered into the type tables. */
  function ChunkMeta(d: seq<byte>, utf8: seq<byte> -> seq<bv16>, start: int, st: Loaded): (r: Result<Loaded>)
    requires |d| < 0x8000_0000 && 0 <= st.pos <= |d|
    ensures r.Ok? ==> 0 <= r.value.pos <= |d| && r.value.tables == st.tables
  {
    var p :- Seek(d, start, META_OFFSET, st.pos);
    MetaLoaded(d, utf8, p, st)
  }

  /** readMeta from `p`, registering the root it reads into the type tables. */
  function MetaLoaded(d: seq<byte>, utf8: seq<byte> -> seq<bv16>, p: int, st: Loaded): (r: Result<Loaded>)
    requires |d| < 0x8000_0000 && 0 <= p <= |d|
    ensures r.Ok? ==> 0 <= r.value.pos <= |d| && r.value.tables == st.tables
  {
    var meta :- MetaAt(d, p, |d|, utf8);
    var root := meta.value.1;
    Ok(Loaded(RegisterNode(st.g, root), InfosNode(st.infos, root), st.tables, meta.next))
  }

  /** readChunk's constant pools (JfrReader.java:194-195), read with the
      types the metadata declared, given `fuel` pools. */
  function ChunkPool(d: seq<byte>, utf8: seq<byte> -> seq<bv16>, start: int, st: Loaded, fuel: nat): (r: Result<Loaded>)
    requires |d| < 0x8000_0000 && 0 <= st.pos <= |d|
    ensures r.Ok? ==> 0 <= r.value.pos <= |d| && r.value.g == st.g && r.value.infos == st.infos
  {
    var p :- Seek(d, start, CPOOL_OFFSET, st.pos);
    PoolLoaded(d, utf8, p, st, fuel)
  }

  /** readConstantPool from `p` into the constant tables. */
  function PoolLoaded(d: seq<byte>, utf8: seq<byte> -> seq<bv16>, p: int, st: Loaded, fuel: nat): (r: Result<Loaded>)
    requires |d| < 0x8000_0000 && 0 <= p <= |d|
    ensures r.Ok? ==> 0 <= r.value.pos <= |d| && r.value.g == st.g && r.value.infos == st.infos
  {
    var pool :- ConstantPool(d, p, |d|, utf8, st.infos, TypeId(st.g.names, JAVA_LANG_STRING), st.tables, fuel);
    Ok(Loaded(st.g, st.infos, pool.value, pool.next))
  }

  /** readChunk(chunkStart) (JfrReader.java:181-197): the header checks, the
      metadata, the constant pools, and the chunk's size as the answer. */
  function ChunkAt(d: seq<byte>, utf8: seq<byte> -> seq<bv16>, start: int, st: Loaded, fuel: nat)
    : (r: Result<(Loaded, int)>)
    requires |d| < 0x8000_0000 && 0 <= st.pos <= |d|
    ensures r.Ok? ==> 0 <= r.value.0.pos <= |d| && IsInt(r.value.1)
    ensures r.Ok? ==> ChunkSize(d, |d|, start) == Ok(r.value.1)
  {
    var version :- CheckHeader(d, |d|, start);
    ChunkBody(d, utf8, start, st, fuel)
  }

  /** readChunk once the header has passed its checks. */
  function ChunkBody(d: seq<byte>, utf8: seq<byte> -> seq<bv16>, start: int, st: Loaded, fuel: nat)
    : (r: Result<(Loaded, int)>)
    requires |d| < 0x8000_0000 && 0 <= st.pos <= |d|
    ensures r.Ok? ==> 0 <= r.value.0.pos <= |d| && IsInt(r.value.1)
    ensures r.Ok? ==> ChunkSize(d, |d|, start) == Ok(r.value.1)
  {
    var st1 :- ChunkMeta(d, utf8, start, st);
    ChunkRest(d, utf8, start, st1, fuel)
  }

  /** readChunk after its metadata: the constant pools, then the chunk's
      size. */
  function ChunkRest(d: seq<byte>, utf8: seq<byte> -> seq<bv16>, start: int, st: Loaded, fuel: nat)
    : (r: Result<(Loaded, int)>)
    requires |d| < 0x8000_0000 && 0 <= st.pos <= |d|
    ensures r.Ok? ==> 0 <= r.value.0.pos <= |d| && IsInt(r.value.1)
    ensures r.Ok? ==> ChunkSize(d, |d|, start) == Ok(r.value.1)
  {
    var st2 :- ChunkPool(d, utf8, start, st, fuel);
    var size :- ChunkSize(d, |d|, start);
    Ok((st2, size))
  }

  /** Math.max on Java longs. */
  function MaxLong(a: jlong, b: jlong): (r: jlong)
    ensures Long(r) >= Long(a) && Long(r) >= Long(b)
    ensures r == a || r == b
  {
    if Long(a) >= Long(b) then a else b
  }

  /** Java's long addition and subtraction, which wrap around modulo 2^64. */
  function AddLong(a: jlong, b: jlong): jlong { a + b }
  function SubLong(a: jlong, b: jlong): jlong { a - b }

  /** The end of the chunk at `start`: its start time (offset 32) plus its
      duration (offset 40), in long arithmetic. */
  function ChunkEndNanos(d: seq<byte>, start: int): (r: Result<jlong>)
    ensures r.Ok? <==> 0 <= start + 32 && start + 48 <= |d|
    ensures r.Err? ==> r.error == IndexOutOfBounds
    ensures r.Ok? ==> r.value == AddLong(GetLong(d, |d|, start + 32).value, GetLong(d, |d|, start + 40).value)
  {
    var startNanos :- GetLong(d, |d|, start + 32);
    var duration :- GetLong(d, |d|, start + 40);
    Ok(AddLong(startNanos, duration))
  }

  /** The constructor's loop (JfrReader.java:74-77) from the chunk at
      `start`, with the latest chunk end `end` seen so far: each chunk's end
      is taken, the chunk is read, and the loop moves on by its size (in int
      arithmetic) until it reaches the capacity. A chunk whose size is 0
      makes the Java loop read it forever; `fuel` bounds the chunks, and the
      constant pools of each. */
  function ChunksFrom(d: seq<byte>, utf8: seq<byte> -> seq<bv16>, start: int, end: jlong, st: Loaded, fuel: nat)
    : (r: Result<(Loaded, jlong)>)
    requires |d| < 0x8000_0000 && 0 <= st.pos <= |d| && IsInt(start)
    ensures r.Ok? ==> 0 <= r.value.0.pos <= |d|
    decreases fuel, 1
  {
    if start >= |d| then Ok((st, end))
    else if fuel == 0 then Err(OutOfFuel)
    else ChunksNext(d, utf8, start, end, st, fuel)
  }

  /** One turn of the constructor's loop at the chunk at `start`, and the
      turns after it. */
  function ChunksNext(d: seq<byte>, utf8: seq<byte> -> seq<bv16>, start: int, end: jlong, st: Loaded, fuel: nat)
    : (r: Result<(Loaded, jlong)>)
    requires |d| < 0x8000_0000 && 0 <= st.pos <= |d| && IsInt(start) && fuel > 0
    ensures r.Ok? ==> 0 <= r.value.0.pos <= |d|
    decreases fuel, 0
  {
    var turn :- ChunkTurn(d, utf8, start, end, st, fuel);
    ChunksFrom(d, utf8, turn.0, turn.1, turn.2, Spent(fuel))
  }

  /** The body of the constructor's loop at the chunk at `start`: the next
      chunk's start, the later end, and the tables this chunk filled. */
  function ChunkTurn(d: seq<byte>, utf8: seq<byte> -> seq<bv16>, start: int, end: jlong, st: Loaded, fuel: nat)
    : (r: Result<(int, jlong, Loaded)>)
    requires |d| < 0x8000_0000 && 0 <= st.pos <= |d|
    ensures r.Ok? ==> IsInt(r.value.0) && 0 <= r.value.2.pos <= |d|
    ensures r.Ok? ==> ChunkSize(d, |d|, start).Ok? && r.value.0 == Wrap32(start + ChunkSize(d, |d|, start).value)
    ensures r.Ok? ==> ChunkEndNanos(d, start).Ok? && r.value.1 == MaxLong(end, ChunkEndNanos(d, start).value)
  {
    var e :- ChunkEndNanos(d, start);
    var chunk :- ChunkAt(d, utf8, start, st, fuel);
    Ok((Wrap32(start + chunk.1), MaxLong(end, e), chunk.0))
  }

  /** The fuel left once a chunk is read. */
  function Spent(fuel: nat): (r: nat)
    requires fuel > 0
    ensures r < fuel
  {
    fuel - 1
  }

  /** The reader as its constructor leaves it. */
  datatype Opened = Opened(g: Registry, infos: map<int, TypeInfo>, tables: Tables, cursor: Cursor,
                           startNanos: jlong, durationNanos: jlong, startTicks: jlong, ticksPerSec: jlong,
                           ids: EventIds)

  /** The six event type ids the constructor looks up by name
      (JfrReader.java:84-89). */
  function EventIdsOf(names: map<JStr, int>): (r: EventIds)
    ensures r.executionSample == TypeId(names, EXECUTION_SAMPLE)
    ensures r.nativeMethodSample == TypeId(names, NATIVE_METHOD_SAMPLE)
    ensures r.allocationInNewTLAB == TypeId(names, ALLOCATION_IN_NEW_TLAB)
    ensures r.allocationOutsideTLAB == TypeId(names, ALLOCATION_OUTSIDE_TLAB)
    ensures r.monitorEnter == TypeId(names, MONITOR_ENTER)
    ensures r.threadPark == TypeId(names, THREAD_PARK)
  {
    EventIds(TypeId(names, EXECUTION_SAMPLE), TypeId(names, NATIVE_METHOD_SAMPLE),
             TypeId(names, ALLOCATION_IN_NEW_TLAB), TypeId(names, ALLOCATION_OUTSIDE_TLAB),
             TypeId(names, MONITOR_ENTER), TypeId(names, THREAD_PARK))
  }

  /** The constructor once the file is mapped (JfrReader.java:73-91): all
      chunks, then the times of the first chunk's header (the start at
      offset 32, the ticks at 48 and 56) with the duration up to the latest
      chunk end, the event type ids, and moveToNextChunk(0). */
  function Open(d: seq<byte>, utf8: seq<byte> -> seq<bv16>, fuel: nat): (r: Result<Opened>)
    requires |d| < 0x8000_0000
    ensures r.Ok? ==> var loaded := ChunksFrom(d, utf8, 0, 0, Fresh, fuel);
      && loaded.Ok? && r.value.g == loaded.value.0.g && r.value.infos == loaded.value.0.infos
      && r.value.tables == loaded.value.0.tables && ValidCursor(d, r.value.cursor)
  {
    var loaded :- ChunksFrom(d, utf8, 0, 0, Fresh, fuel);
    Settle(d, loaded.0, loaded.1)
  }

  /** The constructor after its loop (JfrReader.java:79-91), with the tables
      `st` the chunks filled and the latest chunk end `end`. */
  function Settle(d: seq<byte>, st: Loaded, end: jlong): (r: Result<Opened>)
    requires |d| < 0x8000_0000 && 0 <= st.pos <= |d|
    ensures r.Ok? ==> r.value.g == st.g && r.value.infos == st.infos && r.value.tables == st.tables
    ensures r.Ok? ==> ValidCursor(d, r.value.cursor)
  {
    var times :- Times(d);
    var moved :- MoveToNextChunk(d, Cursor(st.pos, |d|), 0);
    Ok(Opened(st.g, st.infos, st.tables, moved.1, times.0, SubLong(end, times.0), times.1, times.2, EventIdsOf(st.g.names)))
  }

  /** The longs of the first chunk's header the constructor keeps: the start
      time (offset 32), the start ticks (48) and the ticks per second (56). */
  function Times(d: seq<byte>): (r: Result<(jlong, jlong, jlong)>)
    ensures r.Ok? <==> 64 <= |d|
    ensures r.Err? ==> r.error == IndexOutOfBounds
  {
    var startNanos :- GetLong(d, |d|, 32);
    var startTicks :- GetLong(d, |d|, 48);
    var ticksPerSec :- GetLong(d, |d|, 56);
    Ok((startNanos, startTicks, ticksPerSec))
  }

  // ---------------------------------------------------------------------------
  // Properties

  /** readChunk rejects a chunk whose header fails its checks before it reads
      anything else, with the header's own error. */
  lemma HeaderFirst(d: seq<byte>, utf8: seq<byte> -> seq<bv16>, start: int, st: Loaded, fuel: nat)
    requires |d| < 0x8000_0000 && 0 <= st.pos <= |d|
    requires CheckHeader(d, |d|, start).Err?
    ensures ChunkAt(d, utf8, start, st, fuel) == Err(CheckHeader(d, |d|, start).error)
  {
  }

  /** readChunk's answer, once the chunk has been read: the long at offset
      8 of its header, cut to an int. */
  lemma ChunkAtSize(d: seq<byte>, utf8: seq<byte> -> seq<bv16>, start: int, st: Loaded, fuel: nat)
    requires |d| < 0x8000_0000 && 0 <= st.pos <= |d|
    requires ChunkAt(d, utf8, start, st, fuel).Ok?
    ensures GetLong(d, |d|, start + 8).Ok?
    ensures ChunkAt(d, utf8, start, st, fuel).value.1 == Wrap32(Long(GetLong(d, |d|, start + 8).value))
  {
  }

  /** The chunk size is the long written at offset 8 of the header, cut to an
      int as `(int)` does. */
  lemma ChunkSizeRoundTrip(d: seq<byte>, start: int, size: jlong)
    requires Varints.Written(d, start + 8, |d|, Codec.EncodeLong(size))
    ensures ChunkSize(d, |d|, start) == Ok(Wrap32(Long(size)))
  {
    Codec.GetLongRoundTrip(d, |d|, start + 8, size);
  }

  /** Reading a chunk keeps the type tables coherent: the metadata puts each
      class without a super type both into the registry's ids and into types. */
  lemma ChunkCoherent(d: seq<byte>, utf8: seq<byte> -> seq<bv16>, start: int, st: Loaded, fuel: nat)
    requires |d| < 0x8000_0000 && 0 <= st.pos <= |d| && Coherent(st)
    requires ChunkAt(d, utf8, start, st, fuel).Ok?
    ensures Coherent(ChunkAt(d, utf8, start, st, fuel).value.0)
  {
    var p := Seek(d, start, META_OFFSET, st.pos).value;
    var root := MetaAt(d, p, |d|, utf8).value.value.1;
    RegisterNodeKeys(st.g, root);
    InfosNodeKeys(st.infos, root);
  }

  /** How one turn of the constructor's loop decides its answer: it fails
      where the turn fails, or goes on from the next chunk. */
  lemma ChunksTurn(d: seq<byte>, utf8: seq<byte> -> seq<bv16>, start: int, end: jlong, st: Loaded, fuel: nat)
    requires |d| < 0x8000_0000 && 0 <= st.pos <= |d| && IsInt(start) && start < |d| && fuel > 0
    ensures ChunkTurn(d, utf8, start, end, st, fuel).Err? ==>
      ChunksFrom(d, utf8, start, end, st, fuel) == Err(ChunkTurn(d, utf8, start, end, st, fuel).error)
    ensures ChunkTurn(d, utf8, start, end, st, fuel).Ok? ==>
      var t := ChunkTurn(d, utf8, start, end, st, fuel).value;
      ChunksFrom(d, utf8, start, end, st, fuel) == ChunksFrom(d, utf8, t.0, t.1, t.2, Spent(fuel))
  {
  }

  /** One turn of the constructor's loop, when the loop goes on to an
      answer: the rest of the loop, from the next chunk with the later end
      and the tables this chunk filled, decides the answer; the tables stay
      coherent and the end moves no earlier. */
  lemma ChunksStep(d: seq<byte>, utf8: seq<byte> -> seq<bv16>, start: int, end: jlong, st: Loaded, fuel: nat)
    returns (next: int, later: jlong, st': Loaded, rest: nat)
    requires |d| < 0x8000_0000 && 0 <= st.pos <= |d| && IsInt(start) && start < |d|
    requires ChunksFrom(d, utf8, start, end, st, fuel).Ok?
    ensures rest < fuel && IsInt(next) && 0 <= st'.pos <= |d|
    ensures ChunksFrom(d, utf8, start, end, st, fuel) == ChunksFrom(d, utf8, next, later, st', rest)
    ensures Coherent(st) ==> Coherent(st')
    ensures ChunkEndNanos(d, start).Ok? && later == MaxLong(end, ChunkEndNanos(d, start).value)
    ensures ChunkSize(d, |d|, start).Ok? && next == Wrap32(start + ChunkSize(d, |d|, start).value)
  {
    ChunksTurn(d, utf8, start, end, st, fuel);
    var t := ChunkTurn(d, utf8, start, end, st, fuel).value;
    next, later, st', rest := t.0, t.1, t.2, Spent(fuel);
    if Coherent(st) {
      ChunkCoherent(d, utf8, start, st, fuel);
    }
  }

  /** The constructor's loop keeps the type tables coherent. */
  lemma {:induction false} ChunksCoherent(d: seq<byte>, utf8: seq<byte> -> seq<bv16>, start: int, end: jlong,
                                          st: Loaded, fuel: nat)
    requires |d| < 0x8000_0000 && 0 <= st.pos <= |d| && IsInt(start) && Coherent(st)
    requires ChunksFrom(d, utf8, start, end, st, fuel).Ok?
    ensures Coherent(ChunksFrom(d, utf8, start, end, st, fuel).value.0)
    decreases fuel
  {
    if start < |d| {
      var next, later, st', rest := ChunksStep(d, utf8, start, end, st, fuel);
      ChunksCoherent(d, utf8, next, later, st', rest);
    }
  }

  /** The latest end the constructor's loop reports is never before the one
      it started with, nor before the end of any chunk it reads. */
  lemma {:induction false} ChunksEnd(d: seq<byte>, utf8: seq<byte> -> seq<bv16>, start: int, end: jlong,
                                     st: Loaded, fuel: nat)
    requires |d| < 0x8000_0000 && 0 <= st.pos <= |d| && IsInt(start)
    requires ChunksFrom(d, utf8, start, end, st, fuel).Ok?
    ensures Long(ChunksFrom(d, utf8, start, end, st, fuel).value.1) >= Long(end)
    ensures start < |d| ==>
      ChunkEndNanos(d, start).Ok? && Long(ChunksFrom(d, utf8, start, end, st, fuel).value.1) >= Long(ChunkEndNanos(d, start).value)
    decreases fuel
  {
    if start < |d| {
      var next, later, st', rest := ChunksStep(d, utf8, start, end, st, fuel);
      ChunksEnd(d, utf8, next, later, st', rest);
      assert Long(later) >= Long(end);
    }
  }

  /** The reader the constructor makes has coherent type tables, the start
      time of the first chunk's header, and a limit at the end of the first
      chunk (or the cursor the chunks left, when the file ends within a
      header). */
  lemma OpenCoherent(d: seq<byte>, utf8: seq<byte> -> seq<bv16>, fuel: nat)
    requires |d| < 0x8000_0000
    requires Open(d, utf8, fuel).Ok?
    ensures var o := Open(d, utf8, fuel).value;
      && o.infos.Keys == o.g.ids
      && o.startNanos == GetLong(d, |d|, 32).value
      && (CHUNK_HEADER_SIZE < |d| ==> o.cursor.lim == ChunkSize(d, CHUNK_HEADER_SIZE, 0).value)
      && (|d| <= CHUNK_HEADER_SIZE ==> o.cursor == Cursor(ChunksFrom(d, utf8, 0, 0, Fresh, fuel).value.0.pos, |d|))
  {
    ChunksCoherent(d, utf8, 0, 0, Fresh, fuel);
    var st := ChunksFrom(d, utf8, 0, 0, Fresh, fuel).value.0;
    MoveToNextChunkMoves(d, Cursor(st.pos, |d|), 0);
  }

  /** A file too short for a chunk header's times is rejected: an empty file
      fails at getLong(32), after a loop that reads no chunk. */
  lemma EmptyFileRejected(utf8: seq<byte> -> seq<bv16>, fuel: nat)
    ensures Open([], utf8, fuel) == Err(IndexOutOfBounds)
  {
  }
}
