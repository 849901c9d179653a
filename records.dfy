/** The three event records JfrReader decodes, as functions over the buffer,
    the writer's side of each, and the round trips between them. The record
    framing (size and type) and the choice of decoder are in module Stream. */
module Records {
  import opened Wire
  import opened Varints
  import opened Codec

  /** ExecutionSample, AllocationSample and ContendedLock, holding the bits of
      their Java int and long fields. */
  datatype Event =
    | ExecutionSample(time: jlong, tid: jint, stackTraceId: jint, threadState: jint)
    | AllocationSample(time: jlong, tid: jint, stackTraceId: jint, classId: jint,
                       allocationSize: jlong, tlabSize: jlong)
    | ContendedLock(time: jlong, tid: jint, stackTraceId: jint, duration: jlong, classId: jint)

  /** readExecutionSample (JfrReader.java:141-147): a varlong time, then the
      thread, stack trace and thread state as varints. */
  function ExecutionSampleAt(d: seq<byte>, p: int, lim: int): (r: Result<Parsed<Event>>)
    requires InBuffer(d, p, lim)
    ensures Advanced(r, p, lim)
    ensures r.Ok? ==> r.value.value.ExecutionSample? && p + 4 <= r.value.next
  {
    var time :- Varlong(d, p, lim);
    var tid :- Varint(d, time.next, lim);
    var st :- Varint(d, tid.next, lim);
    var state :- Varint(d, st.next, lim);
    Ok(Parsed(ExecutionSample(time.value, tid.value, st.value, state.value), state.next))
  }

  /** A varlong when `present`, otherwise zero with nothing read: the TLAB
      size of readAllocationSample and the timeout of readContendedLock. */
  function VarlongIf(d: seq<byte>, p: int, lim: int, present: bool): (r: Result<Parsed<jlong>>)
    requires InBuffer(d, p, lim)
    ensures Advanced(r, p, lim)
    ensures !present ==> r == Ok(Parsed(0, p))
  {
    if present then Varlong(d, p, lim) else Ok(Parsed(0, p))
  }

  /** readAllocationSample (JfrReader.java:149-157). */
  function AllocationSampleAt(d: seq<byte>, p: int, lim: int, tlab: bool): (r: Result<Parsed<Event>>)
    requires InBuffer(d, p, lim)
    ensures Advanced(r, p, lim)
    ensures r.Ok? ==> r.value.value.AllocationSample? && p + 5 <= r.value.next
    ensures r.Ok? && !tlab ==> r.value.value.tlabSize == 0
  {
    var time :- Varlong(d, p, lim);
    var tid :- Varint(d, time.next, lim);
    var st :- Varint(d, tid.next, lim);
    var cls :- Varint(d, st.next, lim);
    var size :- Varlong(d, cls.next, lim);
    var tlabSize :- VarlongIf(d, size.next, lim, tlab);
    Ok(Parsed(AllocationSample(time.value, tid.value, st.value, cls.value, size.value, tlabSize.value),
              tlabSize.next))
  }

  /** readContendedLock (JfrReader.java:159-168): time and duration, thread,
      stack trace and monitor class, the timeout when `hasTimeout`, and the
      monitor address, which is read and dropped. */
  function ContendedLockAt(d: seq<byte>, p: int, lim: int, hasTimeout: bool): (r: Result<Parsed<Event>>)
    requires InBuffer(d, p, lim)
    ensures Advanced(r, p, lim)
    ensures r.Ok? ==> r.value.value.ContendedLock? && p + 6 <= r.value.next
  {
    var time :- Varlong(d, p, lim);
    var duration :- Varlong(d, time.next, lim);
    var tid :- Varint(d, duration.next, lim);
    var st :- Varint(d, tid.next, lim);
    var cls :- Varint(d, st.next, lim);
    var address :- LockEnd(d, cls.next, lim, hasTimeout);
    Ok(Parsed(ContendedLock(time.value, tid.value, st.value, duration.value, cls.value), address.next))
  }

  /** The end of a lock record (JfrReader.java:165-166): the timeout when the
      record has one, then the monitor's address, which is answered. */
  function LockEnd(d: seq<byte>, p: int, lim: int, hasTimeout: bool): (r: Result<Parsed<jlong>>)
    requires InBuffer(d, p, lim)
    ensures Advanced(r, p, lim)
  {
    var timeout :- VarlongIf(d, p, lim, hasTimeout);
    Varlong(d, timeout.next, lim)
  }

  // ---------------------------------------------------------------------------
  // The writer's side

  function EncodeExecutionSample(e: Event): (b: seq<byte>)
    requires e.ExecutionSample?
    ensures 4 <= |b| <= 24
  {
    EncodeVarlong(e.time) + (EncodeVarint(e.tid) + (EncodeVarint(e.stackTraceId) + EncodeVarint(e.threadState)))
  }

  /** The TLAB size is written only for an allocation in a new TLAB. */
  function EncodeAllocationSample(e: Event, tlab: bool): (b: seq<byte>)
    requires e.AllocationSample?
    ensures 5 <= |b| <= 42
  {
    EncodeVarlong(e.time) + (EncodeVarint(e.tid) + (EncodeVarint(e.stackTraceId) + (EncodeVarint(e.classId)
      + (EncodeVarlong(e.allocationSize) + EncodeVarlongIf(tlab, e.tlabSize)))))
  }

  /** An optional varlong as the writer puts it down: nothing when absent. */
  function EncodeVarlongIf(present: bool, v: jlong): seq<byte>
  {
    if present then EncodeVarlong(v) else []
  }

  /** A lock record as the writer puts it down: the timeout is present exactly
      for the park event, and `address` is the monitor's. */
  function EncodeContendedLock(e: Event, hasTimeout: bool, timeout: jlong, address: jlong): (b: seq<byte>)
    requires e.ContendedLock?
    ensures 6 <= |b| <= 51
  {
    EncodeVarlong(e.time) + (EncodeVarlong(e.duration) + (EncodeVarint(e.tid) + (EncodeVarint(e.stackTraceId)
      + (EncodeVarint(e.classId) + (EncodeVarlongIf(hasTimeout, timeout) + EncodeVarlong(address))))))
  }

  // ---------------------------------------------------------------------------
  // Round trips. Each peels one field off the front with Codec's NextVarint
  // and NextVarlong: the field reads back, and the rest of the record stands
  // right after it.

  /** readExecutionSample reads back every execution sample and stops right
      after it. */
  lemma ExecutionSampleRoundTrip(d: seq<byte>, p: int, lim: int, e: Event)
    requires e.ExecutionSample? && Written(d, p, lim, EncodeExecutionSample(e))
    ensures InBuffer(d, p, lim)
    ensures ExecutionSampleAt(d, p, lim) == Ok(Parsed(e, p + |EncodeExecutionSample(e)|))
  {
    var p1, p2, p3, p4 := ExecutionSampleFields(d, p, lim, e);
    ExecutionSampleReads(d, p, lim, e.time, p1, e.tid, p2, e.stackTraceId, p3, e.threadState, p4);
  }

  /** The fields of an execution sample's encoding, one after the other: where
      each ends, and that the last ends where the encoding does. */
  lemma ExecutionSampleFields(d: seq<byte>, p: int, lim: int, e: Event) returns (p1: int, p2: int, p3: int, p4: int)
    requires e.ExecutionSample? && WrittenAt(d, p, lim, EncodeExecutionSample(e))
    ensures InBuffer(d, p, lim) && Varlong(d, p, lim) == Ok(Parsed(e.time, p1))
    ensures InBuffer(d, p1, lim) && Varint(d, p1, lim) == Ok(Parsed(e.tid, p2))
    ensures InBuffer(d, p2, lim) && Varint(d, p2, lim) == Ok(Parsed(e.stackTraceId, p3))
    ensures InBuffer(d, p3, lim) && Varint(d, p3, lim) == Ok(Parsed(e.threadState, p4))
    ensures p4 == p + |EncodeExecutionSample(e)|
  {
    var c0, c1, c2, c3 := EncodeVarlong(e.time), EncodeVarint(e.tid), EncodeVarint(e.stackTraceId), EncodeVarint(e.threadState);
    p1 := p + |c0|;
    p2 := p1 + |c1|;
    p3 := p2 + |c2|;
    p4 := p3 + |c3|;
    NextVarlong(d, p, lim, e.time, c1 + (c2 + c3));
    NextVarint(d, p1, lim, e.tid, c2 + c3);
    NextVarint(d, p2, lim, e.stackTraceId, c3);
    LastVarint(d, p3, lim, e.threadState);
  }

  /** readExecutionSample, once each of its reads is known. */
  lemma ExecutionSampleReads(d: seq<byte>, p: int, lim: int, time: jlong, p1: int, tid: jint, p2: int,
                             st: jint, p3: int, state: jint, p4: int)
    requires InBuffer(d, p, lim) && Varlong(d, p, lim) == Ok(Parsed(time, p1))
    requires InBuffer(d, p1, lim) && Varint(d, p1, lim) == Ok(Parsed(tid, p2))
    requires InBuffer(d, p2, lim) && Varint(d, p2, lim) == Ok(Parsed(st, p3))
    requires InBuffer(d, p3, lim) && Varint(d, p3, lim) == Ok(Parsed(state, p4))
    ensures ExecutionSampleAt(d, p, lim) == Ok(Parsed(ExecutionSample(time, tid, st, state), p4))
  {
  }

  /** The tail of an allocation sample: the allocation size and, for a new
      TLAB, the TLAB size. */
  lemma AllocationTail(d: seq<byte>, p: int, lim: int, size: jlong, tlabSize: jlong, tlab: bool)
    returns (q: int, r: int)
    requires WrittenAt(d, p, lim, EncodeVarlong(size) + EncodeVarlongIf(tlab, tlabSize))
    ensures InBuffer(d, p, lim) && Varlong(d, p, lim) == Ok(Parsed(size, q))
    ensures InBuffer(d, q, lim) && VarlongIf(d, q, lim, tlab) == Ok(Parsed(if tlab then tlabSize else 0, r))
    ensures r == p + |EncodeVarlong(size) + EncodeVarlongIf(tlab, tlabSize)|
  {
    q := p + |EncodeVarlong(size)|;
    r := q + |EncodeVarlongIf(tlab, tlabSize)|;
    NextVarlong(d, p, lim, size, EncodeVarlongIf(tlab, tlabSize));
    VarlongIfRoundTrip(d, q, lim, tlab, tlabSize);
  }

  /** An optional varlong reads back when the reader is told whether it is there. */
  lemma VarlongIfRoundTrip(d: seq<byte>, p: int, lim: int, present: bool, v: jlong)
    requires WrittenAt(d, p, lim, EncodeVarlongIf(present, v))
    ensures InBuffer(d, p, lim)
    ensures VarlongIf(d, p, lim, present) == Ok(Parsed(if present then v else 0, p + |EncodeVarlongIf(present, v)|))
  {
    if present {
      LastVarlong(d, p, lim, v);
    } else {
      WrittenBounds(d, p, lim, []);
    }
  }

  /** readAllocationSample, once each of its reads is known. */
  lemma AllocationSampleReads(d: seq<byte>, p: int, lim: int, tlab: bool, time: jlong, p1: int, tid: jint, p2: int,
                              st: jint, p3: int, cls: jint, p4: int, size: jlong, p5: int, tlabSize: jlong, p6: int)
    requires InBuffer(d, p, lim) && Varlong(d, p, lim) == Ok(Parsed(time, p1))
    requires InBuffer(d, p1, lim) && Varint(d, p1, lim) == Ok(Parsed(tid, p2))
    requires InBuffer(d, p2, lim) && Varint(d, p2, lim) == Ok(Parsed(st, p3))
    requires InBuffer(d, p3, lim) && Varint(d, p3, lim) == Ok(Parsed(cls, p4))
    requires InBuffer(d, p4, lim) && Varlong(d, p4, lim) == Ok(Parsed(size, p5))
    requires InBuffer(d, p5, lim) && VarlongIf(d, p5, lim, tlab) == Ok(Parsed(tlabSize, p6))
    ensures AllocationSampleAt(d, p, lim, tlab) == Ok(Parsed(AllocationSample(time, tid, st, cls, size, tlabSize), p6))
  {
  }

  /** The thread, stack trace and class ids of a sample, as the writer puts
      them down, and what follows them. */
  lemma IdFields(d: seq<byte>, p: int, lim: int, tid: jint, st: jint, cls: jint, rest: seq<byte>)
    requires WrittenAt(d, p, lim, EncodeVarint(tid) + (EncodeVarint(st) + (EncodeVarint(cls) + rest)))
    ensures var p1 := p + |EncodeVarint(tid)|;
      var p2 := p1 + |EncodeVarint(st)|;
      var p3 := p2 + |EncodeVarint(cls)|;
      && InBuffer(d, p, lim) && Varint(d, p, lim) == Ok(Parsed(tid, p1))
      && InBuffer(d, p1, lim) && Varint(d, p1, lim) == Ok(Parsed(st, p2))
      && InBuffer(d, p2, lim) && Varint(d, p2, lim) == Ok(Parsed(cls, p3))
      && WrittenAt(d, p3, lim, rest)
  {
    var c0, c1, c2 := EncodeVarint(tid), EncodeVarint(st), EncodeVarint(cls);
    NextVarint(d, p, lim, tid, c1 + (c2 + rest));
    NextVarint(d, p + |c0|, lim, st, c2 + rest);
    NextVarint(d, p + |c0| + |c1|, lim, cls, rest);
  }

  /** The fields of an allocation sample's encoding before its sizes, one after
      the other, and the sizes after them. */
  lemma AllocationFields(d: seq<byte>, p: int, lim: int, e: Event, tlab: bool) returns (p1: int, p2: int, p3: int, p4: int)
    requires e.AllocationSample? && WrittenAt(d, p, lim, EncodeAllocationSample(e, tlab))
    ensures InBuffer(d, p, lim) && Varlong(d, p, lim) == Ok(Parsed(e.time, p1))
    ensures InBuffer(d, p1, lim) && Varint(d, p1, lim) == Ok(Parsed(e.tid, p2))
    ensures InBuffer(d, p2, lim) && Varint(d, p2, lim) == Ok(Parsed(e.stackTraceId, p3))
    ensures InBuffer(d, p3, lim) && Varint(d, p3, lim) == Ok(Parsed(e.classId, p4))
    ensures WrittenAt(d, p4, lim, EncodeVarlong(e.allocationSize) + EncodeVarlongIf(tlab, e.tlabSize))
    ensures p + |EncodeAllocationSample(e, tlab)|
         == p4 + |EncodeVarlong(e.allocationSize) + EncodeVarlongIf(tlab, e.tlabSize)|
  {
    var t := EncodeVarlong(e.allocationSize) + EncodeVarlongIf(tlab, e.tlabSize);
    var ids := EncodeVarint(e.tid) + (EncodeVarint(e.stackTraceId) + (EncodeVarint(e.classId) + t));
    p1 := p + |EncodeVarlong(e.time)|;
    p2 := p1 + |EncodeVarint(e.tid)|;
    p3 := p2 + |EncodeVarint(e.stackTraceId)|;
    p4 := p3 + |EncodeVarint(e.classId)|;
    NextVarlong(d, p, lim, e.time, ids);
    IdFields(d, p1, lim, e.tid, e.stackTraceId, e.classId, t);
  }

  /** readAllocationSample reads back every allocation sample; without a TLAB
      it reads no TLAB size and reports zero. */
  lemma AllocationSampleRoundTrip(d: seq<byte>, p: int, lim: int, e: Event, tlab: bool)
    requires e.AllocationSample? && Written(d, p, lim, EncodeAllocationSample(e, tlab))
    ensures InBuffer(d, p, lim)
    ensures AllocationSampleAt(d, p, lim, tlab)
         == Ok(Parsed(if tlab then e else e.(tlabSize := 0), p + |EncodeAllocationSample(e, tlab)|))
  {
    var p1, p2, p3, p4 := AllocationFields(d, p, lim, e, tlab);
    var p5, p6 := AllocationTail(d, p4, lim, e.allocationSize, e.tlabSize, tlab);
    AllocationSampleReads(d, p, lim, tlab, e.time, p1, e.tid, p2, e.stackTraceId, p3, e.classId, p4,
                          e.allocationSize, p5, if tlab then e.tlabSize else 0, p6);
  }

  /** The tail of a lock record: the optional timeout and the address. */
  lemma LockTail(d: seq<byte>, p: int, lim: int, hasTimeout: bool, timeout: jlong, address: jlong)
    requires WrittenAt(d, p, lim, EncodeVarlongIf(hasTimeout, timeout) + EncodeVarlong(address))
    ensures InBuffer(d, p, lim)
    ensures LockEnd(d, p, lim, hasTimeout)
         == Ok(Parsed(address, p + |EncodeVarlongIf(hasTimeout, timeout)| + |EncodeVarlong(address)|))
  {
    WrittenSplit(d, p, lim, EncodeVarlongIf(hasTimeout, timeout), EncodeVarlong(address));
    VarlongIfRoundTrip(d, p, lim, hasTimeout, timeout);
    LastVarlong(d, p + |EncodeVarlongIf(hasTimeout, timeout)|, lim, address);
  }

  /** readContendedLock, once each of its reads is known. */
  lemma ContendedLockReads(d: seq<byte>, p: int, lim: int, hasTimeout: bool, time: jlong, p1: int, duration: jlong,
                           p2: int, tid: jint, p3: int, st: jint, p4: int, cls: jint, p5: int, address: jlong, p6: int)
    requires InBuffer(d, p, lim) && Varlong(d, p, lim) == Ok(Parsed(time, p1))
    requires InBuffer(d, p1, lim) && Varlong(d, p1, lim) == Ok(Parsed(duration, p2))
    requires InBuffer(d, p2, lim) && Varint(d, p2, lim) == Ok(Parsed(tid, p3))
    requires InBuffer(d, p3, lim) && Varint(d, p3, lim) == Ok(Parsed(st, p4))
    requires InBuffer(d, p4, lim) && Varint(d, p4, lim) == Ok(Parsed(cls, p5))
    requires InBuffer(d, p5, lim) && LockEnd(d, p5, lim, hasTimeout) == Ok(Parsed(address, p6))
    ensures ContendedLockAt(d, p, lim, hasTimeout) == Ok(Parsed(ContendedLock(time, tid, st, duration, cls), p6))
  {
  }

  /** The encoding of a lock record's ids and tail. */
  function LockRest(e: Event, hasTimeout: bool, timeout: jlong, address: jlong): seq<byte>
    requires e.ContendedLock?
  {
    EncodeVarint(e.tid) + (EncodeVarint(e.stackTraceId) + (EncodeVarint(e.classId)
      + (EncodeVarlongIf(hasTimeout, timeout) + EncodeVarlong(address))))
  }

  /** The time and duration of a lock record, and what follows them. */
  lemma LockHead(d: seq<byte>, p: int, lim: int, e: Event, hasTimeout: bool, timeout: jlong, address: jlong)
    returns (p1: int, p2: int)
    requires e.ContendedLock? && WrittenAt(d, p, lim, EncodeContendedLock(e, hasTimeout, timeout, address))
    ensures InBuffer(d, p, lim) && Varlong(d, p, lim) == Ok(Parsed(e.time, p1))
    ensures InBuffer(d, p1, lim) && Varlong(d, p1, lim) == Ok(Parsed(e.duration, p2))
    ensures WrittenAt(d, p2, lim, LockRest(e, hasTimeout, timeout, address))
    ensures p + |EncodeContendedLock(e, hasTimeout, timeout, address)| == p2 + |LockRest(e, hasTimeout, timeout, address)|
  {
    var rest := LockRest(e, hasTimeout, timeout, address);
    p1 := p + |EncodeVarlong(e.time)|;
    p2 := p1 + |EncodeVarlong(e.duration)|;
    NextVarlong(d, p, lim, e.time, EncodeVarlong(e.duration) + rest);
    NextVarlong(d, p1, lim, e.duration, rest);
  }

  /** The fields of a lock record's encoding, one after the other: where each
      ends, and that the last ends where the encoding does. */
  lemma LockFields(d: seq<byte>, p: int, lim: int, e: Event, hasTimeout: bool, timeout: jlong, address: jlong)
    returns (p1: int, p2: int, p3: int, p4: int, p5: int, p6: int)
    requires e.ContendedLock? && WrittenAt(d, p, lim, EncodeContendedLock(e, hasTimeout, timeout, address))
    ensures InBuffer(d, p, lim) && Varlong(d, p, lim) == Ok(Parsed(e.time, p1))
    ensures InBuffer(d, p1, lim) && Varlong(d, p1, lim) == Ok(Parsed(e.duration, p2))
    ensures InBuffer(d, p2, lim) && Varint(d, p2, lim) == Ok(Parsed(e.tid, p3))
    ensures InBuffer(d, p3, lim) && Varint(d, p3, lim) == Ok(Parsed(e.stackTraceId, p4))
    ensures InBuffer(d, p4, lim) && Varint(d, p4, lim) == Ok(Parsed(e.classId, p5))
    ensures InBuffer(d, p5, lim) && LockEnd(d, p5, lim, hasTimeout) == Ok(Parsed(address, p6))
    ensures p6 == p + |EncodeContendedLock(e, hasTimeout, timeout, address)|
  {
    p1, p2 := LockHead(d, p, lim, e, hasTimeout, timeout, address);
    var t := EncodeVarlongIf(hasTimeout, timeout) + EncodeVarlong(address);
    p3 := p2 + |EncodeVarint(e.tid)|;
    p4 := p3 + |EncodeVarint(e.stackTraceId)|;
    p5 := p4 + |EncodeVarint(e.classId)|;
    p6 := p5 + |t|;
    IdFields(d, p2, lim, e.tid, e.stackTraceId, e.classId, t);
    LockTail(d, p5, lim, hasTimeout, timeout, address);
  }

  /** readContendedLock reads back every lock record, consuming the timeout
      exactly when it is told the record has one. */
  lemma ContendedLockRoundTrip(d: seq<byte>, p: int, lim: int, e: Event, hasTimeout: bool, timeout: jlong, address: jlong)
    requires e.ContendedLock? && Written(d, p, lim, EncodeContendedLock(e, hasTimeout, timeout, address))
    ensures InBuffer(d, p, lim)
    ensures ContendedLockAt(d, p, lim, hasTimeout)
         == Ok(Parsed(e, p + |EncodeContendedLock(e, hasTimeout, timeout, address)|))
  {
    var p1, p2, p3, p4, p5, p6 := LockFields(d, p, lim, e, hasTimeout, timeout, address);
    ContendedLockReads(d, p, lim, hasTimeout, e.time, p1, e.duration, p2, e.tid, p3, e.stackTraceId, p4,
                       e.classId, p5, address, p6);
  }
}
