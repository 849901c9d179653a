/** The writer's side of the constant pools: each entry as its fields are put
    down, each pool as a count and its entries, the pool header, and the
    fields of the constants that are read and dropped; and the round trips
    that tie each to what JfrReader's pool readers read back
    (JfrReader.java:248-405). Every encoder takes the bytes that follow it,
    so entries chain without regrouping a concatenation. */
module PoolWriter {
  import opened Wire
  import opened Varints
  import opened Codec
  import opened Names
  import opened Meta
  import opened Pools

  // ---------------------------------------------------------------------------
  // Threads

  datatype ThreadRecord = ThreadRecord(id: jlong, osName: StringForm, osThreadId: jint,
                                       javaName: StringForm, javaThreadId: jlong, group: jlong)

  predicate ThreadsEncodable(ts: seq<ThreadRecord>) {
    forall i :: 0 <= i < |ts| ==> Encodable(ts[i].osName) && Encodable(ts[i].javaName)
  }

  /** A thread entry, then `tail`: the group is put down only when the type
      has a "group" field. */
  function ThreadBytes(t: ThreadRecord, hasGroup: bool, tail: seq<byte>): seq<byte>
    requires Encodable(t.osName) && Encodable(t.javaName)
  {
    EncodeVarlong(t.id) + (EncodeString(t.osName) + (EncodeVarint(t.osThreadId) + JavaBytes(t, hasGroup, tail)))
  }

  /** What the thread table keeps of an entry: its id, and its Java name or,
      when that is null, its OS name. */
  function ThreadEntry(t: ThreadRecord, utf8: seq<byte> -> seq<bv16>): (jlong, JStr) {
    var javaName := Decoded(t.javaName, utf8);
    (t.id, if javaName != Null then javaName else Decoded(t.osName, utf8))
  }

  function ThreadsBytes(ts: seq<ThreadRecord>, hasGroup: bool, tail: seq<byte>): seq<byte>
    requires ThreadsEncodable(ts)
    decreases |ts|
  {
    if ts == [] then tail else ThreadBytes(ts[0], hasGroup, ThreadsBytes(ts[1..], hasGroup, tail))
  }

  function ThreadEntries(ts: seq<ThreadRecord>, utf8: seq<byte> -> seq<bv16>): (es: seq<(jlong, JStr)>)
    ensures |es| == |ts|
    decreases |ts|
  {
    if ts == [] then [] else [ThreadEntry(ts[0], utf8)] + ThreadEntries(ts[1..], utf8)
  }

  /** A thread entry, once its fields are read. */
  lemma {:induction false} ThreadReads(d: seq<byte>, p: int, lim: int, utf8: seq<byte> -> seq<bv16>, hasGroup: bool,
                                       t: ThreadRecord, p1: int, p2: int, p3: int, p4: int, p5: int, q: int)
    requires InBuffer(d, p, lim) && Varlong(d, p, lim) == Ok(Parsed(t.id, p1))
    requires InBuffer(d, p1, lim) && GetString(d, p1, lim, utf8) == Ok(Parsed(Decoded(t.osName, utf8), p2))
    requires InBuffer(d, p2, lim) && Varint(d, p2, lim) == Ok(Parsed(t.osThreadId, p3))
    requires InBuffer(d, p3, lim) && GetString(d, p3, lim, utf8) == Ok(Parsed(Decoded(t.javaName, utf8), p4))
    requires InBuffer(d, p4, lim) && Varlong(d, p4, lim) == Ok(Parsed(t.javaThreadId, p5))
    requires hasGroup ==> InBuffer(d, p5, lim) && Varlong(d, p5, lim) == Ok(Parsed(t.group, q))
    requires !hasGroup ==> q == p5
    ensures ThreadAt(d, p, lim, utf8, hasGroup) == Ok(Parsed(ThreadEntry(t, utf8), q))
  {
  }

  /** The fields of a written thread entry, one after the other. */
  lemma {:induction false} ThreadFields(d: seq<byte>, p: int, lim: int, utf8: seq<byte> -> seq<bv16>, hasGroup: bool,
                                        t: ThreadRecord, tail: seq<byte>)
    returns (p1: int, p2: int, p3: int, p4: int, p5: int, q: int)
    requires Encodable(t.osName) && Encodable(t.javaName) && WrittenAt(d, p, lim, ThreadBytes(t, hasGroup, tail))
    ensures InBuffer(d, p, lim) && Varlong(d, p, lim) == Ok(Parsed(t.id, p1))
    ensures InBuffer(d, p1, lim) && GetString(d, p1, lim, utf8) == Ok(Parsed(Decoded(t.osName, utf8), p2))
    ensures InBuffer(d, p2, lim) && Varint(d, p2, lim) == Ok(Parsed(t.osThreadId, p3))
    ensures InBuffer(d, p3, lim) && GetString(d, p3, lim, utf8) == Ok(Parsed(Decoded(t.javaName, utf8), p4))
    ensures InBuffer(d, p4, lim) && Varlong(d, p4, lim) == Ok(Parsed(t.javaThreadId, p5))
    ensures hasGroup ==> InBuffer(d, p5, lim) && Varlong(d, p5, lim) == Ok(Parsed(t.group, q))
    ensures !hasGroup ==> q == p5
    ensures WrittenAt(d, q, lim, tail) && q + |tail| == p + |ThreadBytes(t, hasGroup, tail)|
  {
    var t3 := JavaBytes(t, hasGroup, tail);
    var t2 := EncodeVarint(t.osThreadId) + t3;
    var t1 := EncodeString(t.osName) + t2;
    assert ThreadBytes(t, hasGroup, tail) == EncodeVarlong(t.id) + t1;
    p1 := p + |EncodeVarlong(t.id)|;
    p2 := p1 + |EncodeString(t.osName)|;
    p3 := p2 + |EncodeVarint(t.osThreadId)|;
    NextVarlong(d, p, lim, t.id, t1);
    NextString(d, p1, lim, t.osName, utf8, t2);
    NextVarint(d, p2, lim, t.osThreadId, t3);
    p4, p5, q := JavaFields(d, p3, lim, utf8, hasGroup, t, tail);
  }

  /** The Java name, the Java thread id and the group that end a thread entry. */
  function JavaBytes(t: ThreadRecord, hasGroup: bool, tail: seq<byte>): seq<byte>
    requires Encodable(t.javaName)
  {
    EncodeString(t.javaName) + (EncodeVarlong(t.javaThreadId) + (if hasGroup then EncodeVarlong(t.group) + tail else tail))
  }

  lemma {:induction false} JavaFields(d: seq<byte>, p3: int, lim: int, utf8: seq<byte> -> seq<bv16>, hasGroup: bool,
                                      t: ThreadRecord, tail: seq<byte>) returns (p4: int, p5: int, q: int)
    requires Encodable(t.javaName) && WrittenAt(d, p3, lim, JavaBytes(t, hasGroup, tail))
    ensures InBuffer(d, p3, lim) && GetString(d, p3, lim, utf8) == Ok(Parsed(Decoded(t.javaName, utf8), p4))
    ensures InBuffer(d, p4, lim) && Varlong(d, p4, lim) == Ok(Parsed(t.javaThreadId, p5))
    ensures hasGroup ==> InBuffer(d, p5, lim) && Varlong(d, p5, lim) == Ok(Parsed(t.group, q))
    ensures !hasGroup ==> q == p5
    ensures WrittenAt(d, q, lim, tail) && q + |tail| == p3 + |JavaBytes(t, hasGroup, tail)|
  {
    var t5 := if hasGroup then EncodeVarlong(t.group) + tail else tail;
    var t4 := EncodeVarlong(t.javaThreadId) + t5;
    p4 := p3 + |EncodeString(t.javaName)|;
    p5 := p4 + |EncodeVarlong(t.javaThreadId)|;
    NextString(d, p3, lim, t.javaName, utf8, t4);
    NextVarlong(d, p4, lim, t.javaThreadId, t5);
    if hasGroup {
      q := p5 + |EncodeVarlong(t.group)|;
      NextVarlong(d, p5, lim, t.group, tail);
    } else {
      q := p5;
    }
  }

  /** A thread entry reads back as its id and the name the table keeps, and
      ends where its fields end. */
  lemma {:induction false} ThreadRoundTrip(d: seq<byte>, p: int, lim: int, utf8: seq<byte> -> seq<bv16>, hasGroup: bool,
                                           t: ThreadRecord, tail: seq<byte>) returns (q: int)
    requires Encodable(t.osName) && Encodable(t.javaName) && WrittenAt(d, p, lim, ThreadBytes(t, hasGroup, tail))
    ensures InBuffer(d, p, lim) && ThreadAt(d, p, lim, utf8, hasGroup) == Ok(Parsed(ThreadEntry(t, utf8), q))
    ensures WrittenAt(d, q, lim, tail) && q + |tail| == p + |ThreadBytes(t, hasGroup, tail)|
  {
    var p1, p2, p3, p4, p5;
    p1, p2, p3, p4, p5, q := ThreadFields(d, p, lim, utf8, hasGroup, t, tail);
    ThreadReads(d, p, lim, utf8, hasGroup, t, p1, p2, p3, p4, p5, q);
  }

  /** readThreads' loop reads back every entry written, in order. */
  lemma {:induction false} ThreadsFromRoundTrip(d: seq<byte>, p: int, lim: int, utf8: seq<byte> -> seq<bv16>, hasGroup: bool,
                                                ts: seq<ThreadRecord>, acc: seq<(jlong, JStr)>, tail: seq<byte>)
    returns (q: int)
    requires ThreadsEncodable(ts) && WrittenAt(d, p, lim, ThreadsBytes(ts, hasGroup, tail))
    ensures InBuffer(d, p, lim)
    ensures ThreadsFrom(d, p, lim, utf8, hasGroup, |ts|, acc) == Ok(Parsed(acc + ThreadEntries(ts, utf8), q))
    ensures WrittenAt(d, q, lim, tail) && q + |tail| == p + |ThreadsBytes(ts, hasGroup, tail)|
    decreases |ts|
  {
    if ts == [] {
      WrittenBounds(d, p, lim, tail);
      q := p;
      assert acc + [] == acc;
    } else {
      var e, q1 := FirstThread(d, p, lim, utf8, hasGroup, ts, tail);
      var acc1, rest := acc + [e], ts[1..];
      assert |rest| == |ts| - 1 && acc1 + ThreadEntries(rest, utf8) == acc + ThreadEntries(ts, utf8);
      ThreadsTurn(d, p, lim, utf8, hasGroup, |ts|, acc, e, q1);
      q := ThreadsFromRoundTrip(d, q1, lim, utf8, hasGroup, rest, acc1, tail);
    }
  }

  /** The first entry of written threads, and the entries after it. */
  lemma {:induction false} FirstThread(d: seq<byte>, p: int, lim: int, utf8: seq<byte> -> seq<bv16>, hasGroup: bool,
                                       ts: seq<ThreadRecord>, tail: seq<byte>)
    returns (e: (jlong, JStr), q: int)
    requires ts != [] && ThreadsEncodable(ts) && WrittenAt(d, p, lim, ThreadsBytes(ts, hasGroup, tail))
    ensures InBuffer(d, p, lim) && ThreadAt(d, p, lim, utf8, hasGroup) == Ok(Parsed(e, q))
    ensures ThreadsEncodable(ts[1..])
    ensures ThreadEntries(ts, utf8) == [e] + ThreadEntries(ts[1..], utf8)
    ensures WrittenAt(d, q, lim, ThreadsBytes(ts[1..], hasGroup, tail))
    ensures q + |ThreadsBytes(ts[1..], hasGroup, tail)| == p + |ThreadsBytes(ts, hasGroup, tail)|
  {
    e := ThreadEntry(ts[0], utf8);
    assert ThreadsEncodable(ts[1..]) by {
      forall i | 0 <= i < |ts[1..]| ensures Encodable(ts[1..][i].osName) && Encodable(ts[1..][i].javaName) {
        assert ts[1..][i] == ts[i + 1];
      }
    }
    var rest := ThreadsBytes(ts[1..], hasGroup, tail);
    assert ThreadsBytes(ts, hasGroup, tail) == ThreadBytes(ts[0], hasGroup, rest);
    q := ThreadRoundTrip(d, p, lim, utf8, hasGroup, ts[0], rest);
  }

  /** One turn of readThreads' loop, once the entry is read. */
  lemma {:induction false} ThreadsTurn(d: seq<byte>, p: int, lim: int, utf8: seq<byte> -> seq<bv16>, hasGroup: bool,
                                       n: int, acc: seq<(jlong, JStr)>, e: (jlong, JStr), q: int)
    requires InBuffer(d, p, lim) && 0 < n && ThreadAt(d, p, lim, utf8, hasGroup) == Ok(Parsed(e, q))
    ensures InBuffer(d, q, lim)
    ensures ThreadsFrom(d, p, lim, utf8, hasGroup, n, acc) == ThreadsFrom(d, q, lim, utf8, hasGroup, n - 1, acc + [e])
  {
    ThreadsStep(d, p, lim, utf8, hasGroup, n, acc);
  }

  /** readThreads reads back a written pool: its count, then every entry. */
  lemma {:induction false} ThreadsRoundTrip(d: seq<byte>, p: int, lim: int, utf8: seq<byte> -> seq<bv16>, hasGroup: bool,
                                            n: jint, ts: seq<ThreadRecord>, tail: seq<byte>) returns (q: int)
    requires Int32(n) == |ts| && ThreadsEncodable(ts)
    requires WrittenAt(d, p, lim, EncodeVarint(n) + ThreadsBytes(ts, hasGroup, tail))
    ensures InBuffer(d, p, lim) && Threads(d, p, lim, utf8, hasGroup) == Ok(Parsed(ThreadEntries(ts, utf8), q))
    ensures WrittenAt(d, q, lim, tail) && q + |tail| == p + |EncodeVarint(n)| + |ThreadsBytes(ts, hasGroup, tail)|
  {
    NextVarint(d, p, lim, n, ThreadsBytes(ts, hasGroup, tail));
    q := ThreadsFromRoundTrip(d, p + |EncodeVarint(n)|, lim, utf8, hasGroup, ts, [], tail);
    assert [] + ThreadEntries(ts, utf8) == ThreadEntries(ts, utf8);
  }

  // ---------------------------------------------------------------------------
  // Classes

  datatype ClassRecord = ClassRecord(id: jlong, loader: jlong, name: jlong, pkg: jlong, modifiers: jint, hidden: jint)

  /** A class entry, then `tail`: the hidden flag is put down only when the
      type has a "hidden" field. */
  function ClassBytes(c: ClassRecord, hasHidden: bool, tail: seq<byte>): seq<byte> {
    EncodeVarlong(c.id) + (EncodeVarlong(c.loader) + (EncodeVarlong(c.name) + ClassTailBytes(c, hasHidden, tail)))
  }

  /** The package, the modifiers and the hidden flag that end a class entry. */
  function ClassTailBytes(c: ClassRecord, hasHidden: bool, tail: seq<byte>): seq<byte> {
    EncodeVarlong(c.pkg) + (EncodeVarint(c.modifiers) + (if hasHidden then EncodeVarint(c.hidden) + tail else tail))
  }

  /** What the class table keeps of an entry: its id and its name's id. */
  function ClassEntry(c: ClassRecord): (jlong, ClassRef) {
    (c.id, ClassRef(c.name))
  }

  function ClassesBytes(cs: seq<ClassRecord>, hasHidden: bool, tail: seq<byte>): seq<byte>
    decreases |cs|
  {
    if cs == [] then tail else ClassBytes(cs[0], hasHidden, ClassesBytes(cs[1..], hasHidden, tail))
  }

  function ClassEntries(cs: seq<ClassRecord>): (es: seq<(jlong, ClassRef)>)
    ensures |es| == |cs|
    decreases |cs|
  {
    if cs == [] then [] else [ClassEntry(cs[0])] + ClassEntries(cs[1..])
  }

  /** A class entry, once its fields are read. */
  lemma {:induction false} ClassReads(d: seq<byte>, p: int, lim: int, hasHidden: bool, c: ClassRecord,
                                      p1: int, p2: int, p3: int, p4: int, p5: int, q: int)
    requires InBuffer(d, p, lim) && Varlong(d, p, lim) == Ok(Parsed(c.id, p1))
    requires InBuffer(d, p1, lim) && Varlong(d, p1, lim) == Ok(Parsed(c.loader, p2))
    requires InBuffer(d, p2, lim) && Varlong(d, p2, lim) == Ok(Parsed(c.name, p3))
    requires InBuffer(d, p3, lim) && Varlong(d, p3, lim) == Ok(Parsed(c.pkg, p4))
    requires InBuffer(d, p4, lim) && Varint(d, p4, lim) == Ok(Parsed(c.modifiers, p5))
    requires hasHidden ==> InBuffer(d, p5, lim) && Varint(d, p5, lim) == Ok(Parsed(c.hidden, q))
    requires !hasHidden ==> q == p5
    ensures ClassAt(d, p, lim, hasHidden) == Ok(Parsed(ClassEntry(c), q))
  {
  }

  /** The fields of a written class entry, one after the other. */
  lemma {:induction false} ClassFields(d: seq<byte>, p: int, lim: int, hasHidden: bool, c: ClassRecord, tail: seq<byte>)
    returns (p1: int, p2: int, p3: int, p4: int, p5: int, q: int)
    requires WrittenAt(d, p, lim, ClassBytes(c, hasHidden, tail))
    ensures InBuffer(d, p, lim) && Varlong(d, p, lim) == Ok(Parsed(c.id, p1))
    ensures InBuffer(d, p1, lim) && Varlong(d, p1, lim) == Ok(Parsed(c.loader, p2))
    ensures InBuffer(d, p2, lim) && Varlong(d, p2, lim) == Ok(Parsed(c.name, p3))
    ensures InBuffer(d, p3, lim) && Varlong(d, p3, lim) == Ok(Parsed(c.pkg, p4))
    ensures InBuffer(d, p4, lim) && Varint(d, p4, lim) == Ok(Parsed(c.modifiers, p5))
    ensures hasHidden ==> InBuffer(d, p5, lim) && Varint(d, p5, lim) == Ok(Parsed(c.hidden, q))
    ensures !hasHidden ==> q == p5
    ensures WrittenAt(d, q, lim, tail) && q + |tail| == p + |ClassBytes(c, hasHidden, tail)|
  {
    var t3 := ClassTailBytes(c, hasHidden, tail);
    var t2 := EncodeVarlong(c.name) + t3;
    var t1 := EncodeVarlong(c.loader) + t2;
    p1 := p + |EncodeVarlong(c.id)|;
    p2 := p1 + |EncodeVarlong(c.loader)|;
    p3 := p2 + |EncodeVarlong(c.name)|;
    NextVarlong(d, p, lim, c.id, t1);
    NextVarlong(d, p1, lim, c.loader, t2);
    NextVarlong(d, p2, lim, c.name, t3);
    p4, p5, q := ClassTailFields(d, p3, lim, hasHidden, c, tail);
  }

  lemma {:induction false} ClassTailFields(d: seq<byte>, p3: int, lim: int, hasHidden: bool, c: ClassRecord, tail: seq<byte>)
    returns (p4: int, p5: int, q: int)
    requires WrittenAt(d, p3, lim, ClassTailBytes(c, hasHidden, tail))
    ensures InBuffer(d, p3, lim) && Varlong(d, p3, lim) == Ok(Parsed(c.pkg, p4))
    ensures InBuffer(d, p4, lim) && Varint(d, p4, lim) == Ok(Parsed(c.modifiers, p5))
    ensures hasHidden ==> InBuffer(d, p5, lim) && Varint(d, p5, lim) == Ok(Parsed(c.hidden, q))
    ensures !hasHidden ==> q == p5
    ensures WrittenAt(d, q, lim, tail) && q + |tail| == p3 + |ClassTailBytes(c, hasHidden, tail)|
  {
    var t5 := if hasHidden then EncodeVarint(c.hidden) + tail else tail;
    p4 := p3 + |EncodeVarlong(c.pkg)|;
    p5 := p4 + |EncodeVarint(c.modifiers)|;
    NextVarlong(d, p3, lim, c.pkg, EncodeVarint(c.modifiers) + t5);
    NextVarint(d, p4, lim, c.modifiers, t5);
    if hasHidden {
      q := p5 + |EncodeVarint(c.hidden)|;
      NextVarint(d, p5, lim, c.hidden, tail);
    } else {
      q := p5;
    }
  }

  /** A class entry reads back as its id and its name's id, having consumed
      the loader, the package, the modifiers and the hidden flag too. */
  lemma {:induction false} ClassRoundTrip(d: seq<byte>, p: int, lim: int, hasHidden: bool, c: ClassRecord, tail: seq<byte>)
    returns (q: int)
    requires WrittenAt(d, p, lim, ClassBytes(c, hasHidden, tail))
    ensures InBuffer(d, p, lim) && ClassAt(d, p, lim, hasHidden) == Ok(Parsed(ClassEntry(c), q))
    ensures WrittenAt(d, q, lim, tail) && q + |tail| == p + |ClassBytes(c, hasHidden, tail)|
  {
    var p1, p2, p3, p4, p5;
    p1, p2, p3, p4, p5, q := ClassFields(d, p, lim, hasHidden, c, tail);
    ClassReads(d, p, lim, hasHidden, c, p1, p2, p3, p4, p5, q);
  }

  /** readClasses' loop reads back every entry written, in order. */
  lemma {:induction false} ClassesFromRoundTrip(d: seq<byte>, p: int, lim: int, hasHidden: bool,
                                                cs: seq<ClassRecord>, acc: seq<(jlong, ClassRef)>, tail: seq<byte>)
    returns (q: int)
    requires WrittenAt(d, p, lim, ClassesBytes(cs, hasHidden, tail))
    ensures InBuffer(d, p, lim)
    ensures ClassesFrom(d, p, lim, hasHidden, |cs|, acc) == Ok(Parsed(acc + ClassEntries(cs), q))
    ensures WrittenAt(d, q, lim, tail) && q + |tail| == p + |ClassesBytes(cs, hasHidden, tail)|
    decreases |cs|
  {
    if cs == [] {
      WrittenBounds(d, p, lim, tail);
      q := p;
      assert acc + [] == acc;
    } else {
      var e, q1 := FirstClass(d, p, lim, hasHidden, cs, tail);
      var acc1, rest := acc + [e], cs[1..];
      assert |rest| == |cs| - 1 && acc1 + ClassEntries(rest) == acc + ClassEntries(cs);
      ClassesTurn(d, p, lim, hasHidden, |cs|, acc, e, q1);
      q := ClassesFromRoundTrip(d, q1, lim, hasHidden, rest, acc1, tail);
    }
  }

  /** The first entry of written classes, and the entries after it. */
  lemma {:induction false} FirstClass(d: seq<byte>, p: int, lim: int, hasHidden: bool,
                                      cs: seq<ClassRecord>, tail: seq<byte>)
    returns (e: (jlong, ClassRef), q: int)
    requires cs != [] && WrittenAt(d, p, lim, ClassesBytes(cs, hasHidden, tail))
    ensures InBuffer(d, p, lim) && ClassAt(d, p, lim, hasHidden) == Ok(Parsed(e, q))
    ensures ClassEntries(cs) == [e] + ClassEntries(cs[1..])
    ensures WrittenAt(d, q, lim, ClassesBytes(cs[1..], hasHidden, tail))
    ensures q + |ClassesBytes(cs[1..], hasHidden, tail)| == p + |ClassesBytes(cs, hasHidden, tail)|
  {
    e := ClassEntry(cs[0]);
    var rest := ClassesBytes(cs[1..], hasHidden, tail);
    assert ClassesBytes(cs, hasHidden, tail) == ClassBytes(cs[0], hasHidden, rest);
    q := ClassRoundTrip(d, p, lim, hasHidden, cs[0], rest);
  }

  /** One turn of readClasses' loop, once the entry is read. */
  lemma {:induction false} ClassesTurn(d: seq<byte>, p: int, lim: int, hasHidden: bool,
                                       n: int, acc: seq<(jlong, ClassRef)>, e: (jlong, ClassRef), q: int)
    requires InBuffer(d, p, lim) && 0 < n && ClassAt(d, p, lim, hasHidden) == Ok(Parsed(e, q))
    ensures InBuffer(d, q, lim)
    ensures ClassesFrom(d, p, lim, hasHidden, n, acc) == ClassesFrom(d, q, lim, hasHidden, n - 1, acc + [e])
  {
  }

  /** readClasses reads back a written pool: its count, then every entry. */
  lemma {:induction false} ClassesRoundTrip(d: seq<byte>, p: int, lim: int, hasHidden: bool,
                                            n: jint, cs: seq<ClassRecord>, tail: seq<byte>) returns (q: int)
    requires Int32(n) == |cs| && WrittenAt(d, p, lim, EncodeVarint(n) + ClassesBytes(cs, hasHidden, tail))
    ensures InBuffer(d, p, lim) && Classes(d, p, lim, hasHidden) == Ok(Parsed(ClassEntries(cs), q))
    ensures WrittenAt(d, q, lim, tail) && q + |tail| == p + |EncodeVarint(n)| + |ClassesBytes(cs, hasHidden, tail)|
  {
    NextVarint(d, p, lim, n, ClassesBytes(cs, hasHidden, tail));
    q := ClassesFromRoundTrip(d, p + |EncodeVarint(n)|, lim, hasHidden, cs, [], tail);
    assert [] + ClassEntries(cs) == ClassEntries(cs);
  }

  // ---------------------------------------------------------------------------
  // Methods

  datatype MethodRecord = MethodRecord(id: jlong, cls: jlong, name: jlong, sig: jlong, modifiers: jint, hidden: jint)

  /** A method entry, then `tail`. */
  function MethodBytes(m: MethodRecord, tail: seq<byte>): seq<byte> {
    EncodeVarlong(m.id) + (EncodeVarlong(m.cls) + (EncodeVarlong(m.name) + MethodTailBytes(m, tail)))
  }

  /** The signature, the modifiers and the hidden flag that end a method entry. */
  function MethodTailBytes(m: MethodRecord, tail: seq<byte>): seq<byte> {
    EncodeVarlong(m.sig) + (EncodeVarint(m.modifiers) + (EncodeVarint(m.hidden) + tail))
  }

  /** What the method table keeps of an entry: its id, and its class, name
      and signature ids. */
  function MethodEntry(m: MethodRecord): (jlong, MethodRef) {
    (m.id, MethodRef(m.cls, m.name, m.sig))
  }

  function MethodsBytes(ms: seq<MethodRecord>, tail: seq<byte>): seq<byte>
    decreases |ms|
  {
    if ms == [] then tail else MethodBytes(ms[0], MethodsBytes(ms[1..], tail))
  }

  function MethodEntries(ms: seq<MethodRecord>): (es: seq<(jlong, MethodRef)>)
    ensures |es| == |ms|
    decreases |ms|
  {
    if ms == [] then [] else [MethodEntry(ms[0])] + MethodEntries(ms[1..])
  }

  /** A method entry, once its fields are read. */
  lemma {:induction false} MethodReads(d: seq<byte>, p: int, lim: int, m: MethodRecord,
                                       p1: int, p2: int, p3: int, p4: int, p5: int, q: int)
    requires InBuffer(d, p, lim) && Varlong(d, p, lim) == Ok(Parsed(m.id, p1))
    requires InBuffer(d, p1, lim) && Varlong(d, p1, lim) == Ok(Parsed(m.cls, p2))
    requires InBuffer(d, p2, lim) && Varlong(d, p2, lim) == Ok(Parsed(m.name, p3))
    requires InBuffer(d, p3, lim) && Varlong(d, p3, lim) == Ok(Parsed(m.sig, p4))
    requires InBuffer(d, p4, lim) && Varint(d, p4, lim) == Ok(Parsed(m.modifiers, p5))
    requires InBuffer(d, p5, lim) && Varint(d, p5, lim) == Ok(Parsed(m.hidden, q))
    ensures MethodAt(d, p, lim) == Ok(Parsed(MethodEntry(m), q))
  {
  }

  /** The fields of a written method entry, one after the other. */
  lemma {:induction false} MethodFields(d: seq<byte>, p: int, lim: int, m: MethodRecord, tail: seq<byte>)
    returns (p1: int, p2: int, p3: int, p4: int, p5: int, q: int)
    requires WrittenAt(d, p, lim, MethodBytes(m, tail))
    ensures InBuffer(d, p, lim) && Varlong(d, p, lim) == Ok(Parsed(m.id, p1))
    ensures InBuffer(d, p1, lim) && Varlong(d, p1, lim) == Ok(Parsed(m.cls, p2))
    ensures InBuffer(d, p2, lim) && Varlong(d, p2, lim) == Ok(Parsed(m.name, p3))
    ensures InBuffer(d, p3, lim) && Varlong(d, p3, lim) == Ok(Parsed(m.sig, p4))
    ensures InBuffer(d, p4, lim) && Varint(d, p4, lim) == Ok(Parsed(m.modifiers, p5))
    ensures InBuffer(d, p5, lim) && Varint(d, p5, lim) == Ok(Parsed(m.hidden, q))
    ensures WrittenAt(d, q, lim, tail) && q + |tail| == p + |MethodBytes(m, tail)|
  {
    var t3 := MethodTailBytes(m, tail);
    var t2 := EncodeVarlong(m.name) + t3;
    var t1 := EncodeVarlong(m.cls) + t2;
    p1 := p + |EncodeVarlong(m.id)|;
    p2 := p1 + |EncodeVarlong(m.cls)|;
    p3 := p2 + |EncodeVarlong(m.name)|;
    NextVarlong(d, p, lim, m.id, t1);
    NextVarlong(d, p1, lim, m.cls, t2);
    NextVarlong(d, p2, lim, m.name, t3);
    p4, p5, q := MethodTailFields(d, p3, lim, m, tail);
  }

  lemma {:induction false} MethodTailFields(d: seq<byte>, p3: int, lim: int, m: MethodRecord, tail: seq<byte>)
    returns (p4: int, p5: int, q: int)
    requires WrittenAt(d, p3, lim, MethodTailBytes(m, tail))
    ensures InBuffer(d, p3, lim) && Varlong(d, p3, lim) == Ok(Parsed(m.sig, p4))
    ensures InBuffer(d, p4, lim) && Varint(d, p4, lim) == Ok(Parsed(m.modifiers, p5))
    ensures InBuffer(d, p5, lim) && Varint(d, p5, lim) == Ok(Parsed(m.hidden, q))
    ensures WrittenAt(d, q, lim, tail) && q + |tail| == p3 + |MethodTailBytes(m, tail)|
  {
    p4 := p3 + |EncodeVarlong(m.sig)|;
    p5 := p4 + |EncodeVarint(m.modifiers)|;
    q := p5 + |EncodeVarint(m.hidden)|;
    NextVarlong(d, p3, lim, m.sig, EncodeVarint(m.modifiers) + (EncodeVarint(m.hidden) + tail));
    NextVarint(d, p4, lim, m.modifiers, EncodeVarint(m.hidden) + tail);
    NextVarint(d, p5, lim, m.hidden, tail);
  }

  /** A method entry reads back as its id and its class, name and signature
      ids, having consumed the modifiers and the hidden flag too. */
  lemma {:induction false} MethodRoundTrip(d: seq<byte>, p: int, lim: int, m: MethodRecord, tail: seq<byte>)
    returns (q: int)
    requires WrittenAt(d, p, lim, MethodBytes(m, tail))
    ensures InBuffer(d, p, lim) && MethodAt(d, p, lim) == Ok(Parsed(MethodEntry(m), q))
    ensures WrittenAt(d, q, lim, tail) && q + |tail| == p + |MethodBytes(m, tail)|
  {
    var p1, p2, p3, p4, p5;
    p1, p2, p3, p4, p5, q := MethodFields(d, p, lim, m, tail);
    MethodReads(d, p, lim, m, p1, p2, p3, p4, p5, q);
  }

  /** readMethods' loop reads back every entry written, in order. */
  lemma {:induction false} MethodsFromRoundTrip(d: seq<byte>, p: int, lim: int,
                                                ms: seq<MethodRecord>, acc: seq<(jlong, MethodRef)>, tail: seq<byte>)
    returns (q: int)
    requires WrittenAt(d, p, lim, MethodsBytes(ms, tail))
    ensures InBuffer(d, p, lim)
    ensures MethodsFrom(d, p, lim, |ms|, acc) == Ok(Parsed(acc + MethodEntries(ms), q))
    ensures WrittenAt(d, q, lim, tail) && q + |tail| == p + |MethodsBytes(ms, tail)|
    decreases |ms|
  {
    if ms == [] {
      WrittenBounds(d, p, lim, tail);
      q := p;
      assert acc + [] == acc;
    } else {
      var e, q1 := FirstMethod(d, p, lim, ms, tail);
      var acc1, rest := acc + [e], ms[1..];
      assert |rest| == |ms| - 1 && acc1 + MethodEntries(rest) == acc + MethodEntries(ms);
      MethodsTurn(d, p, lim, |ms|, acc, e, q1);
      q := MethodsFromRoundTrip(d, q1, lim, rest, acc1, tail);
    }
  }

  /** The first entry of written methods, and the entries after it. */
  lemma {:induction false} FirstMethod(d: seq<byte>, p: int, lim: int, ms: seq<MethodRecord>, tail: seq<byte>)
    returns (e: (jlong, MethodRef), q: int)
    requires ms != [] && WrittenAt(d, p, lim, MethodsBytes(ms, tail))
    ensures InBuffer(d, p, lim) && MethodAt(d, p, lim) == Ok(Parsed(e, q))
    ensures MethodEntries(ms) == [e] + MethodEntries(ms[1..])
    ensures WrittenAt(d, q, lim, MethodsBytes(ms[1..], tail))
    ensures q + |MethodsBytes(ms[1..], tail)| == p + |MethodsBytes(ms, tail)|
  {
    e := MethodEntry(ms[0]);
    var rest := MethodsBytes(ms[1..], tail);
    assert MethodsBytes(ms, tail) == MethodBytes(ms[0], rest);
    q := MethodRoundTrip(d, p, lim, ms[0], rest);
  }

  /** One turn of readMethods' loop, once the entry is read. */
  lemma {:induction false} MethodsTurn(d: seq<byte>, p: int, lim: int, n: int, acc: seq<(jlong, MethodRef)>,
                                       e: (jlong, MethodRef), q: int)
    requires InBuffer(d, p, lim) && 0 < n && MethodAt(d, p, lim) == Ok(Parsed(e, q))
    ensures InBuffer(d, q, lim)
    ensures MethodsFrom(d, p, lim, n, acc) == MethodsFrom(d, q, lim, n - 1, acc + [e])
  {
  }

  /** readMethods reads back a written pool: its count, then every entry. */
  lemma {:induction false} MethodsRoundTrip(d: seq<byte>, p: int, lim: int, n: jint, ms: seq<MethodRecord>, tail: seq<byte>)
    returns (q: int)
    requires Int32(n) == |ms| && WrittenAt(d, p, lim, EncodeVarint(n) + MethodsBytes(ms, tail))
    ensures InBuffer(d, p, lim) && Methods(d, p, lim) == Ok(Parsed(MethodEntries(ms), q))
    ensures WrittenAt(d, q, lim, tail) && q + |tail| == p + |EncodeVarint(n)| + |MethodsBytes(ms, tail)|
  {
    NextVarint(d, p, lim, n, MethodsBytes(ms, tail));
    q := MethodsFromRoundTrip(d, p + |EncodeVarint(n)|, lim, ms, [], tail);
    assert [] + MethodEntries(ms) == MethodEntries(ms);
  }

  // ---------------------------------------------------------------------------
  // Symbols

  /** A symbol: its id and its bytes, whose length bits are `length`. */
  datatype SymbolRecord = SymbolRecord(id: jlong, length: jint, bytes: seq<byte>)

  predicate SymbolsEncodable(ss: seq<SymbolRecord>) {
    forall i :: 0 <= i < |ss| ==> Int32(ss[i].length) == |ss[i].bytes|
  }

  /** A symbol entry, then `tail`: the id, the encoding byte 3, and the bytes
      as getBytes expects them. */
  function SymbolBytes(s: SymbolRecord, tail: seq<byte>): seq<byte>
    requires Int32(s.length) == |s.bytes|
  {
    EncodeVarlong(s.id) + ([3] + (EncodeBytes(s.length, s.bytes) + tail))
  }

  function SymbolsBytes(ss: seq<SymbolRecord>, tail: seq<byte>): seq<byte>
    requires SymbolsEncodable(ss)
    decreases |ss|
  {
    if ss == [] then tail else SymbolBytes(ss[0], SymbolsBytes(ss[1..], tail))
  }

  function SymbolEntries(ss: seq<SymbolRecord>): (es: seq<(jlong, seq<byte>)>)
    ensures |es| == |ss|
    decreases |ss|
  {
    if ss == [] then [] else [(ss[0].id, ss[0].bytes)] + SymbolEntries(ss[1..])
  }

  /** A symbol entry, once its fields are read. */
  lemma {:induction false} SymbolReads(d: seq<byte>, p: int, lim: int, s: SymbolRecord, p1: int, p2: int, q: int)
    requires InBuffer(d, p, lim) && Varlong(d, p, lim) == Ok(Parsed(s.id, p1))
    requires InBuffer(d, p1, lim) && Get(d, p1, lim) == Ok(Parsed(3, p2))
    requires InBuffer(d, p2, lim) && GetBytes(d, p2, lim) == Ok(Parsed(s.bytes, q))
    ensures SymbolAt(d, p, lim) == Ok(Parsed((s.id, s.bytes), q))
  {
  }

  /** A symbol entry reads back as its id and its bytes. */
  lemma {:induction false} SymbolRoundTrip(d: seq<byte>, p: int, lim: int, s: SymbolRecord, tail: seq<byte>)
    returns (q: int)
    requires Int32(s.length) == |s.bytes| && WrittenAt(d, p, lim, SymbolBytes(s, tail))
    ensures InBuffer(d, p, lim) && SymbolAt(d, p, lim) == Ok(Parsed((s.id, s.bytes), q))
    ensures WrittenAt(d, q, lim, tail) && q + |tail| == p + |SymbolBytes(s, tail)|
  {
    var p1 := p + |EncodeVarlong(s.id)|;
    var p2 := p1 + 1;
    q := p2 + |EncodeBytes(s.length, s.bytes)|;
    NextVarlong(d, p, lim, s.id, [3] + (EncodeBytes(s.length, s.bytes) + tail));
    NextByte(d, p1, lim, 3, EncodeBytes(s.length, s.bytes) + tail);
    NextBytes(d, p2, lim, s.length, s.bytes, tail);
    SymbolReads(d, p, lim, s, p1, p2, q);
  }

  /** A symbol whose encoding byte is not 3 is rejected, whatever its bytes. */
  lemma {:induction false} SymbolRejects(d: seq<byte>, p: int, lim: int, id: jlong, enc: byte, rest: seq<byte>)
    requires enc != 3 && WrittenAt(d, p, lim, EncodeVarlong(id) + ([enc] + rest))
    ensures InBuffer(d, p, lim) && SymbolAt(d, p, lim) == Err(InvalidSymbolEncoding)
  {
    NextVarlong(d, p, lim, id, [enc] + rest);
    NextByte(d, p + |EncodeVarlong(id)|, lim, enc, rest);
  }

  /** readSymbols' loop reads back every entry written, in order. */
  lemma {:induction false} SymbolsFromRoundTrip(d: seq<byte>, p: int, lim: int,
                                                ss: seq<SymbolRecord>, acc: seq<(jlong, seq<byte>)>, tail: seq<byte>)
    returns (q: int)
    requires SymbolsEncodable(ss) && WrittenAt(d, p, lim, SymbolsBytes(ss, tail))
    ensures InBuffer(d, p, lim)
    ensures SymbolsFrom(d, p, lim, |ss|, acc) == Ok(Parsed(acc + SymbolEntries(ss), q))
    ensures WrittenAt(d, q, lim, tail) && q + |tail| == p + |SymbolsBytes(ss, tail)|
    decreases |ss|
  {
    if ss == [] {
      WrittenBounds(d, p, lim, tail);
      q := p;
      assert acc + [] == acc;
    } else {
      var e, q1 := FirstSymbol(d, p, lim, ss, tail);
      var acc1, rest := acc + [e], ss[1..];
      assert |rest| == |ss| - 1 && acc1 + SymbolEntries(rest) == acc + SymbolEntries(ss);
      SymbolsTurn(d, p, lim, |ss|, acc, e, q1);
      q := SymbolsFromRoundTrip(d, q1, lim, rest, acc1, tail);
    }
  }

  /** The first entry of written symbols, and the entries after it. */
  lemma {:induction false} FirstSymbol(d: seq<byte>, p: int, lim: int, ss: seq<SymbolRecord>, tail: seq<byte>)
    returns (e: (jlong, seq<byte>), q: int)
    requires ss != [] && SymbolsEncodable(ss) && WrittenAt(d, p, lim, SymbolsBytes(ss, tail))
    ensures InBuffer(d, p, lim) && SymbolAt(d, p, lim) == Ok(Parsed(e, q))
    ensures SymbolEntries(ss) == [e] + SymbolEntries(ss[1..])
    ensures SymbolsEncodable(ss[1..]) && WrittenAt(d, q, lim, SymbolsBytes(ss[1..], tail))
    ensures q + |SymbolsBytes(ss[1..], tail)| == p + |SymbolsBytes(ss, tail)|
  {
    e := (ss[0].id, ss[0].bytes);
    assert SymbolsEncodable(ss[1..]) by {
      forall i | 0 <= i < |ss[1..]| ensures Int32(ss[1..][i].length) == |ss[1..][i].bytes| {
        assert ss[1..][i] == ss[i + 1];
      }
    }
    var rest := SymbolsBytes(ss[1..], tail);
    assert SymbolsBytes(ss, tail) == SymbolBytes(ss[0], rest);
    q := SymbolRoundTrip(d, p, lim, ss[0], rest);
  }

  /** One turn of readSymbols' loop, once the entry is read. */
  lemma {:induction false} SymbolsTurn(d: seq<byte>, p: int, lim: int, n: int, acc: seq<(jlong, seq<byte>)>,
                                       e: (jlong, seq<byte>), q: int)
    requires InBuffer(d, p, lim) && 0 < n && SymbolAt(d, p, lim) == Ok(Parsed(e, q))
    ensures InBuffer(d, q, lim)
    ensures SymbolsFrom(d, p, lim, n, acc) == SymbolsFrom(d, q, lim, n - 1, acc + [e])
  {
  }

  /** readSymbols reads back a written pool: its count, then every entry. */
  lemma {:induction false} SymbolsRoundTrip(d: seq<byte>, p: int, lim: int, n: jint, ss: seq<SymbolRecord>, tail: seq<byte>)
    returns (q: int)
    requires Int32(n) == |ss| && SymbolsEncodable(ss) && WrittenAt(d, p, lim, EncodeVarint(n) + SymbolsBytes(ss, tail))
    ensures InBuffer(d, p, lim) && Symbols(d, p, lim) == Ok(Parsed(SymbolEntries(ss), q))
    ensures WrittenAt(d, q, lim, tail) && q + |tail| == p + |EncodeVarint(n)| + |SymbolsBytes(ss, tail)|
  {
    NextVarint(d, p, lim, n, SymbolsBytes(ss, tail));
    q := SymbolsFromRoundTrip(d, p + |EncodeVarint(n)|, lim, ss, [], tail);
    assert [] + SymbolEntries(ss) == SymbolEntries(ss);
  }

  // ---------------------------------------------------------------------------
  // Maps (frame types, thread states)

  /** A map entry: its Integer key and its string. */
  datatype MapRecord = MapRecord(key: jint, value: StringForm)

  predicate MapEncodable(es: seq<MapRecord>) {
    forall i :: 0 <= i < |es| ==> Encodable(es[i].value)
  }

  /** A map entry, then `tail`: the key before the value. */
  function MapEntryBytes(e: MapRecord, tail: seq<byte>): seq<byte>
    requires Encodable(e.value)
  {
    EncodeVarint(e.key) + (EncodeString(e.value) + tail)
  }

  function MapBytes(es: seq<MapRecord>, tail: seq<byte>): seq<byte>
    requires MapEncodable(es)
    decreases |es|
  {
    if es == [] then tail else MapEntryBytes(es[0], MapBytes(es[1..], tail))
  }

  function MapPairs(es: seq<MapRecord>, utf8: seq<byte> -> seq<bv16>): (ps: seq<(jint, JStr)>)
    ensures |ps| == |es|
    decreases |es|
  {
    if es == [] then [] else [(es[0].key, Decoded(es[0].value, utf8))] + MapPairs(es[1..], utf8)
  }

  /** A map entry reads back as its key and its string. */
  lemma {:induction false} MapEntryRoundTrip(d: seq<byte>, p: int, lim: int, utf8: seq<byte> -> seq<bv16>,
                                             e: MapRecord, tail: seq<byte>) returns (q: int)
    requires Encodable(e.value) && WrittenAt(d, p, lim, MapEntryBytes(e, tail))
    ensures InBuffer(d, p, lim) && MapEntryAt(d, p, lim, utf8) == Ok(Parsed((e.key, Decoded(e.value, utf8)), q))
    ensures WrittenAt(d, q, lim, tail) && q + |tail| == p + |MapEntryBytes(e, tail)|
  {
    var p1 := p + |EncodeVarint(e.key)|;
    q := p1 + |EncodeString(e.value)|;
    NextVarint(d, p, lim, e.key, EncodeString(e.value) + tail);
    NextString(d, p1, lim, e.value, utf8, tail);
  }

  /** readMap's loop reads back every entry written, in order. */
  lemma {:induction false} MapFromRoundTrip(d: seq<byte>, p: int, lim: int, utf8: seq<byte> -> seq<bv16>,
                                            es: seq<MapRecord>, acc: seq<(jint, JStr)>, tail: seq<byte>)
    returns (q: int)
    requires MapEncodable(es) && WrittenAt(d, p, lim, MapBytes(es, tail))
    ensures InBuffer(d, p, lim)
    ensures MapFrom(d, p, lim, utf8, |es|, acc) == Ok(Parsed(acc + MapPairs(es, utf8), q))
    ensures WrittenAt(d, q, lim, tail) && q + |tail| == p + |MapBytes(es, tail)|
    decreases |es|
  {
    if es == [] {
      WrittenBounds(d, p, lim, tail);
      q := p;
      assert acc + [] == acc;
    } else {
      var e, q1 := FirstMapEntry(d, p, lim, utf8, es, tail);
      var acc1, rest := acc + [e], es[1..];
      assert |rest| == |es| - 1 && acc1 + MapPairs(rest, utf8) == acc + MapPairs(es, utf8);
      MapTurn(d, p, lim, utf8, |es|, acc, e, q1);
      q := MapFromRoundTrip(d, q1, lim, utf8, rest, acc1, tail);
    }
  }

  /** The first entry of a written map, and the entries after it. */
  lemma {:induction false} FirstMapEntry(d: seq<byte>, p: int, lim: int, utf8: seq<byte> -> seq<bv16>,
                                         es: seq<MapRecord>, tail: seq<byte>) returns (e: (jint, JStr), q: int)
    requires es != [] && MapEncodable(es) && WrittenAt(d, p, lim, MapBytes(es, tail))
    ensures InBuffer(d, p, lim) && MapEntryAt(d, p, lim, utf8) == Ok(Parsed(e, q))
    ensures MapPairs(es, utf8) == [e] + MapPairs(es[1..], utf8)
    ensures MapEncodable(es[1..]) && WrittenAt(d, q, lim, MapBytes(es[1..], tail))
    ensures q + |MapBytes(es[1..], tail)| == p + |MapBytes(es, tail)|
  {
    e := (es[0].key, Decoded(es[0].value, utf8));
    assert MapEncodable(es[1..]) by {
      forall i | 0 <= i < |es[1..]| ensures Encodable(es[1..][i].value) {
        assert es[1..][i] == es[i + 1];
      }
    }
    var rest := MapBytes(es[1..], tail);
    assert MapBytes(es, tail) == MapEntryBytes(es[0], rest);
    q := MapEntryRoundTrip(d, p, lim, utf8, es[0], rest);
  }

  /** One turn of readMap's loop, once the entry is read. */
  lemma {:induction false} MapTurn(d: seq<byte>, p: int, lim: int, utf8: seq<byte> -> seq<bv16>, n: int,
                                   acc: seq<(jint, JStr)>, e: (jint, JStr), q: int)
    requires InBuffer(d, p, lim) && 0 < n && MapEntryAt(d, p, lim, utf8) == Ok(Parsed(e, q))
    ensures InBuffer(d, q, lim)
    ensures MapFrom(d, p, lim, utf8, n, acc) == MapFrom(d, q, lim, utf8, n - 1, acc + [e])
  {
  }

  /** readMap reads back a written map: its count, then every entry. */
  lemma {:induction false} MapRoundTrip(d: seq<byte>, p: int, lim: int, utf8: seq<byte> -> seq<bv16>,
                                        n: jint, es: seq<MapRecord>, tail: seq<byte>) returns (q: int)
    requires Int32(n) == |es| && MapEncodable(es) && WrittenAt(d, p, lim, EncodeVarint(n) + MapBytes(es, tail))
    ensures InBuffer(d, p, lim) && MapEntries(d, p, lim, utf8) == Ok(Parsed(MapPairs(es, utf8), q))
    ensures WrittenAt(d, q, lim, tail) && q + |tail| == p + |EncodeVarint(n)| + |MapBytes(es, tail)|
  {
    NextVarint(d, p, lim, n, MapBytes(es, tail));
    q := MapFromRoundTrip(d, p + |EncodeVarint(n)|, lim, utf8, es, [], tail);
    assert [] + MapPairs(es, utf8) == MapPairs(es, utf8);
  }

  // ---------------------------------------------------------------------------
  // Stack traces

  /** A frame: its method id, line, bytecode index and frame type. */
  datatype FrameRecord = FrameRecord(methodId: jlong, line: jint, bci: jint, frameType: byte)

  /** A stack trace: its id, the truncated flag, the depth bits and the frames. */
  datatype StackTraceRecord = StackTraceRecord(id: jlong, truncated: jint, depth: jint, frames: seq<FrameRecord>)

  predicate StackTracesEncodable(ss: seq<StackTraceRecord>) {
    forall i :: 0 <= i < |ss| ==> Int32(ss[i].depth) == |ss[i].frames|
  }

  /** A frame, then `tail`. */
  function FrameBytes(f: FrameRecord, tail: seq<byte>): seq<byte> {
    EncodeVarlong(f.methodId) + (EncodeVarint(f.line) + (EncodeVarint(f.bci) + ([f.frameType] + tail)))
  }

  function FramesBytes(fs: seq<FrameRecord>, tail: seq<byte>): seq<byte>
    decreases |fs|
  {
    if fs == [] then tail else FrameBytes(fs[0], FramesBytes(fs[1..], tail))
  }

  /** The method ids a stack trace keeps, one per frame. */
  function FrameMethods(fs: seq<FrameRecord>): (ms: seq<jlong>)
    ensures |ms| == |fs|
    decreases |fs|
  {
    if fs == [] then [] else [fs[0].methodId] + FrameMethods(fs[1..])
  }

  /** The frame types a stack trace keeps, one per frame. */
  function FrameTypes(fs: seq<FrameRecord>): (ts: seq<byte>)
    ensures |ts| == |fs|
    decreases |fs|
  {
    if fs == [] then [] else [fs[0].frameType] + FrameTypes(fs[1..])
  }

  /** A stack trace entry, then `tail`. */
  function StackTraceBytes(s: StackTraceRecord, tail: seq<byte>): seq<byte> {
    EncodeVarlong(s.id) + (EncodeVarint(s.truncated) + (EncodeVarint(s.depth) + FramesBytes(s.frames, tail)))
  }

  /** What the stack trace table keeps of an entry: its id, and the method id
      and type of each frame, in order. */
  function StackTraceEntry(s: StackTraceRecord): (jlong, StackTrace) {
    (s.id, StackTrace(FrameMethods(s.frames), FrameTypes(s.frames)))
  }

  function StackTracesBytes(ss: seq<StackTraceRecord>, tail: seq<byte>): seq<byte>
    decreases |ss|
  {
    if ss == [] then tail else StackTraceBytes(ss[0], StackTracesBytes(ss[1..], tail))
  }

  function StackTraceEntries(ss: seq<StackTraceRecord>): (es: seq<(jlong, StackTrace)>)
    ensures |es| == |ss|
    decreases |ss|
  {
    if ss == [] then [] else [StackTraceEntry(ss[0])] + StackTraceEntries(ss[1..])
  }

  /** A frame reads back as its method id and its type; the line and the
      bytecode index are read and dropped. */
  lemma {:induction false} FrameRoundTrip(d: seq<byte>, p: int, lim: int, f: FrameRecord, tail: seq<byte>)
    returns (q: int)
    requires WrittenAt(d, p, lim, FrameBytes(f, tail))
    ensures InBuffer(d, p, lim) && FrameAt(d, p, lim) == Ok(Parsed((f.methodId, f.frameType), q))
    ensures WrittenAt(d, q, lim, tail) && q + |tail| == p + |FrameBytes(f, tail)|
  {
    var p1 := p + |EncodeVarlong(f.methodId)|;
    var p2 := p1 + |EncodeVarint(f.line)|;
    var p3 := p2 + |EncodeVarint(f.bci)|;
    q := p3 + 1;
    NextVarlong(d, p, lim, f.methodId, EncodeVarint(f.line) + (EncodeVarint(f.bci) + ([f.frameType] + tail)));
    NextVarint(d, p1, lim, f.line, EncodeVarint(f.bci) + ([f.frameType] + tail));
    NextVarint(d, p2, lim, f.bci, [f.frameType] + tail);
    NextByte(d, p3, lim, f.frameType, tail);
  }

  /** readStackTrace's frame loop reads back every frame written, after the
      method ids and types it holds. */
  lemma {:induction false} FramesFromRoundTrip(d: seq<byte>, p: int, lim: int, fs: seq<FrameRecord>,
                                               ms: seq<jlong>, ts: seq<byte>, tail: seq<byte>) returns (q: int)
    requires |ms| == |ts| && WrittenAt(d, p, lim, FramesBytes(fs, tail))
    ensures InBuffer(d, p, lim)
    ensures FramesFrom(d, p, lim, |fs|, ms, ts) == Ok(Parsed(StackTrace(ms + FrameMethods(fs), ts + FrameTypes(fs)), q))
    ensures WrittenAt(d, q, lim, tail) && q + |tail| == p + |FramesBytes(fs, tail)|
    decreases |fs|
  {
    if fs == [] {
      WrittenBounds(d, p, lim, tail);
      q := p;
      assert ms + [] == ms && ts + [] == ts;
    } else {
      var m, t, q1 := FirstFrame(d, p, lim, fs, tail);
      var ms1, ts1, rest := ms + [m], ts + [t], fs[1..];
      Shifted(ms, m, FrameMethods(rest));
      Shifted(ts, t, FrameTypes(rest));
      FramesTurn(d, p, lim, |fs|, ms, ts, m, t, q1);
      q := FramesFromRoundTrip(d, q1, lim, rest, ms1, ts1, tail);
    }
  }

  /** Moving the first of the elements still to come onto those already taken. */
  lemma {:induction false} Shifted<T>(taken: seq<T>, x: T, rest: seq<T>)
    ensures (taken + [x]) + rest == taken + ([x] + rest)
  {
  }

  /** The first of written frames, and the frames after it. */
  lemma {:induction false} FirstFrame(d: seq<byte>, p: int, lim: int, fs: seq<FrameRecord>, tail: seq<byte>)
    returns (m: jlong, t: byte, q: int)
    requires fs != [] && WrittenAt(d, p, lim, FramesBytes(fs, tail))
    ensures InBuffer(d, p, lim) && FrameAt(d, p, lim) == Ok(Parsed((m, t), q))
    ensures FrameMethods(fs) == [m] + FrameMethods(fs[1..]) && FrameTypes(fs) == [t] + FrameTypes(fs[1..])
    ensures WrittenAt(d, q, lim, FramesBytes(fs[1..], tail))
    ensures q + |FramesBytes(fs[1..], tail)| == p + |FramesBytes(fs, tail)|
  {
    m, t := fs[0].methodId, fs[0].frameType;
    var rest := FramesBytes(fs[1..], tail);
    assert FramesBytes(fs, tail) == FrameBytes(fs[0], rest);
    q := FrameRoundTrip(d, p, lim, fs[0], rest);
  }

  /** One turn of the frame loop, once the frame is read. */
  lemma {:induction false} FramesTurn(d: seq<byte>, p: int, lim: int, n: nat, ms: seq<jlong>, ts: seq<byte>,
                                      m: jlong, t: byte, q: int)
    requires InBuffer(d, p, lim) && |ms| == |ts| && 0 < n && FrameAt(d, p, lim) == Ok(Parsed((m, t), q))
    ensures InBuffer(d, q, lim)
    ensures FramesFrom(d, p, lim, n, ms, ts) == FramesFrom(d, q, lim, n - 1, ms + [m], ts + [t])
  {
  }

  /** A stack trace, once its id, its flag, its depth and its frames are read. */
  lemma {:induction false} StackTraceReads(d: seq<byte>, p: int, lim: int, s: StackTraceRecord,
                                           p1: int, p2: int, p3: int, q: int)
    requires Int32(s.depth) == |s.frames|
    requires InBuffer(d, p, lim) && Varlong(d, p, lim) == Ok(Parsed(s.id, p1))
    requires InBuffer(d, p1, lim) && Varint(d, p1, lim) == Ok(Parsed(s.truncated, p2))
    requires InBuffer(d, p2, lim) && Varint(d, p2, lim) == Ok(Parsed(s.depth, p3))
    requires InBuffer(d, p3, lim)
    requires FramesFrom(d, p3, lim, |s.frames|, [], []) == Ok(Parsed(StackTraceEntry(s).1, q))
    ensures StackTraceAt(d, p, lim) == Ok(Parsed(StackTraceEntry(s), q))
  {
  }

  /** A stack trace entry reads back as its id and its frames' method ids and
      types, having consumed the truncated flag, the depth and every frame. */
  lemma {:induction false} StackTraceRoundTrip(d: seq<byte>, p: int, lim: int, s: StackTraceRecord, tail: seq<byte>)
    returns (q: int)
    requires Int32(s.depth) == |s.frames| && WrittenAt(d, p, lim, StackTraceBytes(s, tail))
    ensures InBuffer(d, p, lim) && StackTraceAt(d, p, lim) == Ok(Parsed(StackTraceEntry(s), q))
    ensures WrittenAt(d, q, lim, tail) && q + |tail| == p + |StackTraceBytes(s, tail)|
  {
    var frames := FramesBytes(s.frames, tail);
    var p1 := p + |EncodeVarlong(s.id)|;
    var p2 := p1 + |EncodeVarint(s.truncated)|;
    var p3 := p2 + |EncodeVarint(s.depth)|;
    NextVarlong(d, p, lim, s.id, EncodeVarint(s.truncated) + (EncodeVarint(s.depth) + frames));
    NextVarint(d, p1, lim, s.truncated, EncodeVarint(s.depth) + frames);
    NextVarint(d, p2, lim, s.depth, frames);
    q := FramesFromRoundTrip(d, p3, lim, s.frames, [], [], tail);
    assert [] + FrameMethods(s.frames) == FrameMethods(s.frames) && [] + FrameTypes(s.frames) == FrameTypes(s.frames);
    StackTraceReads(d, p, lim, s, p1, p2, p3, q);
  }

  /** readStackTraces' loop reads back every entry written, in order. */
  lemma {:induction false} StackTracesFromRoundTrip(d: seq<byte>, p: int, lim: int,
                                                    ss: seq<StackTraceRecord>, acc: seq<(jlong, StackTrace)>, tail: seq<byte>)
    returns (q: int)
    requires StackTracesEncodable(ss) && WrittenAt(d, p, lim, StackTracesBytes(ss, tail))
    ensures InBuffer(d, p, lim)
    ensures StackTracesFrom(d, p, lim, |ss|, acc) == Ok(Parsed(acc + StackTraceEntries(ss), q))
    ensures WrittenAt(d, q, lim, tail) && q + |tail| == p + |StackTracesBytes(ss, tail)|
    decreases |ss|
  {
    if ss == [] {
      WrittenBounds(d, p, lim, tail);
      q := p;
      assert acc + [] == acc;
    } else {
      var e, q1 := FirstStackTrace(d, p, lim, ss, tail);
      var acc1, rest := acc + [e], ss[1..];
      assert |rest| == |ss| - 1 && acc1 + StackTraceEntries(rest) == acc + StackTraceEntries(ss);
      StackTracesTurn(d, p, lim, |ss|, acc, e, q1);
      q := StackTracesFromRoundTrip(d, q1, lim, rest, acc1, tail);
    }
  }

  /** The first entry of written stack traces, and the entries after it. */
  lemma {:induction false} FirstStackTrace(d: seq<byte>, p: int, lim: int, ss: seq<StackTraceRecord>, tail: seq<byte>)
    returns (e: (jlong, StackTrace), q: int)
    requires ss != [] && StackTracesEncodable(ss) && WrittenAt(d, p, lim, StackTracesBytes(ss, tail))
    ensures InBuffer(d, p, lim) && StackTraceAt(d, p, lim) == Ok(Parsed(e, q))
    ensures StackTraceEntries(ss) == [e] + StackTraceEntries(ss[1..])
    ensures StackTracesEncodable(ss[1..]) && WrittenAt(d, q, lim, StackTracesBytes(ss[1..], tail))
    ensures q + |StackTracesBytes(ss[1..], tail)| == p + |StackTracesBytes(ss, tail)|
  {
    e := StackTraceEntry(ss[0]);
    assert StackTracesEncodable(ss[1..]) by {
      forall i | 0 <= i < |ss[1..]| ensures Int32(ss[1..][i].depth) == |ss[1..][i].frames| {
        assert ss[1..][i] == ss[i + 1];
      }
    }
    var rest := StackTracesBytes(ss[1..], tail);
    assert StackTracesBytes(ss, tail) == StackTraceBytes(ss[0], rest);
    q := StackTraceRoundTrip(d, p, lim, ss[0], rest);
  }

  /** One turn of readStackTraces' loop, once the entry is read. */
  lemma {:induction false} StackTracesTurn(d: seq<byte>, p: int, lim: int, n: int, acc: seq<(jlong, StackTrace)>,
                                           e: (jlong, StackTrace), q: int)
    requires InBuffer(d, p, lim) && 0 < n && StackTraceAt(d, p, lim) == Ok(Parsed(e, q))
    ensures InBuffer(d, q, lim)
    ensures StackTracesFrom(d, p, lim, n, acc) == StackTracesFrom(d, q, lim, n - 1, acc + [e])
  {
  }

  /** readStackTraces reads back a written pool: its count, then every entry. */
  lemma {:induction false} StackTracesRoundTrip(d: seq<byte>, p: int, lim: int, n: jint, ss: seq<StackTraceRecord>,
                                                tail: seq<byte>) returns (q: int)
    requires Int32(n) == |ss| && StackTracesEncodable(ss)
    requires WrittenAt(d, p, lim, EncodeVarint(n) + StackTracesBytes(ss, tail))
    ensures InBuffer(d, p, lim) && StackTraces(d, p, lim) == Ok(Parsed(StackTraceEntries(ss), q))
    ensures WrittenAt(d, q, lim, tail) && q + |tail| == p + |EncodeVarint(n)| + |StackTracesBytes(ss, tail)|
  {
    NextVarint(d, p, lim, n, StackTracesBytes(ss, tail));
    q := StackTracesFromRoundTrip(d, p + |EncodeVarint(n)|, lim, ss, [], tail);
    assert [] + StackTraceEntries(ss) == StackTraceEntries(ss);
  }

  // ---------------------------------------------------------------------------
  // Constants of other types

  /** One field of a constant: a number, or a string. */
  datatype FieldValue = Num(v: jlong) | Text(s: StringForm)

  /** The values `vs` are of the kinds the flags from `i` on call for, one
      per flag, and every string can be put down. */
  predicate FieldsMatch(numeric: seq<bool>, i: nat, vs: seq<FieldValue>) {
    && i + |vs| == |numeric|
    && forall k :: 0 <= k < |vs| ==> (vs[k].Num? <==> numeric[i + k]) && (vs[k].Text? ==> Encodable(vs[k].s))
  }

  /** A constant: its id and its fields. */
  datatype OtherRecord = OtherRecord(id: jlong, values: seq<FieldValue>)

  predicate OthersMatch(numeric: seq<bool>, os: seq<OtherRecord>) {
    forall j :: 0 <= j < |os| ==> FieldsMatch(numeric, 0, os[j].values)
  }

  /** A field, then `tail`. */
  function FieldBytes(v: FieldValue, tail: seq<byte>): seq<byte>
    requires v.Text? ==> Encodable(v.s)
  {
    match v
    case Num(x) => EncodeVarlong(x) + tail
    case Text(f) => EncodeString(f) + tail
  }

  function FieldsBytes(vs: seq<FieldValue>, tail: seq<byte>): seq<byte>
    requires forall k :: 0 <= k < |vs| ==> vs[k].Text? ==> Encodable(vs[k].s)
    decreases |vs|
  {
    if vs == [] then tail else FieldBytes(vs[0], FieldsBytes(vs[1..], tail))
  }

  /** A constant, then `tail`. */
  function OtherBytes(o: OtherRecord, tail: seq<byte>): seq<byte>
    requires forall k :: 0 <= k < |o.values| ==> o.values[k].Text? ==> Encodable(o.values[k].s)
  {
    EncodeVarlong(o.id) + FieldsBytes(o.values, tail)
  }

  function OthersBytes(numeric: seq<bool>, os: seq<OtherRecord>, tail: seq<byte>): seq<byte>
    requires OthersMatch(numeric, os)
    decreases |os|
  {
    if os == [] then tail
    else
      assert FieldsMatch(numeric, 0, os[0].values);
      assert OthersMatch(numeric, os[1..]) by {
        forall j | 0 <= j < |os[1..]| ensures FieldsMatch(numeric, 0, os[1..][j].values) {
          assert os[1..][j] == os[j + 1];
        }
      }
      OtherBytes(os[0], OthersBytes(numeric, os[1..], tail))
  }

  /** A field is read as the flag says, and ends where it was written to. */
  lemma {:induction false} FieldRoundTrip(d: seq<byte>, p: int, lim: int, utf8: seq<byte> -> seq<bv16>,
                                          v: FieldValue, tail: seq<byte>) returns (q: int)
    requires (v.Text? ==> Encodable(v.s)) && WrittenAt(d, p, lim, FieldBytes(v, tail))
    ensures InBuffer(d, p, lim) && FieldAt(d, p, lim, utf8, v.Num?) == Ok(q)
    ensures WrittenAt(d, q, lim, tail) && q + |tail| == p + |FieldBytes(v, tail)|
  {
    match v
    case Num(x) =>
      q := p + |EncodeVarlong(x)|;
      NextVarlong(d, p, lim, x, tail);
    case Text(f) =>
      q := p + |EncodeString(f)|;
      NextString(d, p, lim, f, utf8, tail);
  }

  /** readFields reads every field of a written constant, each as its flag
      says, and stops after the last. */
  lemma {:induction false} FieldsFromRoundTrip(d: seq<byte>, p: int, lim: int, utf8: seq<byte> -> seq<bv16>,
                                               numeric: seq<bool>, i: nat, vs: seq<FieldValue>, tail: seq<byte>)
    returns (q: int)
    requires FieldsMatch(numeric, i, vs) && WrittenAt(d, p, lim, FieldsBytes(vs, tail))
    ensures InBuffer(d, p, lim) && FieldsFrom(d, p, lim, utf8, numeric, i) == Ok(q)
    ensures WrittenAt(d, q, lim, tail) && q + |tail| == p + |FieldsBytes(vs, tail)|
    decreases |vs|
  {
    if vs == [] {
      WrittenBounds(d, p, lim, tail);
      q := p;
    } else {
      var q1 := FirstField(d, p, lim, utf8, numeric, i, vs, tail);
      FieldsTurn(d, p, lim, utf8, numeric, i, q1);
      q := FieldsFromRoundTrip(d, q1, lim, utf8, numeric, i + 1, vs[1..], tail);
    }
  }

  /** The first of written fields, and the fields after it. */
  lemma {:induction false} FirstField(d: seq<byte>, p: int, lim: int, utf8: seq<byte> -> seq<bv16>,
                                      numeric: seq<bool>, i: nat, vs: seq<FieldValue>, tail: seq<byte>) returns (q: int)
    requires vs != [] && FieldsMatch(numeric, i, vs) && WrittenAt(d, p, lim, FieldsBytes(vs, tail))
    ensures i < |numeric| && InBuffer(d, p, lim) && FieldAt(d, p, lim, utf8, numeric[i]) == Ok(q)
    ensures FieldsMatch(numeric, i + 1, vs[1..]) && WrittenAt(d, q, lim, FieldsBytes(vs[1..], tail))
    ensures q + |FieldsBytes(vs[1..], tail)| == p + |FieldsBytes(vs, tail)|
  {
    assert vs[0].Num? <==> numeric[i + 0];
    assert FieldsMatch(numeric, i + 1, vs[1..]) by {
      forall k | 0 <= k < |vs[1..]|
        ensures (vs[1..][k].Num? <==> numeric[i + 1 + k]) && (vs[1..][k].Text? ==> Encodable(vs[1..][k].s))
      {
        assert vs[1..][k] == vs[k + 1];
      }
    }
    var rest := FieldsBytes(vs[1..], tail);
    assert FieldsBytes(vs, tail) == FieldBytes(vs[0], rest);
    q := FieldRoundTrip(d, p, lim, utf8, vs[0], rest);
  }

  /** One turn of readFields' loop, once the field is read. */
  lemma {:induction false} FieldsTurn(d: seq<byte>, p: int, lim: int, utf8: seq<byte> -> seq<bv16>,
                                      numeric: seq<bool>, i: nat, q: int)
    requires InBuffer(d, p, lim) && i < |numeric| && FieldAt(d, p, lim, utf8, numeric[i]) == Ok(q)
    ensures InBuffer(d, q, lim)
    ensures FieldsFrom(d, p, lim, utf8, numeric, i) == FieldsFrom(d, q, lim, utf8, numeric, i + 1)
  {
  }

  /** A constant of another type is read whole: its id, then its fields. */
  lemma {:induction false} OtherRoundTrip(d: seq<byte>, p: int, lim: int, utf8: seq<byte> -> seq<bv16>,
                                          numeric: seq<bool>, o: OtherRecord, tail: seq<byte>) returns (q: int)
    requires FieldsMatch(numeric, 0, o.values) && WrittenAt(d, p, lim, OtherBytes(o, tail))
    ensures InBuffer(d, p, lim) && OtherAt(d, p, lim, utf8, numeric) == Ok(q)
    ensures WrittenAt(d, q, lim, tail) && q + |tail| == p + |OtherBytes(o, tail)|
  {
    var fields := FieldsBytes(o.values, tail);
    var p1 := p + |EncodeVarlong(o.id)|;
    NextVarlong(d, p, lim, o.id, fields);
    q := FieldsFromRoundTrip(d, p1, lim, utf8, numeric, 0, o.values, tail);
    OtherReads(d, p, lim, utf8, numeric, o.id, p1, q);
  }

  /** A constant of another type, once its id and its fields are read. */
  lemma {:induction false} OtherReads(d: seq<byte>, p: int, lim: int, utf8: seq<byte> -> seq<bv16>,
                                      numeric: seq<bool>, id: jlong, p1: int, q: int)
    requires InBuffer(d, p, lim) && Varlong(d, p, lim) == Ok(Parsed(id, p1))
    requires InBuffer(d, p1, lim) && FieldsFrom(d, p1, lim, utf8, numeric, 0) == Ok(q)
    ensures OtherAt(d, p, lim, utf8, numeric) == Ok(q)
  {
  }

  /** readOtherConstants' loop reads every written constant, and stops after
      the last. */
  lemma {:induction false} OtherFromRoundTrip(d: seq<byte>, p: int, lim: int, utf8: seq<byte> -> seq<bv16>,
                                              numeric: seq<bool>, os: seq<OtherRecord>, tail: seq<byte>) returns (q: int)
    requires OthersMatch(numeric, os) && WrittenAt(d, p, lim, OthersBytes(numeric, os, tail))
    ensures InBuffer(d, p, lim) && OtherFrom(d, p, lim, utf8, numeric, |os|) == Ok(q)
    ensures WrittenAt(d, q, lim, tail) && q + |tail| == p + |OthersBytes(numeric, os, tail)|
    decreases |os|
  {
    if os == [] {
      WrittenBounds(d, p, lim, tail);
      q := p;
    } else {
      var q1 := FirstOther(d, p, lim, utf8, numeric, os, tail);
      OtherTurn(d, p, lim, utf8, numeric, |os|, q1);
      q := OtherFromRoundTrip(d, q1, lim, utf8, numeric, os[1..], tail);
    }
  }

  /** The first of written constants, and the constants after it. */
  lemma {:induction false} FirstOther(d: seq<byte>, p: int, lim: int, utf8: seq<byte> -> seq<bv16>,
                                      numeric: seq<bool>, os: seq<OtherRecord>, tail: seq<byte>) returns (q: int)
    requires os != [] && OthersMatch(numeric, os) && WrittenAt(d, p, lim, OthersBytes(numeric, os, tail))
    ensures InBuffer(d, p, lim) && OtherAt(d, p, lim, utf8, numeric) == Ok(q)
    ensures OthersMatch(numeric, os[1..]) && WrittenAt(d, q, lim, OthersBytes(numeric, os[1..], tail))
    ensures q + |OthersBytes(numeric, os[1..], tail)| == p + |OthersBytes(numeric, os, tail)|
  {
    assert FieldsMatch(numeric, 0, os[0].values);
    assert OthersMatch(numeric, os[1..]) by {
      forall j | 0 <= j < |os[1..]| ensures FieldsMatch(numeric, 0, os[1..][j].values) {
        assert os[1..][j] == os[j + 1];
      }
    }
    var rest := OthersBytes(numeric, os[1..], tail);
    assert OthersBytes(numeric, os, tail) == OtherBytes(os[0], rest);
    q := OtherRoundTrip(d, p, lim, utf8, numeric, os[0], rest);
  }

  /** One turn of readOtherConstants' loop, once the constant is read. */
  lemma {:induction false} OtherTurn(d: seq<byte>, p: int, lim: int, utf8: seq<byte> -> seq<bv16>,
                                     numeric: seq<bool>, n: int, q: int)
    requires InBuffer(d, p, lim) && 0 < n && OtherAt(d, p, lim, utf8, numeric) == Ok(q)
    ensures InBuffer(d, q, lim)
    ensures OtherFrom(d, p, lim, utf8, numeric, n) == OtherFrom(d, q, lim, utf8, numeric, n - 1)
  {
  }

  /** readOtherConstants reads a written pool of another type whole: its
      count, then every constant, and stops right after them. */
  lemma {:induction false} OtherConstantsRoundTrip(d: seq<byte>, p: int, lim: int, utf8: seq<byte> -> seq<bv16>,
                                                   numeric: seq<bool>, n: jint, os: seq<OtherRecord>, tail: seq<byte>)
    returns (q: int)
    requires Int32(n) == |os| && OthersMatch(numeric, os)
    requires WrittenAt(d, p, lim, EncodeVarint(n) + OthersBytes(numeric, os, tail))
    ensures InBuffer(d, p, lim) && OtherConstants(d, p, lim, utf8, numeric) == Ok(q)
    ensures WrittenAt(d, q, lim, tail) && q + |tail| == p + |EncodeVarint(n)| + |OthersBytes(numeric, os, tail)|
  {
    NextVarint(d, p, lim, n, OthersBytes(numeric, os, tail));
    q := OtherFromRoundTrip(d, p + |EncodeVarint(n)|, lim, utf8, numeric, os, tail);
  }

  // ---------------------------------------------------------------------------
  // Pool header

  /** The seven numbers that open a pool. */
  datatype PoolRecord = PoolRecord(size: jint, kind: jint, start: jlong, duration: jlong, delta: jlong,
                                   flush: jint, count: jint)

  /** A pool header, then `tail`. */
  function PoolHeaderBytes(h: PoolRecord, tail: seq<byte>): seq<byte> {
    EncodeVarint(h.size) + (EncodeVarint(h.kind) + (EncodeVarlong(h.start) + PoolTimesBytes(h, tail)))
  }

  /** The duration, the delta, the flush flag and the count that end a pool header. */
  function PoolTimesBytes(h: PoolRecord, tail: seq<byte>): seq<byte> {
    EncodeVarlong(h.duration) + (EncodeVarlong(h.delta) + (EncodeVarint(h.flush) + (EncodeVarint(h.count) + tail)))
  }

  /** A pool header, once its seven numbers are read. */
  lemma {:induction false} PoolHeaderReads(d: seq<byte>, p: int, lim: int, h: PoolRecord,
                                           p1: int, p2: int, p3: int, p4: int, p5: int, p6: int, q: int)
    requires InBuffer(d, p, lim) && Varint(d, p, lim) == Ok(Parsed(h.size, p1))
    requires InBuffer(d, p1, lim) && Varint(d, p1, lim) == Ok(Parsed(h.kind, p2))
    requires InBuffer(d, p2, lim) && Varlong(d, p2, lim) == Ok(Parsed(h.start, p3))
    requires InBuffer(d, p3, lim) && Varlong(d, p3, lim) == Ok(Parsed(h.duration, p4))
    requires InBuffer(d, p4, lim) && Varlong(d, p4, lim) == Ok(Parsed(h.delta, p5))
    requires InBuffer(d, p5, lim) && Varint(d, p5, lim) == Ok(Parsed(h.flush, p6))
    requires InBuffer(d, p6, lim) && Varint(d, p6, lim) == Ok(Parsed(h.count, q))
    ensures PoolHeader(d, p, lim) == Ok(Parsed((h.delta, h.count), q))
  {
  }

  /** A pool header reads back as its delta, the fifth number, and its count,
      the seventh, having consumed all seven. */
  lemma {:induction false} PoolHeaderRoundTrip(d: seq<byte>, p: int, lim: int, h: PoolRecord, tail: seq<byte>)
    returns (q: int)
    requires WrittenAt(d, p, lim, PoolHeaderBytes(h, tail))
    ensures InBuffer(d, p, lim) && PoolHeader(d, p, lim) == Ok(Parsed((h.delta, h.count), q))
    ensures WrittenAt(d, q, lim, tail) && q + |tail| == p + |PoolHeaderBytes(h, tail)|
  {
    var t3 := PoolTimesBytes(h, tail);
    var p1 := p + |EncodeVarint(h.size)|;
    var p2 := p1 + |EncodeVarint(h.kind)|;
    var p3 := p2 + |EncodeVarlong(h.start)|;
    NextVarint(d, p, lim, h.size, EncodeVarint(h.kind) + (EncodeVarlong(h.start) + t3));
    NextVarint(d, p1, lim, h.kind, EncodeVarlong(h.start) + t3);
    NextVarlong(d, p2, lim, h.start, t3);
    var p4, p5, p6;
    p4, p5, p6, q := PoolTimesFields(d, p3, lim, h, tail);
    PoolHeaderReads(d, p, lim, h, p1, p2, p3, p4, p5, p6, q);
  }

  lemma {:induction false} PoolTimesFields(d: seq<byte>, p3: int, lim: int, h: PoolRecord, tail: seq<byte>)
    returns (p4: int, p5: int, p6: int, q: int)
    requires WrittenAt(d, p3, lim, PoolTimesBytes(h, tail))
    ensures InBuffer(d, p3, lim) && Varlong(d, p3, lim) == Ok(Parsed(h.duration, p4))
    ensures InBuffer(d, p4, lim) && Varlong(d, p4, lim) == Ok(Parsed(h.delta, p5))
    ensures InBuffer(d, p5, lim) && Varint(d, p5, lim) == Ok(Parsed(h.flush, p6))
    ensures InBuffer(d, p6, lim) && Varint(d, p6, lim) == Ok(Parsed(h.count, q))
    ensures WrittenAt(d, q, lim, tail) && q + |tail| == p3 + |PoolTimesBytes(h, tail)|
  {
    p4 := p3 + |EncodeVarlong(h.duration)|;
    p5 := p4 + |EncodeVarlong(h.delta)|;
    p6 := p5 + |EncodeVarint(h.flush)|;
    q := p6 + |EncodeVarint(h.count)|;
    NextVarlong(d, p3, lim, h.duration, EncodeVarlong(h.delta) + (EncodeVarint(h.flush) + (EncodeVarint(h.count) + tail)));
    NextVarlong(d, p4, lim, h.delta, EncodeVarint(h.flush) + (EncodeVarint(h.count) + tail));
    NextVarint(d, p5, lim, h.flush, EncodeVarint(h.count) + tail);
    NextVarint(d, p6, lim, h.count, tail);
  }
}
