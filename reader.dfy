/** JfrReader (JfrReader.java:40-462): a buffer with a cursor, the type tables
    the metadata fills, the constant tables the pools fill, and the methods
    that read them. Every method is proved to do what the functions of the
    modules Wire, Records, Stream, Meta and Pools describe; what those mean is
    proved there. */
module Reader {
  import opened Wire
  import opened Names
  import opened Records
  import opened Stream
  import opened Meta
  import opened Pools
  import opened Varints
  import opened Chunks

  /** A method's answer agrees with the function that describes it: the same
      value, with the cursor where the function leaves it, or the same error. */
  predicate Took<T(==)>(s: Result<Parsed<T>>, r: Result<T>, pos: int) {
    && (r.Ok? <==> s.Ok?)
    && (s.Ok? ==> r.value == s.value.value && pos == s.value.next)
    && (s.Err? ==> r.error == s.error)
  }

  /** Like Took, for an answer that also decides the whole cursor. */
  predicate Moved<T(==)>(s: Result<(T, Cursor)>, r: Result<T>, c: Cursor) {
    && (r.Ok? <==> s.Ok?)
    && (s.Ok? ==> r.value == s.value.0 && c == s.value.1)
    && (s.Err? ==> r.error == s.error)
  }

  /** Like Took, for a stage of readChunk: the reader's state where the
      function leaves it, or the same error. */
  predicate Loads(s: Result<Loaded>, r: Result<()>, st: Loaded) {
    && (r.Ok? <==> s.Ok?)
    && (s.Ok? ==> st == s.value)
    && (s.Err? ==> r.error == s.error)
  }

  /** Like Loads, for readChunk itself, whose answer is the chunk's size. */
  predicate Chunked(s: Result<(Loaded, int)>, r: Result<int>, st: Loaded) {
    && (r.Ok? <==> s.Ok?)
    && (s.Ok? ==> r.value == s.value.1 && st == s.value.0)
    && (s.Err? ==> r.error == s.error)
  }

  /** The loop of getString's tag 4 stands at `p` with `n` chars to read
      after `acc`, on its way to the same answer as from `p0` with `n0`. */
  ghost predicate SameChars(d: seq<byte>, p: int, lim: int, n: nat, acc: seq<bv16>, p0: int, n0: nat) {
    InBuffer(d, p, lim) && InBuffer(d, p0, lim) && CharsFrom(d, p, lim, n, acc) == CharsFrom(d, p0, lim, n0, [])
  }

  /** What one char's varint does to that loop: its exception ends the loop,
      and otherwise its low 16 bits are the next char. */
  lemma CharRead(d: seq<byte>, p: int, lim: int, n: nat, acc: seq<bv16>, p0: int, n0: nat, r: Result<jint>, q: int)
    requires SameChars(d, p, lim, n, acc, p0, n0) && n > 0 && Took(Varint(d, p, lim), r, q)
    ensures r.Err? ==> CharsFrom(d, p0, lim, n0, []) == Err(r.error)
    ensures r.Ok? ==> p < q && SameChars(d, q, lim, n - 1, acc + [(r.value & 0xffff) as bv16], p0, n0)
  {
  }

  /** What one readEvent does to readAllEvents' loop: its exception ends the
      loop with that exception, null ends it with the events read, and an event
      is added to them. */
  lemma EventRead(d: seq<byte>, ids: EventIds, cls: Option<EventClass>, c: Cursor, fuel: nat, acc: seq<Event>,
                  c0: Cursor, fuel0: nat, acc0: seq<Event>, r: Result<Option<Event>>, c2: Cursor, rest: nat)
    requires SameRun(d, ids, cls, c, fuel, acc, c0, fuel0, acc0) && fuel == rest + 1
    requires Moved(NextEvent(d, c, ids, cls, fuel), r, c2)
    ensures r.Err? ==> AllEvents(d, c0, ids, cls, fuel0, acc0) == Err(r.error)
    ensures r.Ok? && r.value.None? ==> AllEvents(d, c0, ids, cls, fuel0, acc0) == Ok(acc)
    ensures r.Ok? && r.value.Some? ==> SameRun(d, ids, cls, c2, rest, acc + [r.value.value], c0, fuel0, acc0)
  {
    AllEventsStep(d, c, ids, cls, fuel, acc, rest);
  }

  /** A pool's answer agrees with the function that reads its entries: the
      cursor where the function leaves it and every entry put into the table,
      in order, or the same error. */
  predicate Filled<K(==), V(==)>(s: Result<Parsed<seq<(K, V)>>>, r: Result<()>, pos: int, m0: map<K, V>, m: map<K, V>) {
    && (r.Ok? <==> s.Ok?)
    && (s.Ok? ==> pos == s.value.next && m == PutAll(m0, s.value.value))
    && (s.Err? ==> r.error == s.error)
  }

  /** readThreads' loop stands at `p` with the threads `acc` of `count` read,
      on its way to the same answer as the pool at `p0`. */
  ghost predicate SameThreads(d: seq<byte>, p: int, lim: int, utf8: seq<byte> -> seq<bv16>, hasGroup: bool,
                              count: int, acc: seq<(jlong, JStr)>, p0: int) {
    && InBuffer(d, p, lim) && InBuffer(d, p0, lim)
    && ThreadsFrom(d, p, lim, utf8, hasGroup, count - |acc|, acc) == Threads(d, p0, lim, utf8, hasGroup)
  }

  /** What one thread entry does to that loop. */
  lemma {:induction false} ThreadRead(d: seq<byte>, p: int, lim: int, utf8: seq<byte> -> seq<bv16>, hasGroup: bool,
                   count: int, acc: seq<(jlong, JStr)>, p0: int, r: Result<(jlong, JStr)>, q: int)
    requires SameThreads(d, p, lim, utf8, hasGroup, count, acc, p0) && |acc| < count
    requires Took(ThreadAt(d, p, lim, utf8, hasGroup), r, q)
    ensures r.Err? ==> Threads(d, p0, lim, utf8, hasGroup) == Err(r.error)
    ensures r.Ok? ==> SameThreads(d, q, lim, utf8, hasGroup, count, acc + [r.value], p0)
  {
    ThreadsStep(d, p, lim, utf8, hasGroup, count - |acc|, acc);
  }

  /** readClasses' loop stands at `p` with the entries `acc` of `count` read,
      on its way to the same answer as the pool at `p0`. */
  ghost predicate SameClasses(d: seq<byte>, p: int, lim: int, hasHidden: bool, count: int, acc: seq<(jlong, ClassRef)>, p0: int) {
    && InBuffer(d, p, lim) && InBuffer(d, p0, lim)
    && ClassesFrom(d, p, lim, hasHidden, count - |acc|, acc) == Classes(d, p0, lim, hasHidden)
  }

  /** What one class entry does to that loop. */
  lemma ClassRead(d: seq<byte>, p: int, lim: int, hasHidden: bool, count: int, acc: seq<(jlong, ClassRef)>, p0: int,
                 r: Result<(jlong, ClassRef)>, q: int)
    requires SameClasses(d, p, lim, hasHidden, count, acc, p0) && |acc| < count
    requires Took(ClassAt(d, p, lim, hasHidden), r, q)
    ensures r.Err? ==> Classes(d, p0, lim, hasHidden) == Err(r.error)
    ensures r.Ok? ==> SameClasses(d, q, lim, hasHidden, count, acc + [r.value], p0)
  {
  }

  /** readMethods' loop stands at `p` with the entries `acc` of `count` read,
      on its way to the same answer as the pool at `p0`. */
  ghost predicate SameMethods(d: seq<byte>, p: int, lim: int, count: int, acc: seq<(jlong, MethodRef)>, p0: int) {
    && InBuffer(d, p, lim) && InBuffer(d, p0, lim)
    && MethodsFrom(d, p, lim, count - |acc|, acc) == Methods(d, p0, lim)
  }

  /** What one method entry does to that loop. */
  lemma MethodRead(d: seq<byte>, p: int, lim: int, count: int, acc: seq<(jlong, MethodRef)>, p0: int,
                 r: Result<(jlong, MethodRef)>, q: int)
    requires SameMethods(d, p, lim, count, acc, p0) && |acc| < count
    requires Took(MethodAt(d, p, lim), r, q)
    ensures r.Err? ==> Methods(d, p0, lim) == Err(r.error)
    ensures r.Ok? ==> SameMethods(d, q, lim, count, acc + [r.value], p0)
  {
  }

  /** readStackTraces' loop stands at `p` with the entries `acc` of `count` read,
      on its way to the same answer as the pool at `p0`. */
  ghost predicate SameStackTraces(d: seq<byte>, p: int, lim: int, count: int, acc: seq<(jlong, StackTrace)>, p0: int) {
    && InBuffer(d, p, lim) && InBuffer(d, p0, lim)
    && StackTracesFrom(d, p, lim, count - |acc|, acc) == StackTraces(d, p0, lim)
  }

  /** What one stack trace entry does to that loop. */
  lemma StackTraceRead(d: seq<byte>, p: int, lim: int, count: int, acc: seq<(jlong, StackTrace)>, p0: int,
                 r: Result<(jlong, StackTrace)>, q: int)
    requires SameStackTraces(d, p, lim, count, acc, p0) && |acc| < count
    requires Took(StackTraceAt(d, p, lim), r, q)
    ensures r.Err? ==> StackTraces(d, p0, lim) == Err(r.error)
    ensures r.Ok? ==> SameStackTraces(d, q, lim, count, acc + [r.value], p0)
  {
  }

  /** readSymbols' loop stands at `p` with the entries `acc` of `count` read,
      on its way to the same answer as the pool at `p0`. */
  ghost predicate SameSymbols(d: seq<byte>, p: int, lim: int, count: int, acc: seq<(jlong, seq<byte>)>, p0: int) {
    && InBuffer(d, p, lim) && InBuffer(d, p0, lim)
    && SymbolsFrom(d, p, lim, count - |acc|, acc) == Symbols(d, p0, lim)
  }

  /** What one symbol entry does to that loop. */
  lemma SymbolRead(d: seq<byte>, p: int, lim: int, count: int, acc: seq<(jlong, seq<byte>)>, p0: int,
                 r: Result<(jlong, seq<byte>)>, q: int)
    requires SameSymbols(d, p, lim, count, acc, p0) && |acc| < count
    requires Took(SymbolAt(d, p, lim), r, q)
    ensures r.Err? ==> Symbols(d, p0, lim) == Err(r.error)
    ensures r.Ok? ==> SameSymbols(d, q, lim, count, acc + [r.value], p0)
  {
  }

  /** readMap's loop stands at `p` with the entries `acc` of `count` read,
      on its way to the same answer as the pool at `p0`. */
  ghost predicate SameMapEntries(d: seq<byte>, p: int, lim: int, utf8: seq<byte> -> seq<bv16>, count: int, acc: seq<(jint, JStr)>, p0: int) {
    && InBuffer(d, p, lim) && InBuffer(d, p0, lim)
    && MapFrom(d, p, lim, utf8, count - |acc|, acc) == MapEntries(d, p0, lim, utf8)
  }

  /** What one map entry entry does to that loop. */
  lemma MapEntryRead(d: seq<byte>, p: int, lim: int, utf8: seq<byte> -> seq<bv16>, count: int, acc: seq<(jint, JStr)>, p0: int,
                 r: Result<(jint, JStr)>, q: int)
    requires SameMapEntries(d, p, lim, utf8, count, acc, p0) && |acc| < count
    requires Took(MapEntryAt(d, p, lim, utf8), r, q)
    ensures r.Err? ==> MapEntries(d, p0, lim, utf8) == Err(r.error)
    ensures r.Ok? ==> SameMapEntries(d, q, lim, utf8, count, acc + [r.value], p0)
  {
  }

  /** readStackTrace's loop stands at `p` with the frames `ms` and `ts` of
      `depth` read, on its way to the same answer as the frames at `p0`. */
  ghost predicate SameFrames(d: seq<byte>, p: int, lim: int, depth: nat, ms: seq<jlong>, ts: seq<byte>, p0: int) {
    && InBuffer(d, p, lim) && InBuffer(d, p0, lim) && |ms| == |ts| <= depth
    && FramesFrom(d, p, lim, depth - |ms|, ms, ts) == FramesFrom(d, p0, lim, depth, [], [])
  }

  /** What one frame does to that loop. */
  lemma FrameRead(d: seq<byte>, p: int, lim: int, depth: nat, ms: seq<jlong>, ts: seq<byte>, p0: int,
                  r: Result<(jlong, byte)>, q: int)
    requires SameFrames(d, p, lim, depth, ms, ts, p0) && |ms| < depth
    requires Took(FrameAt(d, p, lim), r, q)
    ensures r.Err? ==> FramesFrom(d, p0, lim, depth, [], []) == Err(r.error)
    ensures r.Ok? ==> SameFrames(d, q, lim, depth, ms + [r.value.0], ts + [r.value.1], p0)
  {
  }

  /** Like Took, for reads whose values are dropped: the position where the
      function leaves the cursor, or the same error. */
  predicate Passed(s: Result<int>, r: Result<()>, pos: int) {
    && (r.Ok? <==> s.Ok?)
    && (s.Ok? ==> pos == s.value)
    && (s.Err? ==> r.error == s.error)
  }

  /** readFields' loop stands at `p` before flag `i`, on its way to the same
      answer as the fields at `p0`. */
  ghost predicate SameFields(d: seq<byte>, p: int, lim: int, utf8: seq<byte> -> seq<bv16>, numeric: seq<bool>, i: nat, p0: int) {
    && InBuffer(d, p, lim) && InBuffer(d, p0, lim) && i <= |numeric|
    && FieldsFrom(d, p, lim, utf8, numeric, i) == FieldsFrom(d, p0, lim, utf8, numeric, 0)
  }

  /** What one field does to that loop. */
  lemma FieldRead(d: seq<byte>, p: int, lim: int, utf8: seq<byte> -> seq<bv16>, numeric: seq<bool>, i: nat, p0: int,
                  r: Result<()>, q: int)
    requires SameFields(d, p, lim, utf8, numeric, i, p0) && i < |numeric|
    requires Passed(FieldAt(d, p, lim, utf8, numeric[i]), r, q)
    ensures r.Err? ==> FieldsFrom(d, p0, lim, utf8, numeric, 0) == Err(r.error)
    ensures r.Ok? ==> SameFields(d, q, lim, utf8, numeric, i + 1, p0)
  {
  }

  /** readOtherConstants' loop stands at `p` with `k` constants of `count`
      read, on its way to the same answer as the pool at `p0`. */
  ghost predicate SameOthers(d: seq<byte>, p: int, lim: int, utf8: seq<byte> -> seq<bv16>, numeric: seq<bool>,
                             count: int, k: nat, p0: int) {
    && InBuffer(d, p, lim) && InBuffer(d, p0, lim)
    && OtherFrom(d, p, lim, utf8, numeric, count - k) == OtherConstants(d, p0, lim, utf8, numeric)
  }

  /** What one constant does to that loop. */
  lemma OtherRead(d: seq<byte>, p: int, lim: int, utf8: seq<byte> -> seq<bv16>, numeric: seq<bool>,
                  count: int, k: nat, p0: int, r: Result<()>, q: int)
    requires SameOthers(d, p, lim, utf8, numeric, count, k, p0) && k < count
    requires Passed(OtherAt(d, p, lim, utf8, numeric), r, q)
    ensures r.Err? ==> OtherConstants(d, p0, lim, utf8, numeric) == Err(r.error)
    ensures r.Ok? ==> SameOthers(d, q, lim, utf8, numeric, count, k + 1, p0)
  {
  }

  /** Like Took, for reads that fill the constant tables: the cursor where
      the function leaves it and the tables it makes, or the same error. */
  predicate Updated(s: Result<Parsed<Tables>>, r: Result<()>, pos: int, t: Tables) {
    && (r.Ok? <==> s.Ok?)
    && (s.Ok? ==> pos == s.value.next && t == s.value.value)
    && (s.Err? ==> r.error == s.error)
  }

  /** readConstantPool's inner loop stands at `p` with `k` constant sets of
      `count` read into `t`, on its way to the same answer as from `p0`
      with `t0`. */
  ghost predicate SamePoolTypes(d: seq<byte>, p: int, lim: int, utf8: seq<byte> -> seq<bv16>, types: map<int, TypeInfo>,
                                stringType: int, count: int, k: nat, t: Tables, p0: int, t0: Tables) {
    && InBuffer(d, p, lim) && InBuffer(d, p0, lim)
    && PoolTypesFrom(d, p, lim, utf8, types, stringType, count - k, t)
       == PoolTypesFrom(d, p0, lim, utf8, types, stringType, count, t0)
  }

  /** The loop ends once every constant set is read. */
  lemma PoolTypesDone(d: seq<byte>, p: int, lim: int, utf8: seq<byte> -> seq<bv16>, types: map<int, TypeInfo>,
                      stringType: int, count: int, k: nat, t: Tables, p0: int, t0: Tables)
    requires SamePoolTypes(d, p, lim, utf8, types, stringType, count, k, t, p0, t0) && count <= k
    ensures PoolTypesFrom(d, p0, lim, utf8, types, stringType, count, t0) == Ok(Parsed(t, p))
  {
  }

  /** What one constant set does to that loop. */
  lemma PoolTypeRead(d: seq<byte>, p: int, lim: int, utf8: seq<byte> -> seq<bv16>, types: map<int, TypeInfo>,
                     stringType: int, count: int, k: nat, t: Tables, p0: int, t0: Tables,
                     r: Result<()>, q: int, t2: Tables)
    requires SamePoolTypes(d, p, lim, utf8, types, stringType, count, k, t, p0, t0) && k < count
    requires Updated(PoolTypeAt(d, p, lim, utf8, types, stringType, t), r, q, t2)
    ensures r.Err? ==> PoolTypesFrom(d, p0, lim, utf8, types, stringType, count, t0) == Err(r.error)
    ensures r.Ok? ==> SamePoolTypes(d, q, lim, utf8, types, stringType, count, k + 1, t2, p0, t0)
  {
  }

  /** Like Updated, for a read that also answers a value. */
  predicate Pooled<T(==)>(s: Result<Parsed<(T, Tables)>>, r: Result<T>, pos: int, t: Tables) {
    && (r.Ok? <==> s.Ok?)
    && (s.Ok? ==> r.value == s.value.value.0 && t == s.value.value.1 && pos == s.value.next)
    && (s.Err? ==> r.error == s.error)
  }

  /** readConstantPool's outer loop stands at the pool at `position` with
      the tables `t` and `fuel` pools left, on its way to the answer `s`. */
  ghost predicate SamePools(d: seq<byte>, position: int, lim: int, utf8: seq<byte> -> seq<bv16>,
                            types: map<int, TypeInfo>, stringType: int, t: Tables, fuel: nat,
                            s: Result<Parsed<Tables>>) {
    InBuffer(d, position, lim) && ConstantPool(d, position, lim, utf8, types, stringType, t, fuel) == s
  }

  /** What one turn does to that loop: its exception or a delta of 0 ends
      the loop, and any other delta moves it on. */
  lemma PoolTurnRead(d: seq<byte>, position: int, lim: int, utf8: seq<byte> -> seq<bv16>, types: map<int, TypeInfo>,
                     stringType: int, t: Tables, fuel: nat, rest: nat, s: Result<Parsed<Tables>>, r: Result<bool>,
                     q: int, t2: Tables)
    requires SamePools(d, position, lim, utf8, types, stringType, t, fuel, s) && fuel == rest + 1
    requires Pooled(PoolTurn(d, position, lim, utf8, types, stringType, t), r, q, t2)
    ensures r.Err? ==> s == Err(r.error)
    ensures r.Ok? && !r.value ==> s == Ok(Parsed(t2, q))
    ensures r.Ok? && r.value ==> SamePools(d, q, lim, utf8, types, stringType, t2, rest, s)
  {
  }

  /** readElement's attribute loop stands at `p` with `i` pairs of `count`
      read into `acc`, on its way to the same answer as the loop at `p0`. */
  ghost predicate SameAttrs(d: seq<byte>, p: int, lim: int, strings: seq<JStr>, count: int, i: int,
                            acc: map<JStr, JStr>, p0: int) {
    && InBuffer(d, p, lim) && InBuffer(d, p0, lim)
    && AttrsFrom(d, p, lim, strings, count - i, acc) == AttrsFrom(d, p0, lim, strings, count, map[])
  }

  /** What one attribute does to that loop. */
  lemma AttrRead(d: seq<byte>, p: int, lim: int, strings: seq<JStr>, count: int, i: int,
                 acc: map<JStr, JStr>, p0: int, r: Result<(JStr, JStr)>, q: int)
    requires SameAttrs(d, p, lim, strings, count, i, acc, p0) && i < count
    requires Took(AttrAt(d, p, lim, strings), r, q)
    ensures r.Err? ==> AttrsFrom(d, p0, lim, strings, count, map[]) == Err(r.error)
    ensures r.Ok? ==> SameAttrs(d, q, lim, strings, count, i + 1, acc[r.value.0 := r.value.1], p0)
  {
  }

  /** readElement's child loop stands at `p` with the children `acc` of
      `count` read, on its way to the same answer as the loop at `p0`. */
  ghost predicate SameChildren(d: seq<byte>, p: int, lim: int, strings: seq<JStr>, count: int, acc: seq<Node>, p0: int) {
    && InBuffer(d, p, lim) && InBuffer(d, p0, lim)
    && ChildrenFrom(d, p, lim, strings, count - |acc|, acc) == ChildrenFrom(d, p0, lim, strings, count, [])
  }

  /** What one child does to that loop. */
  lemma ChildRead(d: seq<byte>, p: int, lim: int, strings: seq<JStr>, count: int, acc: seq<Node>, p0: int,
                  r: Result<Node>, q: int)
    requires SameChildren(d, p, lim, strings, count, acc, p0) && |acc| < count
    requires Took(ElementAt(d, p, lim, strings), r, q)
    ensures r.Err? ==> ChildrenFrom(d, p0, lim, strings, count, []) == Err(r.error)
    ensures r.Ok? ==> SameChildren(d, q, lim, strings, count, acc + [r.value], p0)
  {
  }

  /** readMeta's string loop stands at `p` with the strings `acc` of `count`
      read, on its way to the same answer as the loop at `p0`. */
  ghost predicate SameStrings(d: seq<byte>, p: int, lim: int, utf8: seq<byte> -> seq<bv16>, count: nat,
                              acc: seq<JStr>, p0: int) {
    && InBuffer(d, p, lim) && InBuffer(d, p0, lim) && |acc| <= count
    && StringsFrom(d, p, lim, utf8, count - |acc|, acc) == StringsFrom(d, p0, lim, utf8, count, [])
  }

  /** What one string does to that loop. */
  lemma StringRead(d: seq<byte>, p: int, lim: int, utf8: seq<byte> -> seq<bv16>, count: nat,
                   acc: seq<JStr>, p0: int, r: Result<JStr>, q: int)
    requires SameStrings(d, p, lim, utf8, count, acc, p0) && |acc| < count
    requires Took(GetString(d, p, lim, utf8), r, q)
    ensures r.Err? ==> StringsFrom(d, p0, lim, utf8, count, []) == Err(r.error)
    ensures r.Ok? ==> SameStrings(d, q, lim, utf8, count, acc + [r.value], p0)
  {
  }

  /** What reading one more child does to where classes sit in types. */
  lemma ChildPlaced(t0: map<int, JfrClass>, t1: map<int, JfrClass>, t2: map<int, JfrClass>, e: Element, elem: Elem,
                    acc: seq<Node>, c: Node, made: set<JfrClass>, more: set<JfrClass>)
    requires Placed(t1, t0, KidsClassIds(acc), made) && Alone(t1, e, elem, KidsClassIds(acc))
    requires Placed(t2, t1, ClassIds(c), more) && (e.ClassElement? ==> e.cls !in more)
    ensures Placed(t2, t0, KidsClassIds(acc + [c]), made + more) && Alone(t2, e, elem, KidsClassIds(acc + [c]))
  {
    InfosKidsSnoc(map[], acc, c);
    PlacedTrans(t0, t1, t2, KidsClassIds(acc), ClassIds(c), made, more);
    AloneStep(t1, t2, e, elem, KidsClassIds(acc), ClassIds(c), more);
  }

  /** readMeta's answer agrees with the function that reads the record: the
      cursor where the function leaves it and the type tables registering its
      root, or the same error. */
  ghost predicate Metadata(s: Result<Parsed<(seq<JStr>, Node)>>, r: Result<()>, pos: int,
                           g0: Registry, g: Registry, infos0: map<int, TypeInfo>, infos: map<int, TypeInfo>) {
    && (r.Ok? <==> s.Ok?)
    && (s.Err? ==> r.error == s.error)
    && (s.Ok? ==> pos == s.value.next && g == RegisterNode(g0, s.value.value.1)
                  && infos == InfosNode(infos0, s.value.value.1))
  }

  /** types, starting from `t0`, has the classes of `made` put under the ids
      `ids` and no other entry changed. */
  ghost predicate Placed(t: map<int, JfrClass>, t0: map<int, JfrClass>, ids: set<int>, made: set<JfrClass>) {
    && t.Keys == t0.Keys + ids
    && forall k | k in t :: if k in ids then t[k] in made else k in t0 && t[k] == t0[k]
  }

  lemma PlacedTrans(t0: map<int, JfrClass>, t1: map<int, JfrClass>, t2: map<int, JfrClass>,
                    a: set<int>, b: set<int>, m1: set<JfrClass>, m2: set<JfrClass>)
    requires Placed(t1, t0, a, m1) && Placed(t2, t1, b, m2)
    ensures Placed(t2, t0, a + b, m1 + m2)
  {
  }

  /** The class `e` was made for `elem` sits in types under its id exactly
      while `elem` is registered by id and no class read since, whose ids are
      `ids`, took that id; it sits nowhere else. */
  ghost predicate Alone(t: map<int, JfrClass>, e: Element, elem: Elem, ids: set<int>) {
    e.ClassElement? ==>
      && (forall k | k in t && t[k] == e.cls :: elem.ClassElem? && elem.byId && k == elem.id && k !in ids)
      && (elem.ClassElem? && elem.byId && elem.id !in ids ==> elem.id in t && t[elem.id] == e.cls)
  }

  lemma AloneStep(t0: map<int, JfrClass>, t1: map<int, JfrClass>, e: Element, elem: Elem,
                  a: set<int>, b: set<int>, made: set<JfrClass>)
    requires Alone(t0, e, elem, a) && Placed(t1, t0, b, made)
    requires e.ClassElement? ==> e.cls !in made
    ensures Alone(t1, e, elem, a + b)
  {
  }

  /** createElement's answer agrees with Create: the same error with the
      tables untouched, or the element made for it, registered, and put into
      types (by the classes `made`) when it has no super type. */
  ghost predicate Created(s: Result<Elem>, r: Result<Element>, made: set<JfrClass>, g0: Registry, g: Registry,
                          infos0: map<int, TypeInfo>, infos: map<int, TypeInfo>,
                          t0: map<int, JfrClass>, t: map<int, JfrClass>)
    reads if r.Ok? && r.value.ClassElement? then {r.value.cls} else {}
  {
    && (r.Ok? <==> s.Ok?)
    && (s.Err? ==> r.error == s.error && g == g0)
    && (s.Ok? ==> && Made(r.value, Node(s.value, [])) && g == Register(g0, s.value)
                  && infos == Declare(infos0, s.value, [])
                  && Placed(t, t0, DeclaredIds(s.value), made)
                  && Alone(t, r.value, s.value, {}))
  }

  /** What readConstants needs of `types.get(type)`: nothing when it is null. */
  function InfoOf(c: JfrClass?): (r: Option<TypeInfo>)
    reads c
    ensures r.Some? <==> c != null
  {
    if c == null then None else Some(TypeInfo(c.name, c.fields))
  }

  class JfrReader {
    /** The mapped file, and its contents, which nothing writes. */
    const data: seq<byte>
    /** The UTF-8 decoder of the Java library. */
    const utf8: seq<byte> -> seq<bv16>
    var pos: int
    var lim: int

    var types: map<int, JfrClass>
    var typesByName: map<JStr, JfrClass>
    var threads: map<jlong, JStr>
    var classes: map<jlong, ClassRef>
    var symbols: map<jlong, seq<byte>>
    var methods: map<jlong, MethodRef>
    var stackTraces: map<jlong, StackTrace>
    var frameTypes: map<jint, JStr>
    var threadStates: map<jint, JStr>

    var startNanos: jlong
    var durationNanos: jlong
    var startTicks: jlong
    var ticksPerSec: jlong
    /** The six event type ids the constructor looks up. */
    var ids: EventIds

    /** The mapping of the file (JfrReader.java:71-72): the buffer at
        position 0 with its limit at its capacity, every table empty. The
        rest of the constructor is Load. */
    constructor (data: seq<byte>, utf8: seq<byte> -> seq<bv16>)
      requires |data| < 0x8000_0000
      ensures this.data == data && this.utf8 == utf8
      ensures Valid() && Registered() && lim == |data| && State() == Fresh
    {
      this.data := data;
      this.utf8 := utf8;
      pos := 0;
      lim := |data|;
      types := map[];
      typesByName := map[];
      threads := map[];
      classes := map[];
      symbols := map[];
      methods := map[];
      stackTraces := map[];
      frameTypes := map[];
      threadStates := map[];
      startNanos := 0;
      durationNanos := 0;
      startTicks := 0;
      ticksPerSec := 0;
      ids := EventIds(0, 0, 0, 0, 0, 0);
    }

    /** The buffer keeps its position within its limit and its limit within
        its capacity, a Java int. */
    ghost predicate Valid()
      reads this`pos, this`lim
    {
      && |data| < 0x8000_0000
      && 0 <= pos <= lim <= |data|
    }

    /** types holds each class under its own id, typesByName under its own
        name. */
    ghost predicate Registered()
      reads this`types, this`typesByName
    {
      && (forall id | id in types :: types[id].id == id)
      && (forall n | n in typesByName :: typesByName[n].name == n)
    }

    function Cur(): Cursor
      reads this`pos, this`lim
    {
      Cursor(pos, lim)
    }

    /** The constant tables, as a value. */
    function Constants(): Tables
      reads this`threads, this`classes, this`symbols, this`methods, this`stackTraces,
            this`frameTypes, this`threadStates
    {
      Tables(threads, classes, symbols, methods, stackTraces, frameTypes, threadStates)
    }

    /** The id typesByName finds for each name. */
    function NameIds(): map<JStr, int>
      reads this`typesByName
    {
      map n | n in typesByName :: typesByName[n].id
    }

    /** The name and fields of each class in types. */
    function TypeInfos(): map<int, TypeInfo>
      reads this`types, set id | id in types :: types[id]
    {
      map id | id in types :: TypeInfo(types[id].name, types[id].fields)
    }

    /** getTypeId (JfrReader.java:407-410). */
    function GetTypeId(typeName: seq<bv16>): (r: int)
      reads this`typesByName
      ensures r == TypeId(NameIds(), typeName)
    {
      if Str(typeName) in typesByName then typesByName[Str(typeName)].id else -1
    }

    // -------------------------------------------------------------------------
    // ByteBuffer

    /** ByteBuffer.position(newPosition). */
    method Position(newPos: int) returns (r: Result<()>)
      requires Valid()
      modifies this`pos
      ensures Valid()
      ensures var s := SetPosition(data, old(Cur()), newPos);
        (r.Ok? <==> s.Ok?) && (s.Ok? ==> Cur() == s.value) && (s.Err? ==> r.error == s.error && pos == old(pos))
    {
      if newPos < 0 || newPos > lim {
        return Err(IllegalArgument);
      }
      pos := newPos;
      return Ok(());
    }

    /** ByteBuffer.limit(newLimit). */
    method Limit(newLim: int) returns (r: Result<()>)
      requires Valid()
      modifies this`pos, this`lim
      ensures Valid()
      ensures var s := SetLimit(data, old(Cur()), newLim);
        (r.Ok? <==> s.Ok?) && (s.Ok? ==> Cur() == s.value) && (s.Err? ==> r.error == s.error && Cur() == old(Cur()))
    {
      if newLim < 0 || newLim > |data| {
        return Err(IllegalArgument);
      }
      lim := newLim;
      if pos > newLim {
        pos := newLim;
      }
      return Ok(());
    }

    /** ByteBuffer.get(). */
    method GetByte() returns (r: Result<byte>)
      requires Valid()
      modifies this`pos
      ensures Valid()
      ensures Took(Get(data, old(pos), lim), r, pos)
      ensures r.Err? ==> pos == old(pos)
    {
      if pos == lim {
        return Err(BufferUnderflow);
      }
      r := Ok(data[pos]);
      pos := pos + 1;
    }

    /** ByteBuffer.getInt(index). */
    method GetIntAt(index: int) returns (r: Result<jint>)
      requires Valid()
      ensures r == GetInt(data, lim, index)
    {
      if index < 0 || index > lim - 4 {
        return Err(IndexOutOfBounds);
      }
      return Ok(BigEndian32(data[index], data[index + 1], data[index + 2], data[index + 3]));
    }

    /** ByteBuffer.getLong(index). */
    method GetLongAt(index: int) returns (r: Result<jlong>)
      requires Valid()
      ensures r == GetLong(data, lim, index)
    {
      if index < 0 || index > lim - 8 {
        return Err(IndexOutOfBounds);
      }
      return Ok(BigEndian64(data[index], data[index + 1], data[index + 2], data[index + 3],
                            data[index + 4], data[index + 5], data[index + 6], data[index + 7]));
    }

    // -------------------------------------------------------------------------
    // Getters

    /** getVarint (JfrReader.java:412-421). */
    method GetVarint() returns (r: Result<jint>)
      requires Valid()
      modifies this`pos
      ensures Valid() && old(pos) <= pos
      ensures Took(Varint(data, old(pos), lim), r, pos)
    {
      var result: jint := 0;
      var shift := 0;
      while true
        invariant Valid() && old(pos) <= pos
        invariant VarintFrom(data, pos, lim, shift, result) == Varint(data, old(pos), lim)
        decreases lim - pos
      {
        var b :- GetByte();
        result := result | ShiftInt(Payload(b), shift);
        if b < 0x80 {
          return Ok(result);
        }
        shift := shift + 7;
      }
    }

    /** getVarlong (JfrReader.java:423-433). */
    method GetVarlong() returns (r: Result<jlong>)
      requires Valid()
      modifies this`pos
      ensures Valid() && old(pos) <= pos
      ensures Took(Varlong(data, old(pos), lim), r, pos)
    {
      r := VarlongRest(0, 0, Varlong(data, pos, lim));
    }

    /** getVarlong's loop from a given shift and partial result, which reads
        the number `s` stands for. */
    method VarlongRest(shift0: int, acc: jlong, ghost s: Result<Parsed<jlong>>) returns (r: Result<jlong>)
      requires Valid() && LongShift(shift0)
      requires VarlongFrom(data, pos, lim, shift0, acc) == s
      modifies this`pos
      ensures Valid() && old(pos) <= pos
      ensures Took(s, r, pos)
    {
      var result := acc;
      var shift := shift0;
      while shift < 56
        invariant Valid() && old(pos) <= pos
        invariant 0 <= shift <= 56 && LongShift(shift)
        invariant VarlongFrom(data, pos, lim, shift, result) == s
        decreases lim - pos
      {
        if pos == lim {
          return Err(BufferUnderflow);
        }
        var b := data[pos];
        DecodeStep64(data, pos, lim, shift, result);
        pos := pos + 1;
        result := result | ShiftLong(Payload64(b), shift);
        if b < 0x80 {
          return Ok(result);
        }
        shift := shift + 7;
      }
      r := LastVarlongByte(result);
    }

    /** The ninth byte of getVarlong, all eight bits of which are kept. */
    method LastVarlongByte(result: jlong) returns (r: Result<jlong>)
      requires Valid()
      modifies this`pos
      ensures Valid() && old(pos) <= pos
      ensures Took(VarlongFrom(data, old(pos), lim, 56, result), r, pos)
    {
      var b :- GetByte();
      return Ok(result | (b as jlong << 56));
    }

    /** getBytes (JfrReader.java:457-461). */
    method GetBytes() returns (r: Result<seq<byte>>)
      requires Valid()
      modifies this`pos
      ensures Valid() && old(pos) <= pos
      ensures Took(Wire.GetBytes(data, old(pos), lim), r, pos)
    {
      var n :- GetVarint();
      var len := Int32(n);
      if len < 0 {
        return Err(NegativeArraySize);
      }
      if len > lim - pos {
        return Err(BufferUnderflow);
      }
      r := Ok(data[pos .. pos + len]);
      pos := pos + len;
    }

    /** getString's tag 4 (JfrReader.java:444-448). */
    method GetChars() returns (r: Result<seq<bv16>>)
      requires Valid()
      modifies this`pos
      ensures Valid() && old(pos) <= pos
      ensures Took(Wire.GetChars(data, old(pos), lim), r, pos)
    {
      var n :- GetVarint();
      r := FillChars(n);
    }

    /** The array of getString's tag 4, `new char[n]`, filled with one
        varint's low 16 bits per char. */
    method FillChars(count: jint) returns (r: Result<seq<bv16>>)
      requires Valid()
      modifies this`pos
      ensures Valid() && old(pos) <= pos
      ensures Took(CountedChars(data, old(pos), lim, count), r, pos)
    {
      if Int32(count) < 0 {
        return Err(NegativeArraySize);
      }
      r := ReadChars(Int32(count));
    }

    /** The loop that fills that array with `n` chars. */
    method ReadChars(n: nat) returns (r: Result<seq<bv16>>)
      requires Valid()
      modifies this`pos
      ensures Valid() && old(pos) <= pos
      ensures Took(CharsFrom(data, old(pos), lim, n, []), r, pos)
    {
      var chars := new bv16[n];
      var i := 0;
      while i < chars.Length
        invariant Valid() && old(pos) <= pos
        invariant 0 <= i <= chars.Length
        invariant SameChars(data, pos, lim, chars.Length - i, chars[..i], old(pos), n)
      {
        ghost var p, read := pos, chars[..i];
        var c := GetVarint();
        CharRead(data, p, lim, chars.Length - i, read, old(pos), n, c, pos);
        if c.Err? {
          return Err(c.error);
        }
        chars[i] := (c.value & 0xffff) as bv16;
        assert chars[..i + 1] == read + [chars[i]];
        i := i + 1;
      }
      assert chars[..i] == chars[..];
      return Ok(chars[..]);
    }

    /** getString (JfrReader.java:435-455). */
    method GetString() returns (r: Result<JStr>)
      requires Valid()
      modifies this`pos
      ensures Valid() && old(pos) <= pos
      ensures Took(Wire.GetString(data, old(pos), lim, utf8), r, pos)
    {
      var tag :- GetByte();
      if tag == 0 {
        return Ok(Null);
      } else if tag == 1 {
        return Ok(Str([]));
      } else if tag == 3 {
        var b :- GetBytes();
        return Ok(Str(utf8(b)));
      } else if tag == 4 {
        var cs :- GetChars();
        return Ok(Str(cs));
      } else if tag == 5 {
        var b :- GetBytes();
        return Ok(Str(Latin1(b)));
      } else {
        return Err(InvalidStringEncoding);
      }
    }

    // -------------------------------------------------------------------------
    // Events

    /** readExecutionSample (JfrReader.java:141-147). */
    method ReadExecutionSample() returns (r: Result<Event>)
      requires Valid()
      modifies this`pos
      ensures Valid()
      ensures Took(ExecutionSampleAt(data, old(pos), lim), r, pos)
    {
      var time :- GetVarlong();
      var tid :- GetVarint();
      var stackTraceId :- GetVarint();
      var threadState :- GetVarint();
      return Ok(ExecutionSample(time, tid, stackTraceId, threadState));
    }

    /** readAllocationSample (JfrReader.java:149-157). */
    method ReadAllocationSample(tlab: bool) returns (r: Result<Event>)
      requires Valid()
      modifies this`pos
      ensures Valid()
      ensures Took(AllocationSampleAt(data, old(pos), lim, tlab), r, pos)
    {
      var time :- GetVarlong();
      var tid :- GetVarint();
      var stackTraceId :- GetVarint();
      var classId :- GetVarint();
      var allocationSize :- GetVarlong();
      var tlabSize: jlong := 0;
      if tlab {
        tlabSize :- GetVarlong();
      }
      return Ok(AllocationSample(time, tid, stackTraceId, classId, allocationSize, tlabSize));
    }

    /** readContendedLock (JfrReader.java:159-168). */
    method ReadContendedLock(hasTimeout: bool) returns (r: Result<Event>)
      requires Valid()
      modifies this`pos
      ensures Valid()
      ensures Took(ContendedLockAt(data, old(pos), lim, hasTimeout), r, pos)
    {
      var time :- GetVarlong();
      var duration :- GetVarlong();
      var tid :- GetVarint();
      var stackTraceId :- GetVarint();
      var classId :- GetVarint();
      var address :- ReadLockEnd(hasTimeout);
      return Ok(ContendedLock(time, tid, stackTraceId, duration, classId));
    }

    /** The timeout and address at the end of readContendedLock
        (JfrReader.java:165-166). */
    method ReadLockEnd(hasTimeout: bool) returns (r: Result<jlong>)
      requires Valid()
      modifies this`pos
      ensures Valid()
      ensures Took(LockEnd(data, old(pos), lim, hasTimeout), r, pos)
    {
      if hasTimeout {
        var timeout :- GetVarlong();
      }
      r := GetVarlong();
    }

    /** moveToNextChunk(p) (JfrReader.java:170-179). */
    method MoveToNextChunk(p: int) returns (r: Result<bool>)
      requires Valid() && 0 <= p < 0x8000_0000
      modifies this`pos, this`lim
      ensures Valid()
      ensures Moved(Stream.MoveToNextChunk(data, old(Cur()), p), r, Cur())
    {
      var newPos := Wrap32(p + CHUNK_HEADER_SIZE);
      assert newPos == if p + CHUNK_HEADER_SIZE < 0x8000_0000 then p + CHUNK_HEADER_SIZE
                       else p + CHUNK_HEADER_SIZE - TWO_32;
      if newPos < |data| {
        var limited :- Limit(newPos);
        var positioned := Position(newPos);
        assert positioned.Ok?;
        r := EndChunk(p);
        return;
      }
      return Ok(false);
    }

    /** The end of moveToNextChunk (JfrReader.java:175): the limit moves
        to the end of the chunk at `p`. */
    method EndChunk(p: int) returns (r: Result<bool>)
      requires Valid()
      modifies this`pos, this`lim
      ensures Valid()
      ensures Moved(ChunkEnd(data, old(Cur()), p), r, Cur())
    {
      var size :- GetLongAt(p + 8);
      var ended :- Limit(Wrap32(p + Wrap32(Long(size))));
      return Ok(true);
    }

    /** The reads readEvent returns from (JfrReader.java:125-133): the
        record's body, decoded as its type says. */
    method ReadBody(k: Record) returns (r: Result<Event>)
      requires Valid()
      modifies this`pos
      ensures Valid()
      ensures Took(Body(data, old(pos), lim, k), r, pos)
    {
      match k
      case ExecutionRecord => r := ReadExecutionSample();
      case AllocationRecord(tlab) => r := ReadAllocationSample(tlab);
      case LockRecord(hasTimeout) => r := ReadContendedLock(hasTimeout);
    }

    /** readEvent's loop test (JfrReader.java:120): bytes remain before the
        limit, or moveToNextChunk enters the next chunk. */
    method HasNextRecord() returns (r: Result<bool>)
      requires Valid()
      modifies this`pos, this`lim
      ensures Valid()
      ensures Moved(HasNext(data, old(Cur())), r, Cur())
    {
      if pos < lim {
        return Ok(true);
      }
      r := MoveToNextChunk(pos);
    }

    /** A record's size and type (JfrReader.java:122-123). */
    method ReadHeader() returns (r: Result<(jint, jint)>)
      requires Valid()
      modifies this`pos
      ensures Valid()
      ensures Took(RecordHeader(data, old(pos), lim), r, pos)
    {
      var size :- GetVarint();
      var t :- GetVarint();
      return Ok((size, t));
    }

    /** One turn of readEvent's loop (JfrReader.java:121-136), up to the body
        of a record it returns. */
    method ReadRecord(cls: Option<EventClass>) returns (r: Result<Turn>)
      requires Valid()
      modifies this`pos
      ensures Valid()
      ensures r == Stream.ReadRecord(data, old(Cur()), ids, cls)
      ensures r.Ok? ==> Cur() == r.value.next
    {
      var position := pos;
      var h :- ReadHeader();
      var (size, t) := h;
      var k := RecordOf(ids, Int32(t));
      if k.Some? && Wanted(cls, k.value) {
        return Ok(Found(k.value, Cur()));
      }
      var skipped :- Position(Beyond(position, size));
      return Ok(Skipped(Cur()));
    }

    /** readEvent(cls) (JfrReader.java:118-139), given `fuel` turns of its
        loop. */
    method ReadEvent(cls: Option<EventClass>, fuel: nat) returns (r: Result<Option<Event>>)
      requires Valid()
      modifies this`pos, this`lim
      ensures Valid()
      ensures Moved(NextEvent(data, old(Cur()), ids, cls, fuel), r, Cur())
    {
      var f := fuel;
      while true
        invariant Valid()
        invariant NextRecord(data, Cur(), ids, cls, f) == NextRecord(data, old(Cur()), ids, cls, fuel)
        decreases f
      {
        if f == 0 {
          return Err(OutOfFuel);
        }
        var more :- HasNextRecord();
        if !more {
          return Ok(None);
        }
        var turn :- ReadRecord(cls);
        if turn.Found? {
          var e :- ReadBody(turn.kind);
          return Ok(Some(e));
        }
        f := f - 1;
      }
    }

    /** One turn of readAllEvents' loop: readEvent, whose answer either ends
        the run that started at `c0` or leaves one more event read. */
    method ReadTurn(cls: Option<EventClass>, fuel: nat, ghost acc: seq<Event>, ghost c0: Cursor, ghost fuel0: nat)
      returns (r: Result<Option<Event>>, rest: nat)
      requires Valid() && fuel > 0
      requires SameRun(data, ids, cls, Cur(), fuel, acc, c0, fuel0, [])
      modifies this`pos, this`lim
      ensures Valid()
      ensures r.Err? ==> AllEvents(data, c0, ids, cls, fuel0, []) == Err(r.error)
      ensures r.Ok? && r.value.None? ==> AllEvents(data, c0, ids, cls, fuel0, []) == Ok(acc)
      ensures r.Ok? && r.value.Some? ==> rest < fuel && SameRun(data, ids, cls, Cur(), rest, acc + [r.value.value], c0, fuel0, [])
    {
      ghost var c := Cur();
      rest := fuel - 1;
      r := ReadEvent(cls, fuel);
      EventRead(data, ids, cls, c, fuel, acc, c0, fuel0, [], r, Cur(), rest);
    }

    /** readAllEvents' loop: readEvent until it answers null. */
    method ReadEvents(cls: Option<EventClass>, fuel: nat) returns (r: Result<seq<Event>>)
      requires Valid()
      modifies this`pos, this`lim
      ensures Valid()
      ensures r == AllEvents(data, old(Cur()), ids, cls, fuel, [])
    {
      var events: seq<Event> := [];
      var f := fuel;
      while true
        invariant Valid()
        invariant SameRun(data, ids, cls, Cur(), f, events, old(Cur()), fuel, [])
        decreases f
      {
        if f == 0 {
          return Err(OutOfFuel);
        }
        var event, rest := ReadTurn(cls, f, events, old(Cur()), fuel);
        if event.Err? {
          return Err(event.error);
        }
        if event.value.None? {
          return Ok(events);
        }
        events := events + [event.value.value];
        f := rest;
      }
    }

    /** readAllEvents (JfrReader.java:102-111): the events of the loop, sorted. */
    method ReadAllEvents(cls: Option<EventClass>, fuel: nat) returns (r: Result<seq<Event>>)
      requires Valid()
      modifies this`pos, this`lim
      ensures Valid()
      ensures var s := AllEvents(data, old(Cur()), ids, cls, fuel, []);
        && (r.Ok? <==> s.Ok?)
        && (s.Ok? ==> r.value == SortByTime(s.value))
        && (s.Err? ==> r.error == s.error)
    {
      var events :- ReadEvents(cls, fuel);
      return Ok(SortByTime(events));
    }

    // -------------------------------------------------------------------------
    // Constant pools

    /** One entry of readThreads (JfrReader.java:304-310). */
    method ReadThread(hasGroup: bool) returns (r: Result<(jlong, JStr)>)
      requires Valid()
      modifies this`pos
      ensures Valid()
      ensures Took(ThreadAt(data, old(pos), lim, utf8, hasGroup), r, pos)
    {
      var id :- GetVarlong();
      var osName :- GetString();
      var osThreadId :- GetVarint();
      var javaName :- GetString();
      var javaThreadId :- GetVarlong();
      if hasGroup {
        var group :- GetVarlong();
      }
      return Ok((id, if javaName != Null then javaName else osName));
    }

    /** readThreads (JfrReader.java:301-312): each thread read is put into
        threads, a later entry replacing an earlier one with the same id. */
    method ReadThreads(hasGroup: bool) returns (r: Result<()>)
      requires Valid()
      modifies this`pos, this`threads
      ensures Valid()
      ensures Filled(Threads(data, old(pos), lim, utf8, hasGroup), r, pos, old(threads), threads)
    {
      var n :- GetVarint();
      var count := Int32(n);
      ghost var read: seq<(jlong, JStr)> := [];
      var i := 0;
      while i < count
        invariant Valid()
        invariant i == |read| && SameThreads(data, pos, lim, utf8, hasGroup, count, read, old(pos))
        invariant threads == PutAll(old(threads), read)
        decreases count - i
      {
        ghost var p := pos;
        var e := ReadThread(hasGroup);
        ThreadRead(data, p, lim, utf8, hasGroup, count, read, old(pos), e, pos);
        if e.Err? {
          return Err(e.error);
        }
        PutAllSnoc(old(threads), read, e.value);
        threads := threads[e.value.0 := e.value.1];
        read := read + [e.value];
        i := i + 1;
      }
      return Ok(());
    }

    /** One entry of readClasses (JfrReader.java:317-323). */
    method ReadClass(hasHidden: bool) returns (r: Result<(jlong, ClassRef)>)
      requires Valid()
      modifies this`pos
      ensures Valid()
      ensures Took(ClassAt(data, old(pos), lim, hasHidden), r, pos)
    {
      var id :- GetVarlong();
      var loader :- GetVarlong();
      var name :- GetVarlong();
      var pkg :- GetVarlong();
      var modifiers :- GetVarint();
      if hasHidden {
        var hidden :- GetVarint();
      }
      return Ok((id, ClassRef(name)));
    }

    /** readClasses (JfrReader.java:314-325). */
    method ReadClasses(hasHidden: bool) returns (r: Result<()>)
      requires Valid()
      modifies this`pos, this`classes
      ensures Valid()
      ensures Filled(Classes(data, old(pos), lim, hasHidden), r, pos, old(classes), classes)
    {
      var n :- GetVarint();
      var count := Int32(n);
      ghost var read: seq<(jlong, ClassRef)> := [];
      var i := 0;
      while i < count
        invariant Valid()
        invariant i == |read| && SameClasses(data, pos, lim, hasHidden, count, read, old(pos))
        invariant classes == PutAll(old(classes), read)
        decreases count - i
      {
        ghost var p := pos;
        var e := ReadClass(hasHidden);
        ClassRead(data, p, lim, hasHidden, count, read, old(pos), e, pos);
        if e.Err? {
          return Err(e.error);
        }
        PutAllSnoc(old(classes), read, e.value);
        classes := classes[e.value.0 := e.value.1];
        read := read + [e.value];
        i := i + 1;
      }
      return Ok(());
    }

    /** One entry of readMethods (JfrReader.java:330-336). */
    method ReadMethod() returns (r: Result<(jlong, MethodRef)>)
      requires Valid()
      modifies this`pos
      ensures Valid()
      ensures Took(MethodAt(data, old(pos), lim), r, pos)
    {
      var id :- GetVarlong();
      var cls :- GetVarlong();
      var name :- GetVarlong();
      var sig :- GetVarlong();
      var modifiers :- GetVarint();
      var hidden :- GetVarint();
      return Ok((id, MethodRef(cls, name, sig)));
    }

    /** readMethods (JfrReader.java:327-338). */
    method ReadMethods() returns (r: Result<()>)
      requires Valid()
      modifies this`pos, this`methods
      ensures Valid()
      ensures Filled(Methods(data, old(pos), lim), r, pos, old(methods), methods)
    {
      var n :- GetVarint();
      var count := Int32(n);
      ghost var read: seq<(jlong, MethodRef)> := [];
      var i := 0;
      while i < count
        invariant Valid()
        invariant i == |read| && SameMethods(data, pos, lim, count, read, old(pos))
        invariant methods == PutAll(old(methods), read)
        decreases count - i
      {
        ghost var p := pos;
        var e := ReadMethod();
        MethodRead(data, p, lim, count, read, old(pos), e, pos);
        if e.Err? {
          return Err(e.error);
        }
        PutAllSnoc(old(methods), read, e.value);
        methods := methods[e.value.0 := e.value.1];
        read := read + [e.value];
        i := i + 1;
      }
      return Ok(());
    }

    /** One frame of readStackTrace (JfrReader.java:355-358). */
    method ReadFrame() returns (r: Result<(jlong, byte)>)
      requires Valid()
      modifies this`pos
      ensures Valid()
      ensures Took(FrameAt(data, old(pos), lim), r, pos)
    {
      var m :- GetVarlong();
      var line :- GetVarint();
      var bci :- GetVarint();
      var t :- GetByte();
      return Ok((m, t));
    }

    /** readStackTrace (JfrReader.java:350-361): a depth, which `new long[]`
        rejects when negative, then the frames. */
    method ReadStackTrace() returns (r: Result<StackTrace>)
      requires Valid()
      modifies this`pos
      ensures Valid()
      ensures Took(StackTraceBody(data, old(pos), lim), r, pos)
    {
      var depth :- GetVarint();
      if Int32(depth) < 0 {
        return Err(NegativeArraySize);
      }
      r := FillFrames(Int32(depth));
    }

    /** The two arrays of readStackTrace, filled one frame at a time. */
    method FillFrames(depth: nat) returns (r: Result<StackTrace>)
      requires Valid()
      modifies this`pos
      ensures Valid()
      ensures Took(FramesFrom(data, old(pos), lim, depth, [], []), r, pos)
    {
      var frameMethods := new jlong[depth];
      var frameTypes := new byte[depth];
      ghost var ms: seq<jlong>, ts: seq<byte> := [], [];
      var i := 0;
      while i < depth
        invariant Valid() && i <= depth
        invariant i == |ms| && frameMethods[..i] == ms && frameTypes[..i] == ts
        invariant SameFrames(data, pos, lim, depth, ms, ts, old(pos))
      {
        ghost var p := pos;
        var f := ReadFrame();
        FrameRead(data, p, lim, depth, ms, ts, old(pos), f, pos);
        if f.Err? {
          return Err(f.error);
        }
        frameMethods[i] := f.value.0;
        frameTypes[i] := f.value.1;
        ms, ts := ms + [f.value.0], ts + [f.value.1];
        i := i + 1;
      }
      assert frameMethods[..] == ms && frameTypes[..] == ts;
      return Ok(StackTrace(frameMethods[..], frameTypes[..]));
    }

    /** One entry of readStackTraces (JfrReader.java:343-346). */
    method ReadStackTraceEntry() returns (r: Result<(jlong, StackTrace)>)
      requires Valid()
      modifies this`pos
      ensures Valid()
      ensures Took(StackTraceAt(data, old(pos), lim), r, pos)
    {
      var id :- GetVarlong();
      var truncated :- GetVarint();
      var stackTrace :- ReadStackTrace();
      return Ok((id, stackTrace));
    }

    /** readStackTraces (JfrReader.java:340-348). */
    method ReadStackTraces() returns (r: Result<()>)
      requires Valid()
      modifies this`pos, this`stackTraces
      ensures Valid()
      ensures Filled(StackTraces(data, old(pos), lim), r, pos, old(stackTraces), stackTraces)
    {
      var n :- GetVarint();
      var count := Int32(n);
      ghost var read: seq<(jlong, StackTrace)> := [];
      var i := 0;
      while i < count
        invariant Valid()
        invariant i == |read| && SameStackTraces(data, pos, lim, count, read, old(pos))
        invariant stackTraces == PutAll(old(stackTraces), read)
        decreases count - i
      {
        ghost var p := pos;
        var e := ReadStackTraceEntry();
        StackTraceRead(data, p, lim, count, read, old(pos), e, pos);
        if e.Err? {
          return Err(e.error);
        }
        PutAllSnoc(old(stackTraces), read, e.value);
        stackTraces := stackTraces[e.value.0 := e.value.1];
        read := read + [e.value];
        i := i + 1;
      }
      return Ok(());
    }

    /** One entry of readSymbols (JfrReader.java:366-370). */
    method ReadSymbol() returns (r: Result<(jlong, seq<byte>)>)
      requires Valid()
      modifies this`pos
      ensures Valid()
      ensures Took(SymbolAt(data, old(pos), lim), r, pos)
    {
      var id :- GetVarlong();
      var encoding :- GetByte();
      if encoding != 3 {
        return Err(InvalidSymbolEncoding);
      }
      var bytes :- GetBytes();
      return Ok((id, bytes));
    }

    /** readSymbols (JfrReader.java:363-372). */
    method ReadSymbols() returns (r: Result<()>)
      requires Valid()
      modifies this`pos, this`symbols
      ensures Valid()
      ensures Filled(Symbols(data, old(pos), lim), r, pos, old(symbols), symbols)
    {
      var n :- GetVarint();
      var count := Int32(n);
      ghost var read: seq<(jlong, seq<byte>)> := [];
      var i := 0;
      while i < count
        invariant Valid()
        invariant i == |read| && SameSymbols(data, pos, lim, count, read, old(pos))
        invariant symbols == PutAll(old(symbols), read)
        decreases count - i
      {
        ghost var p := pos;
        var e := ReadSymbol();
        SymbolRead(data, p, lim, count, read, old(pos), e, pos);
        if e.Err? {
          return Err(e.error);
        }
        PutAllSnoc(old(symbols), read, e.value);
        symbols := symbols[e.value.0 := e.value.1];
        read := read + [e.value];
        i := i + 1;
      }
      return Ok(());
    }

    /** One entry of readMap (JfrReader.java:377). */
    method ReadMapEntry() returns (r: Result<(jint, JStr)>)
      requires Valid()
      modifies this`pos
      ensures Valid()
      ensures Took(MapEntryAt(data, old(pos), lim, utf8), r, pos)
    {
      var k :- GetVarint();
      var v :- GetString();
      return Ok((k, v));
    }

    /** readMap(map) (JfrReader.java:374-379): the map the caller passes is
        filled in place; here it is passed in and the filled map returned. */
    method ReadMap(m: map<jint, JStr>) returns (r: Result<map<jint, JStr>>)
      requires Valid()
      modifies this`pos
      ensures Valid()
      ensures var s := MapEntries(data, old(pos), lim, utf8);
        && (r.Ok? <==> s.Ok?)
        && (s.Ok? ==> pos == s.value.next && r.value == PutAll(m, s.value.value))
        && (s.Err? ==> r.error == s.error)
    {
      var n :- GetVarint();
      var count := Int32(n);
      var filled := m;
      ghost var read: seq<(jint, JStr)> := [];
      var i := 0;
      while i < count
        invariant Valid()
        invariant i == |read| && SameMapEntries(data, pos, lim, utf8, count, read, old(pos))
        invariant filled == PutAll(m, read)
        decreases count - i
      {
        ghost var p := pos;
        var e := ReadMapEntry();
        MapEntryRead(data, p, lim, utf8, count, read, old(pos), e, pos);
        if e.Err? {
          return Err(e.error);
        }
        PutAllSnoc(m, read, e.value);
        filled := filled[e.value.0 := e.value.1];
        read := read + [e.value];
        i := i + 1;
      }
      return Ok(filled);
    }

    /** One field of readFields (JfrReader.java:399-403). */
    method ReadField(numeric: bool) returns (r: Result<()>)
      requires Valid()
      modifies this`pos
      ensures Valid()
      ensures Passed(FieldAt(data, old(pos), lim, utf8, numeric), r, pos)
    {
      if numeric {
        var v :- GetVarlong();
      } else {
        var s :- GetString();
      }
      return Ok(());
    }

    /** readFields(numeric) (JfrReader.java:397-405). */
    method ReadFields(numeric: array<bool>) returns (r: Result<()>)
      requires Valid()
      modifies this`pos
      ensures Valid()
      ensures Passed(FieldsFrom(data, old(pos), lim, utf8, numeric[..], 0), r, pos)
    {
      var i := 0;
      while i < numeric.Length
        invariant Valid()
        invariant SameFields(data, pos, lim, utf8, numeric[..], i, old(pos))
      {
        ghost var p := pos;
        var f := ReadField(numeric[i]);
        FieldRead(data, p, lim, utf8, numeric[..], i, old(pos), f, pos);
        if f.Err? {
          return f;
        }
        i := i + 1;
      }
      return Ok(());
    }

    /** One constant of readOtherConstants (JfrReader.java:392-393). */
    method ReadOtherConstant(numeric: array<bool>) returns (r: Result<()>)
      requires Valid()
      modifies this`pos
      ensures Valid()
      ensures Passed(OtherAt(data, old(pos), lim, utf8, numeric[..]), r, pos)
    {
      var id :- GetVarlong();
      r := ReadFields(numeric);
    }

    /** The flags of readOtherConstants (JfrReader.java:384-388), one per
        field. */
    static method NumericFlags(fields: seq<JfrField>, stringType: int) returns (numeric: array<bool>)
      ensures fresh(numeric) && numeric[..] == Numeric(fields, stringType)
    {
      numeric := new bool[|fields|];
      var i := 0;
      while i < numeric.Length
        invariant 0 <= i <= numeric.Length
        invariant forall j :: 0 <= j < i ==> numeric[j] == (fields[j].constantPool || fields[j].fieldType != stringType)
      {
        var f := fields[i];
        numeric[i] := f.constantPool || f.fieldType != stringType;
        i := i + 1;
      }
      assert numeric[..] == Numeric(fields, stringType);
    }

    /** readOtherConstants(fields) (JfrReader.java:381-395): the flags say
        which fields are numbers, then the constants are read and dropped. */
    method ReadOtherConstants(fields: seq<JfrField>) returns (r: Result<()>)
      requires Valid()
      modifies this`pos
      ensures Valid()
      ensures Passed(OtherConstants(data, old(pos), lim, utf8, Numeric(fields, GetTypeId(JAVA_LANG_STRING))), r, pos)
    {
      var stringType := GetTypeId(JAVA_LANG_STRING);
      var numeric := NumericFlags(fields, stringType);
      ghost var flags := numeric[..];
      var n :- GetVarint();
      var count := Int32(n);
      var k := 0;
      while k < count
        invariant Valid()
        invariant numeric[..] == flags
        invariant 0 <= k && SameOthers(data, pos, lim, utf8, flags, count, k, old(pos))
        decreases count - k
      {
        ghost var p := pos;
        var c := ReadOtherConstant(numeric);
        OtherRead(data, p, lim, utf8, flags, count, k, old(pos), c, pos);
        if c.Err? {
          return c;
        }
        k := k + 1;
      }
      return Ok(());
    }

    /** readConstants(type) (JfrReader.java:270-299). */
    method ReadConstants(poolType: JfrClass?) returns (r: Result<()>)
      requires Valid()
      modifies this`pos, this`threads, this`classes, this`symbols, this`methods, this`stackTraces,
               this`frameTypes, this`threadStates
      ensures Valid()
      ensures var s := ConstantsAt(data, old(pos), lim, utf8, InfoOf(poolType), GetTypeId(JAVA_LANG_STRING), old(Constants()));
        && (r.Ok? <==> s.Ok?)
        && (s.Ok? ==> pos == s.value.next && Constants() == s.value.value)
        && (s.Err? ==> r.error == s.error)
    {
      if poolType == null || poolType.name == Null {
        return Err(NullPointer);
      }
      if poolType.name == Str(CHUNK_HEADER) {
        r := Position(Wrap32(pos + (CHUNK_HEADER_SIZE + 3)));
      } else {
        r := ReadDictionaryPool(poolType);
      }
    }

    /** The thread and class cases of readConstants (JfrReader.java:275-280). */
    method ReadDictionaryPool(poolType: JfrClass) returns (r: Result<()>)
      requires Valid()
      modifies this`pos, this`threads, this`classes, this`symbols, this`methods, this`stackTraces,
               this`frameTypes, this`threadStates
      ensures Valid()
      ensures var s := DictionaryPoolAt(data, old(pos), lim, utf8, InfoOf(poolType).value, GetTypeId(JAVA_LANG_STRING), old(Constants()));
        && (r.Ok? <==> s.Ok?)
        && (s.Ok? ==> pos == s.value.next && Constants() == s.value.value)
        && (s.Err? ==> r.error == s.error)
    {
      var name := poolType.name;
      if name == Str(JAVA_LANG_THREAD) {
        var group :- FieldNamed(poolType.fields, GROUP);
        r := ReadThreads(group.Some?);
      } else if name == Str(JAVA_LANG_CLASS) {
        var hidden :- FieldNamed(poolType.fields, HIDDEN);
        r := ReadClasses(hidden.Some?);
      } else {
        r := ReadIdPool(poolType);
      }
    }

    /** The symbol, method and stack trace cases of readConstants
        (JfrReader.java:281-289). */
    method ReadIdPool(poolType: JfrClass) returns (r: Result<()>)
      requires Valid()
      modifies this`pos, this`symbols, this`methods, this`stackTraces, this`frameTypes, this`threadStates
      ensures Valid()
      ensures var s := IdPoolAt(data, old(pos), lim, utf8, InfoOf(poolType).value, GetTypeId(JAVA_LANG_STRING), old(Constants()));
        && (r.Ok? <==> s.Ok?)
        && (s.Ok? ==> pos == s.value.next && Constants() == s.value.value)
        && (s.Err? ==> r.error == s.error)
    {
      var name := poolType.name;
      if name == Str(SYMBOL) {
        r := ReadSymbols();
      } else if name == Str(METHOD) {
        r := ReadMethods();
      } else if name == Str(STACK_TRACE) {
        r := ReadStackTraces();
      } else {
        r := ReadMapPool(poolType);
      }
    }

    /** The last cases of readConstants (JfrReader.java:290-297). */
    method ReadMapPool(poolType: JfrClass) returns (r: Result<()>)
      requires Valid()
      modifies this`pos, this`frameTypes, this`threadStates
      ensures Valid()
      ensures var s := MapPoolAt(data, old(pos), lim, utf8, InfoOf(poolType).value, GetTypeId(JAVA_LANG_STRING), old(Constants()));
        && (r.Ok? <==> s.Ok?)
        && (s.Ok? ==> pos == s.value.next && Constants() == s.value.value)
        && (s.Err? ==> r.error == s.error)
    {
      var name := poolType.name;
      if name == Str(FRAME_TYPE) {
        frameTypes :- ReadMap(frameTypes);
        r := Ok(());
      } else if name == Str(THREAD_STATE) {
        threadStates :- ReadMap(threadStates);
        r := Ok(());
      } else {
        r := ReadOtherConstants(poolType.fields);
      }
    }

    /** One constant set of readConstantPool (JfrReader.java:258-259): the
        type id, then readConstants(types.get(type)). */
    method ReadPoolType() returns (r: Result<()>)
      requires Valid()
      modifies this`pos, this`threads, this`classes, this`symbols, this`methods, this`stackTraces,
               this`frameTypes, this`threadStates
      ensures Valid() && TypeInfos() == old(TypeInfos())
      ensures Updated(PoolTypeAt(data, old(pos), lim, utf8, TypeInfos(), GetTypeId(JAVA_LANG_STRING), old(Constants())),
                      r, pos, Constants())
    {
      ghost var infos := TypeInfos();
      var t :- GetVarint();
      var poolType := if Int32(t) in types then types[Int32(t)] else null;
      assert InfoOf(poolType) == TypeOf(infos, t);
      r := ReadConstants(poolType);
    }

    /** The header of a pool (JfrReader.java:251-257); answers the delta and
        the number of constant sets. */
    method ReadPoolHeader() returns (r: Result<(jlong, jint)>)
      requires Valid()
      modifies this`pos
      ensures Valid()
      ensures Took(PoolHeader(data, old(pos), lim), r, pos)
    {
      var size :- GetVarint();
      var kind :- GetVarint();
      var start :- GetVarlong();
      var duration :- GetVarlong();
      var delta :- GetVarlong();
      var flush :- GetVarint();
      var count :- GetVarint();
      return Ok((delta, count));
    }

    /** One turn of readConstantPool's outer loop (JfrReader.java:250-261);
        answers the pool's delta. */
    method ReadPool() returns (r: Result<jlong>)
      requires Valid()
      modifies this`pos, this`threads, this`classes, this`symbols, this`methods, this`stackTraces,
               this`frameTypes, this`threadStates
      ensures Valid() && TypeInfos() == old(TypeInfos())
      ensures Pooled(PoolAt(data, old(pos), lim, utf8, TypeInfos(), GetTypeId(JAVA_LANG_STRING), old(Constants())),
                     r, pos, Constants())
    {
      var header :- ReadPoolHeader();
      r := ReadPoolBody(header.0, header.1);
    }

    /** The constant sets of a pool after its header (JfrReader.java:258-260). */
    method ReadPoolBody(delta: jlong, count: jint) returns (r: Result<jlong>)
      requires Valid()
      modifies this`pos, this`threads, this`classes, this`symbols, this`methods, this`stackTraces,
               this`frameTypes, this`threadStates
      ensures Valid() && TypeInfos() == old(TypeInfos())
      ensures Pooled(PoolBody(data, old(pos), lim, utf8, TypeInfos(), GetTypeId(JAVA_LANG_STRING), delta, count,
                              old(Constants())), r, pos, Constants())
    {
      ghost var s := PoolTypesFrom(data, pos, lim, utf8, TypeInfos(), GetTypeId(JAVA_LANG_STRING), Int32(count),
                                   Constants());
      var u :- ReadPoolTypes(Int32(count), s);
      return Ok(delta);
    }

    /** The loop over those constant sets, `count` of them, on its way to the
        answer `s`. */
    method ReadPoolTypes(count: int, ghost s: Result<Parsed<Tables>>) returns (r: Result<()>)
      requires Valid()
      requires s == PoolTypesFrom(data, pos, lim, utf8, TypeInfos(), GetTypeId(JAVA_LANG_STRING), count, Constants())
      modifies this`pos, this`threads, this`classes, this`symbols, this`methods, this`stackTraces,
               this`frameTypes, this`threadStates
      ensures Valid() && TypeInfos() == old(TypeInfos())
      ensures Updated(s, r, pos, Constants())
    {
      ghost var infos, stringType := TypeInfos(), GetTypeId(JAVA_LANG_STRING);
      ghost var p0, t0 := pos, Constants();
      var i := 0;
      while i < count
        invariant Valid() && 0 <= i
        invariant TypeInfos() == infos && GetTypeId(JAVA_LANG_STRING) == stringType
        invariant SamePoolTypes(data, pos, lim, utf8, infos, stringType, count, i, Constants(), p0, t0)
        decreases count - i
      {
        var c := ReadPoolTypeStep(count, i, p0, t0);
        if c.Err? {
          return Err(c.error);
        }
        i := i + 1;
      }
      PoolTypesDone(data, pos, lim, utf8, infos, stringType, count, i, Constants(), p0, t0);
      return Ok(());
    }

    /** One turn of that loop: the constant set at the cursor, after which
        the loop stands one set further on, or has failed as the whole loop
        does. */
    method ReadPoolTypeStep(count: int, k: nat, ghost p0: int, ghost t0: Tables) returns (r: Result<()>)
      requires Valid() && k < count
      requires SamePoolTypes(data, pos, lim, utf8, TypeInfos(), GetTypeId(JAVA_LANG_STRING), count, k, Constants(), p0, t0)
      modifies this`pos, this`threads, this`classes, this`symbols, this`methods, this`stackTraces,
               this`frameTypes, this`threadStates
      ensures Valid() && TypeInfos() == old(TypeInfos())
      ensures r.Err? ==> PoolTypesFrom(data, p0, lim, utf8, TypeInfos(), GetTypeId(JAVA_LANG_STRING), count, t0) == Err(r.error)
      ensures r.Ok? ==> SamePoolTypes(data, pos, lim, utf8, TypeInfos(), GetTypeId(JAVA_LANG_STRING), count, k + 1,
                                      Constants(), p0, t0)
    {
      ghost var infos, stringType := TypeInfos(), GetTypeId(JAVA_LANG_STRING);
      ghost var p, t := pos, Constants();
      r := ReadPoolType();
      PoolTypeRead(data, p, lim, utf8, infos, stringType, count, k, t, p0, t0, r, pos, Constants());
    }

    /** One turn of readConstantPool's outer loop (JfrReader.java:250-266);
        answers whether the loop goes on. */
    method ReadPoolTurn() returns (r: Result<bool>)
      requires Valid()
      modifies this`pos, this`threads, this`classes, this`symbols, this`methods, this`stackTraces,
               this`frameTypes, this`threadStates
      ensures Valid() && TypeInfos() == old(TypeInfos())
      ensures Pooled(PoolTurn(data, old(pos), lim, utf8, TypeInfos(), GetTypeId(JAVA_LANG_STRING), old(Constants())),
                     r, pos, Constants())
    {
      var position := pos;
      var delta :- ReadPool();
      r := NextPool(position, delta);
    }

    /** The end of that turn: `buf.position(position += delta)` unless the
        delta is 0. */
    method NextPool(position: int, delta: jlong) returns (r: Result<bool>)
      requires Valid()
      modifies this`pos
      ensures Valid()
      ensures Pooled(PoolNext(position, lim, delta, Constants(), old(pos)), r, pos, Constants())
    {
      if delta == 0 {
        return Ok(false);
      }
      var moved :- Position(Jump(position, delta));
      return Ok(true);
    }

    /** readConstantPool() (JfrReader.java:248-268), given `fuel` pools. */
    method ReadConstantPool(fuel: nat) returns (r: Result<()>)
      requires Valid()
      modifies this`pos, this`threads, this`classes, this`symbols, this`methods, this`stackTraces,
               this`frameTypes, this`threadStates
      ensures Valid() && TypeInfos() == old(TypeInfos())
      ensures Updated(ConstantPool(data, old(pos), lim, utf8, TypeInfos(), GetTypeId(JAVA_LANG_STRING), old(Constants()), fuel),
                      r, pos, Constants())
    {
      ghost var s := ConstantPool(data, pos, lim, utf8, TypeInfos(), GetTypeId(JAVA_LANG_STRING), Constants(), fuel);
      r := ReadPools(fuel, s);
    }

    /** The loop of readConstantPool, on its way to the answer `s`. */
    method ReadPools(fuel: nat, ghost s: Result<Parsed<Tables>>) returns (r: Result<()>)
      requires Valid()
      requires SamePools(data, pos, lim, utf8, TypeInfos(), GetTypeId(JAVA_LANG_STRING), Constants(), fuel, s)
      modifies this`pos, this`threads, this`classes, this`symbols, this`methods, this`stackTraces,
               this`frameTypes, this`threadStates
      ensures Valid() && TypeInfos() == old(TypeInfos())
      ensures Updated(s, r, pos, Constants())
    {
      var f := fuel;
      while true
        invariant Valid() && TypeInfos() == old(TypeInfos())
        invariant SamePools(data, pos, lim, utf8, TypeInfos(), GetTypeId(JAVA_LANG_STRING), Constants(), f, s)
        decreases f
      {
        var more, rest := ReadPoolStep(f, s);
        if more.Err? {
          return Err(more.error);
        }
        if !more.value {
          return Ok(());
        }
        f := rest;
      }
    }

    /** One turn of that loop: its exception or a delta of 0 decides `s`, and
        any other delta moves the loop on. */
    method ReadPoolStep(fuel: nat, ghost s: Result<Parsed<Tables>>) returns (r: Result<bool>, rest: nat)
      requires Valid()
      requires SamePools(data, pos, lim, utf8, TypeInfos(), GetTypeId(JAVA_LANG_STRING), Constants(), fuel, s)
      modifies this`pos, this`threads, this`classes, this`symbols, this`methods, this`stackTraces,
               this`frameTypes, this`threadStates
      ensures Valid() && TypeInfos() == old(TypeInfos())
      ensures r.Err? ==> s == Err(r.error)
      ensures r.Ok? && !r.value ==> s == Ok(Parsed(Constants(), pos))
      ensures r.Ok? && r.value ==> rest < fuel && SamePools(data, pos, lim, utf8, TypeInfos(), GetTypeId(JAVA_LANG_STRING), Constants(), rest, s)
    {
      if fuel == 0 {
        return Err(OutOfFuel), 0;
      }
      rest := fuel - 1;
      ghost var p, t := pos, Constants();
      ghost var infos, stringType := TypeInfos(), GetTypeId(JAVA_LANG_STRING);
      r := ReadPoolTurn();
      PoolTurnRead(data, p, lim, utf8, infos, stringType, t, fuel, rest, s, r, pos, Constants());
    }
      // -------------------------------------------------------------------------
    // Metadata

    /** The type tables as a Registry value: the id typesByName finds for
        each name, and the ids types holds. */
    function Reg(): Registry
      reads this`types, this`typesByName
    {
      Registry(NameIds(), types.Keys)
    }

    /** `strings[getVarint()]` (JfrReader.java:215, 220). */
    method ReadStringRef(strings: seq<JStr>) returns (r: Result<JStr>)
      requires Valid()
      modifies this`pos
      ensures Valid() && old(pos) <= pos
      ensures Took(StringRef(data, old(pos), lim, strings), r, pos)
    {
      var i :- GetVarint();
      var k := Int32(i);
      if k < 0 || k >= |strings| {
        return Err(IndexOutOfBounds);
      }
      return Ok(strings[k]);
    }

    /** One attribute of readElement (JfrReader.java:220). */
    method ReadAttribute(strings: seq<JStr>) returns (r: Result<(JStr, JStr)>)
      requires Valid()
      modifies this`pos
      ensures Valid() && old(pos) <= pos
      ensures Took(AttrAt(data, old(pos), lim, strings), r, pos)
    {
      var key :- ReadStringRef(strings);
      var value :- ReadStringRef(strings);
      return Ok((key, value));
    }

    /** readElement's attribute loop (JfrReader.java:218-221): `count` pairs
        put into a new map, a later key replacing an earlier one. */
    method ReadAttributes(strings: seq<JStr>, count: int) returns (r: Result<map<JStr, JStr>>)
      requires Valid()
      modifies this`pos
      ensures Valid() && old(pos) <= pos
      ensures Took(AttrsFrom(data, old(pos), lim, strings, count, map[]), r, pos)
    {
      var attributes: map<JStr, JStr> := map[];
      var i := 0;
      while i < count
        invariant Valid() && old(pos) <= pos
        invariant SameAttrs(data, pos, lim, strings, count, i, attributes, old(pos))
        decreases count - i
      {
        ghost var p := pos;
        var a := ReadAttribute(strings);
        AttrRead(data, p, lim, strings, count, i, attributes, old(pos), a, pos);
        if a.Err? {
          return Err(a.error);
        }
        attributes := attributes[a.value.0 := a.value.1];
        i := i + 1;
      }
      return Ok(attributes);
    }

    /** The name and the attributes of an element (JfrReader.java:215-221). */
    method ReadElementHead(strings: seq<JStr>) returns (r: Result<(JStr, map<JStr, JStr>)>)
      requires Valid()
      modifies this`pos
      ensures Valid() && old(pos) <= pos
      ensures Took(ElementHead(data, old(pos), lim, strings), r, pos)
    {
      var name :- ReadStringRef(strings);
      var n :- GetVarint();
      if Int32(n) < 0 {
        return Err(IllegalArgument);
      }
      var attributes :- ReadAttributes(strings, Int32(n));
      return Ok((name, attributes));
    }

    /** createElement (JfrReader.java:231-246): the element Create describes,
        a class registered as Register describes, and put into types, when it
        has no super type, with no fields yet. */
    method CreateElement(name: JStr, attributes: map<JStr, JStr>) returns (r: Result<Element>, ghost made: set<JfrClass>)
      requires Registered()
      modifies this`types, this`typesByName
      ensures Registered() && fresh(made)
      ensures Created(Create(name, attributes), r, made, old(Reg()), Reg(), old(TypeInfos()), TypeInfos(), old(types), types)
      ensures r.Ok? && r.value.ClassElement? ==> r.value.cls in made
    {
      made := {};
      if name == Null {
        return Err(NullPointer), made;
      }
      if name == Str(CLASS) {
        r, made := CreateClass(attributes);
        return;
      }
      if name == Str(FIELD) {
        var t := ParseInt(Lookup(attributes, CLASS));
        if t.Err? {
          return Err(t.error), made;
        }
        return Ok(FieldElement(JfrField(Lookup(attributes, NAME), t.value, Lookup(attributes, CONSTANT_POOL) == Str(TRUE)))), made;
      }
      return Ok(OtherElement), made;
    }

    /** The "class" case of createElement (JfrReader.java:233-239). */
    method CreateClass(attributes: map<JStr, JStr>) returns (r: Result<Element>, ghost made: set<JfrClass>)
      requires Registered()
      modifies this`types, this`typesByName
      ensures Registered() && fresh(made)
      ensures Created(Create(Str(CLASS), attributes), r, made, old(Reg()), Reg(), old(TypeInfos()), TypeInfos(), old(types), types)
      ensures r.Ok? && r.value.ClassElement? ==> r.value.cls in made
    {
      made := {};
      var id := ParseInt(Lookup(attributes, ID));
      if id.Err? {
        return Err(id.error), made;
      }
      var cls := new JfrClass(id.value, Lookup(attributes, NAME));
      made := {cls};
      if Str(SUPER_TYPE) !in attributes {
        PutType(cls);
      }
      PutTypeName(cls);
      return Ok(ClassElement(cls)), made;
    }

    /** `typesByName.put(type.name, type)` (JfrReader.java:238). */
    method PutTypeName(cls: JfrClass)
      modifies this`typesByName
      ensures typesByName == old(typesByName)[cls.name := cls]
      ensures NameIds() == old(NameIds())[cls.name := cls.id]
      ensures TypeInfos() == old(TypeInfos())
    {
      typesByName := typesByName[cls.name := cls];
    }

    /** `types.put(type.id, type)` (JfrReader.java:236). */
    method PutType(cls: JfrClass)
      modifies this`types
      ensures types == old(types)[cls.id := cls]
      ensures TypeInfos() == old(TypeInfos())[cls.id := TypeInfo(cls.name, cls.fields)]
    {
      types := types[cls.id := cls];
    }

    /** readElement (JfrReader.java:214-229): the element read and made, as
        the node ElementAt reads; its classes registered on the way down, so
        that types holds each under its id unless a later class took the id,
        with the fields its children gave it; every other entry untouched. */
    method ReadElement(strings: seq<JStr>) returns (r: Result<Element>, ghost node: Result<Node>, ghost made: set<JfrClass>)
      requires Valid() && Registered()
      modifies this`pos, this`types, this`typesByName
      ensures Valid() && Registered() && old(pos) <= pos && fresh(made)
      ensures Took(ElementAt(data, old(pos), lim, strings), node, pos)
      ensures (r.Ok? <==> node.Ok?) && (r.Err? ==> r.error == node.error)
      ensures r.Ok? ==> Made(r.value, node.value) && Reg() == RegisterNode(old(Reg()), node.value)
      ensures r.Ok? ==> TypeInfos() == InfosNode(old(TypeInfos()), node.value)
      ensures r.Ok? ==> Placed(types, old(types), ClassIds(node.value), made)
      decreases lim - pos, 0
    {
      var head := ReadElementHead(strings);
      if head.Err? {
        return Err(head.error), Err(head.error), {};
      }
      r, node, made := ReadElementFrom(head.value.0, head.value.1, strings);
    }

    /** readElement once the name and attributes are read
        (JfrReader.java:222-227): createElement, then the children. */
    method ReadElementFrom(name: JStr, attributes: map<JStr, JStr>, strings: seq<JStr>)
      returns (r: Result<Element>, ghost node: Result<Node>, ghost made: set<JfrClass>)
      requires Valid() && Registered()
      modifies this`pos, this`types, this`typesByName
      ensures Valid() && Registered() && old(pos) <= pos && fresh(made)
      ensures Took(ElementFrom(data, old(pos), lim, strings, name, attributes), node, pos)
      ensures (r.Ok? <==> node.Ok?) && (r.Err? ==> r.error == node.error)
      ensures r.Ok? ==> Made(r.value, node.value) && Reg() == RegisterNode(old(Reg()), node.value)
      ensures r.Ok? ==> TypeInfos() == InfosNode(old(TypeInfos()), node.value)
      ensures r.Ok? ==> Placed(types, old(types), ClassIds(node.value), made)
      decreases lim - pos, 4
    {
      var e, cls := CreateElement(name, attributes);
      if e.Err? {
        return Err(e.error), Err(e.error), cls;
      }
      ghost var elem := Create(name, attributes).value;
      ghost var t1 := types;
      var rest, body, others := ReadElementBody(e.value, elem, strings);
      if rest.Err? {
        return Err(rest.error), Err(rest.error), cls + others;
      }
      DeclareTwice(old(TypeInfos()), elem, [], FieldsOf(body.value.children));
      PlacedTrans(old(types), t1, types, DeclaredIds(elem), KidsClassIds(body.value.children), cls, others);
      return e, body, cls + others;
    }

    /** The children of readElement (JfrReader.java:223-227), given to
        addChild of the element `e` made for `elem`. */
    method ReadElementBody(e: Element, ghost elem: Elem, strings: seq<JStr>)
      returns (r: Result<()>, ghost node: Result<Node>, ghost made: set<JfrClass>)
      requires Valid() && Registered()
      requires Made(e, Node(elem, [])) && Alone(types, e, elem, {})
      modifies this`pos, this`types, this`typesByName, if e.ClassElement? then {e.cls} else {}
      ensures Valid() && Registered() && old(pos) <= pos && fresh(made)
      ensures Took(ElementBody(data, old(pos), lim, strings, elem), node, pos)
      ensures (r.Ok? <==> node.Ok?) && (r.Err? ==> r.error == node.error)
      ensures node.Ok? ==> Reg() == RegisterKids(old(Reg()), node.value.children)
      ensures node.Ok? ==> Made(e, node.value)
      ensures node.Ok? ==> TypeInfos() == InfosKids(Declare(old(TypeInfos()), elem, FieldsOf(node.value.children)), node.value.children)
      ensures node.Ok? ==> Placed(types, old(types), KidsClassIds(node.value.children), made)
      decreases lim - pos, 3
    {
      var n := ReadChildCount();
      if n.Err? {
        return Err(n.error), Err(n.error), {};
      }
      var done, kids, others := ReadChildren(e, elem, strings, Int32(n.value));
      if done.Err? {
        return Err(done.error), Err(done.error), others;
      }
      return Ok(()), Ok(Node(elem, kids.value)), others;
    }

    /** The child count of readElement (JfrReader.java:223), which leaves the
        classes in types as they are. */
    method ReadChildCount() returns (r: Result<jint>)
      requires Valid()
      modifies this`pos
      ensures Valid() && old(pos) <= pos
      ensures Took(Varint(data, old(pos), lim), r, pos)
      ensures TypeInfos() == old(TypeInfos())
    {
      r := GetVarint();
    }

    /** readElement's child loop (JfrReader.java:224-227): `count` children,
        each given to addChild of the element `e` made for `elem`. */
    method ReadChildren(e: Element, ghost elem: Elem, strings: seq<JStr>, count: int)
      returns (r: Result<()>, ghost kids: Result<seq<Node>>, ghost made: set<JfrClass>)
      requires Valid() && Registered()
      requires Made(e, Node(elem, [])) && Alone(types, e, elem, {})
      modifies this`pos, this`types, this`typesByName, if e.ClassElement? then {e.cls} else {}
      ensures Valid() && Registered() && old(pos) <= pos && fresh(made)
      ensures Took(ChildrenFrom(data, old(pos), lim, strings, count, []), kids, pos)
      ensures (r.Ok? <==> kids.Ok?) && (r.Err? ==> r.error == kids.error)
      ensures kids.Ok? ==> Reg() == RegisterKids(old(Reg()), kids.value)
      ensures kids.Ok? && e.ClassElement? ==> e.cls.fields == FieldsOf(kids.value)
      ensures kids.Ok? ==> TypeInfos() == InfosKids(Declare(old(TypeInfos()), elem, FieldsOf(kids.value)), kids.value)
      ensures kids.Ok? ==> Placed(types, old(types), KidsClassIds(kids.value), made)
      decreases lim - pos, 2
    {
      ghost var acc: seq<Node> := [];
      made := {};
      var i := 0;
      while i < count
        invariant Valid() && Registered() && old(pos) <= pos && fresh(made)
        invariant i == |acc| && SameChildren(data, pos, lim, strings, count, acc, old(pos))
        invariant Reg() == RegisterKids(old(Reg()), acc)
        invariant Made(e, Node(elem, acc))
        invariant TypeInfos() == InfosKids(Declare(old(TypeInfos()), elem, FieldsOf(acc)), acc)
        invariant Placed(types, old(types), KidsClassIds(acc), made)
        invariant Alone(types, e, elem, KidsClassIds(acc))
        decreases count - i
      {
        var child;
        child, acc, made := ReadChild(e, elem, strings, count, acc, made, old(pos), old(Reg()), old(TypeInfos()), old(types));
        if child.Err? {
          return Err(child.error), Err(child.error), made;
        }
        i := i + 1;
      }
      return Ok(()), Ok(acc), made;
    }

    /** One turn of readElement's child loop (JfrReader.java:224-227): the
        next child is read and given to `e`, and the loop's account of what
        was read so far grows by that child. */
    method ReadChild(e: Element, ghost elem: Elem, strings: seq<JStr>, count: int, ghost acc: seq<Node>,
                     ghost made: set<JfrClass>, ghost p0: int, ghost g0: Registry, ghost base: map<int, TypeInfo>,
                     ghost t0: map<int, JfrClass>)
      returns (r: Result<()>, ghost acc': seq<Node>, ghost made': set<JfrClass>)
      requires Valid() && Registered() && p0 <= pos && Made(e, Node(elem, acc))
      requires |acc| < count && SameChildren(data, pos, lim, strings, count, acc, p0)
      requires Reg() == RegisterKids(g0, acc)
      requires TypeInfos() == InfosKids(Declare(base, elem, FieldsOf(acc)), acc)
      requires Placed(types, t0, KidsClassIds(acc), made) && Alone(types, e, elem, KidsClassIds(acc))
      modifies this`pos, this`types, this`typesByName, if e.ClassElement? then {e.cls} else {}
      ensures Valid() && Registered() && old(pos) <= pos && fresh(made' - made)
      ensures r.Err? ==> ChildrenFrom(data, p0, lim, strings, count, []) == Err(r.error)
      ensures r.Ok? ==> |acc'| == |acc| + 1 && SameChildren(data, pos, lim, strings, count, acc', p0)
      ensures r.Ok? ==> Reg() == RegisterKids(g0, acc')
      ensures r.Ok? ==> Made(e, Node(elem, acc'))
      ensures r.Ok? ==> TypeInfos() == InfosKids(Declare(base, elem, FieldsOf(acc')), acc')
      ensures r.Ok? ==> Placed(types, t0, KidsClassIds(acc'), made') && Alone(types, e, elem, KidsClassIds(acc'))
      decreases lim - pos, 1
    {
      ghost var p, t, fs := pos, types, FieldsOf(acc);
      var child, node, more := ReadElement(strings);
      ChildRead(data, p, lim, strings, count, acc, p0, node, pos);
      if child.Err? {
        return Err(child.error), acc, made;
      }
      InfosKidsSnoc(Declare(base, elem, fs), acc, node.value);
      FieldsOfSnoc(acc, node.value);
      RegisterKidsSnoc(g0, acc, node.value);
      ChildPlaced(t0, t, types, e, elem, acc, node.value, made, more);
      acc' := acc + [node.value];
      made' := made + more;
      Adopt(e, elem, child.value, node.value, base, acc', fs);
      return Ok(()), acc', made';
    }

    /** `e.addChild(child)` (JfrReader.java:226): a field child joins the
        fields of a class, which types shows while the class is still there. */
    method Adopt(e: Element, ghost elem: Elem, child: Element, ghost c: Node, ghost base: map<int, TypeInfo>,
                 ghost kids: seq<Node>, ghost fs: seq<JfrField>)
      requires Made(child, c) && (e.ClassElement? <==> elem.ClassElem?)
      requires e.ClassElement? ==> e.cls.name == elem.name && e.cls.fields == fs
      requires Registered() && Alone(types, e, elem, KidsClassIds(kids))
      requires TypeInfos() == InfosKids(Declare(base, elem, fs), kids)
      modifies if e.ClassElement? then {e.cls} else {}
      ensures types == old(types)
      ensures var fs' := fs + if c.elem.FieldElem? then [c.elem.field] else [];
        && (e.ClassElement? ==> e.cls.fields == fs')
        && TypeInfos() == InfosKids(Declare(base, elem, fs'), kids)
    {
      if e.ClassElement? {
        ghost var fs' := fs + if c.elem.FieldElem? then [c.elem.field] else [];
        ghost var before := TypeInfos();
        e.cls.AddChild(child);
        if elem.ClassElem? && elem.byId {
          InfosKidsUpdate(Declare(base, elem, fs), kids, elem.id, TypeInfo(elem.name, fs'));
          assert Declare(base, elem, fs') == Declare(base, elem, fs)[elem.id := TypeInfo(elem.name, fs')];
          if elem.id in KidsClassIds(kids) {
            assert TypeInfos() == before;
          } else {
            forall k | k in types
              ensures TypeInfos()[k] == before[elem.id := TypeInfo(elem.name, fs')][k]
            {
              if k != elem.id {
                assert types[k] != e.cls;
                assert TypeInfos()[k] == TypeInfo(types[k].name, types[k].fields) == before[k];
              }
            }
            assert TypeInfos() == before[elem.id := TypeInfo(elem.name, fs')];
          }
        } else {
          assert TypeInfos() == before;
        }
      }
    }

    /** The five numbers readMeta reads and drops (JfrReader.java:201-205). */
    method ReadMetaHeader() returns (r: Result<jlong>)
      requires Valid()
      modifies this`pos
      ensures Valid() && old(pos) <= pos
      ensures Took(MetaHeader(data, old(pos), lim), r, pos)
    {
      var size :- GetVarint();
      var kind :- GetVarint();
      var start :- GetVarlong();
      var duration :- GetVarlong();
      r := GetVarlong();
    }

    /** readMeta's string table (JfrReader.java:207-210): `new String[n]`
        filled by getString. */
    method ReadStrings(n: nat) returns (r: Result<seq<JStr>>)
      requires Valid()
      modifies this`pos
      ensures Valid() && old(pos) <= pos
      ensures Took(StringsFrom(data, old(pos), lim, utf8, n, []), r, pos)
    {
      var strings := new JStr[n];
      var i := 0;
      while i < strings.Length
        invariant Valid() && old(pos) <= pos
        invariant 0 <= i <= strings.Length
        invariant SameStrings(data, pos, lim, utf8, n, strings[..i], old(pos))
      {
        ghost var p, read := pos, strings[..i];
        var s := GetString();
        StringRead(data, p, lim, utf8, n, read, old(pos), s, pos);
        if s.Err? {
          return Err(s.error);
        }
        strings[i] := s.value;
        assert strings[..i + 1] == read + [strings[i]];
        i := i + 1;
      }
      assert strings[..i] == strings[..];
      return Ok(strings[..]);
    }

    /** readMeta (JfrReader.java:200-212): the metadata record as MetaAt
        reads it, its classes registered as its root node describes. */
    method ReadMeta() returns (r: Result<()>)
      requires Valid() && Registered()
      modifies this`pos, this`types, this`typesByName
      ensures Valid() && Registered()
      ensures Metadata(MetaAt(data, old(pos), lim, utf8), r, pos, old(Reg()), Reg(), old(TypeInfos()), TypeInfos())
    {
      var header :- ReadMetaHeader();
      r := ReadMetaBody();
    }

    /** readMeta after its header: the string table, then the root element. */
    method ReadMetaBody() returns (r: Result<()>)
      requires Valid() && Registered()
      modifies this`pos, this`types, this`typesByName
      ensures Valid() && Registered()
      ensures Metadata(MetaBody(data, old(pos), lim, utf8), r, pos, old(Reg()), Reg(), old(TypeInfos()), TypeInfos())
    {
      var n :- GetVarint();
      if Int32(n) < 0 {
        return Err(NegativeArraySize);
      }
      r := ReadMetaTable(Int32(n));
    }

    /** The string table of `n` strings, then the root element. */
    method ReadMetaTable(n: nat) returns (r: Result<()>)
      requires Valid() && Registered()
      modifies this`pos, this`types, this`typesByName
      ensures Valid() && Registered()
      ensures Metadata(MetaTable(data, old(pos), lim, utf8, n), r, pos, old(Reg()), Reg(), old(TypeInfos()), TypeInfos())
    {
      var strings :- ReadStrings(n);
      var root, node, made := ReadElement(strings);
      if root.Err? {
        return Err(root.error);
      }
      return Ok(());
    }

    // -------------------------------------------------------------------------
    // Chunks and the constructor

    /** What the reader holds between chunks, as a value. */
    function State(): Loaded
      reads this`pos, this`types, this`typesByName, set id | id in types :: types[id]
      reads this`threads, this`classes, this`symbols, this`methods, this`stackTraces,
            this`frameTypes, this`threadStates
    {
      Loaded(Reg(), TypeInfos(), Constants(), pos)
    }

    /** The reader as its constructor leaves it, as a value. */
    function Snapshot(): Opened
      reads this`pos, this`lim, this`types, this`typesByName, set id | id in types :: types[id]
      reads this`threads, this`classes, this`symbols, this`methods, this`stackTraces,
            this`frameTypes, this`threadStates
      reads this`startNanos, this`durationNanos, this`startTicks, this`ticksPerSec, this`ids
    {
      Opened(Reg(), TypeInfos(), Constants(), Cur(), startNanos, durationNanos, startTicks, ticksPerSec, ids)
    }

    /** The seek readChunk does before its metadata and before its constant
        pools (JfrReader.java:191-192, 194-195): the int at `offset + 4` in
        the chunk header is the distance from the chunk's start. */
    method ReadSeek(chunkStart: int, offset: int) returns (r: Result<int>)
      requires Valid() && lim == |data|
      modifies this`pos
      ensures Valid() && lim == |data|
      ensures r == Seek(data, chunkStart, offset, old(pos)) && (r.Ok? ==> pos == r.value)
    {
      var delta :- GetIntAt(chunkStart + offset + 4);
      var moved :- Position(Wrap32(chunkStart + Int32(delta)));
      return Ok(pos);
    }

    /** readMeta, with the reader's state as a value. */
    method ReadMetaLoaded() returns (r: Result<()>)
      requires Valid() && Registered() && lim == |data|
      modifies this`pos, this`types, this`typesByName
      ensures Valid() && Registered() && lim == |data|
      ensures Loads(MetaLoaded(data, utf8, old(pos), old(State())), r, State())
    {
      r := ReadMeta();
    }

    /** readConstantPool, with the reader's state as a value. */
    method ReadPoolLoaded(fuel: nat) returns (r: Result<()>)
      requires Valid() && Registered() && lim == |data|
      modifies this`pos, this`threads, this`classes, this`symbols, this`methods, this`stackTraces,
               this`frameTypes, this`threadStates
      ensures Valid() && Registered() && lim == |data|
      ensures Loads(PoolLoaded(data, utf8, old(pos), old(State()), fuel), r, State())
    {
      r := ReadConstantPool(fuel);
    }

    /** readChunk's metadata (JfrReader.java:191-192), from the state `st`. */
    method ReadChunkMeta(chunkStart: int, ghost st: Loaded) returns (r: Result<()>)
      requires Valid() && Registered() && lim == |data| && State() == st
      modifies this`pos, this`types, this`typesByName
      ensures Valid() && Registered() && lim == |data|
      ensures Loads(ChunkMeta(data, utf8, chunkStart, st), r, State())
    {
      var p :- ReadSeek(chunkStart, META_OFFSET);
      assert State() == st.(pos := p);
      r := ReadMetaLoaded();
    }

    /** readChunk's constant pools (JfrReader.java:194-195), from the state
        `st`, given `fuel` pools. */
    method ReadChunkPool(chunkStart: int, fuel: nat, ghost st: Loaded) returns (r: Result<()>)
      requires Valid() && Registered() && lim == |data| && State() == st
      modifies this`pos, this`threads, this`classes, this`symbols, this`methods, this`stackTraces,
               this`frameTypes, this`threadStates
      ensures Valid() && Registered() && lim == |data|
      ensures Loads(ChunkPool(data, utf8, chunkStart, st, fuel), r, State())
    {
      var p :- ReadSeek(chunkStart, CPOOL_OFFSET);
      assert State() == st.(pos := p);
      r := ReadPoolLoaded(fuel);
    }

    /** readChunk's check of the magic number and the version
        (JfrReader.java:182-189). */
    method CheckChunkHeader(chunkStart: int) returns (r: Result<int>)
      requires Valid() && lim == |data|
      ensures r == CheckHeader(data, |data|, chunkStart)
    {
      var magic :- GetIntAt(chunkStart);
      if magic != CHUNK_MAGIC {
        return Err(NotValidJfr);
      }
      var version :- GetIntAt(chunkStart + 4);
      if Int32(version) < 0x20000 || Int32(version) > 0x2ffff {
        return Err(UnsupportedVersion(Int32(version)));
      }
      return Ok(Int32(version));
    }

    /** readChunk(chunkStart) (JfrReader.java:181-197), from the state `st`:
        the magic number and version, the metadata, the constant pools, and
        the chunk's size. */
    method ReadChunk(chunkStart: int, fuel: nat, ghost st: Loaded) returns (r: Result<int>)
      requires Valid() && Registered() && lim == |data| && State() == st
      modifies this`pos, this`types, this`typesByName
      modifies this`threads, this`classes, this`symbols, this`methods, this`stackTraces,
               this`frameTypes, this`threadStates
      ensures Valid() && Registered() && lim == |data|
      ensures Chunked(ChunkAt(data, utf8, chunkStart, st, fuel), r, State())
    {
      var version :- CheckChunkHeader(chunkStart);
      r := ReadChunkBody(chunkStart, fuel, st);
    }

    /** readChunk once the header has passed its checks
        (JfrReader.java:191-196). */
    method ReadChunkBody(chunkStart: int, fuel: nat, ghost st: Loaded) returns (r: Result<int>)
      requires Valid() && Registered() && lim == |data| && State() == st
      modifies this`pos, this`types, this`typesByName
      modifies this`threads, this`classes, this`symbols, this`methods, this`stackTraces,
               this`frameTypes, this`threadStates
      ensures Valid() && Registered() && lim == |data|
      ensures Chunked(ChunkBody(data, utf8, chunkStart, st, fuel), r, State())
    {
      var meta :- ReadChunkMeta(chunkStart, st);
      r := ReadChunkRest(chunkStart, fuel, State());
    }

    /** readChunk after its metadata (JfrReader.java:194-196): the constant
        pools and the chunk's size. */
    method ReadChunkRest(chunkStart: int, fuel: nat, ghost st: Loaded) returns (r: Result<int>)
      requires Valid() && Registered() && lim == |data| && State() == st
      modifies this`pos, this`threads, this`classes, this`symbols, this`methods, this`stackTraces,
               this`frameTypes, this`threadStates
      ensures Valid() && Registered() && lim == |data|
      ensures Chunked(ChunkRest(data, utf8, chunkStart, st, fuel), r, State())
    {
      var pool :- ReadChunkPool(chunkStart, fuel, st);
      r := ChunkSize(data, lim, chunkStart);
    }

    /** One turn of the constructor's loop (JfrReader.java:75-76), on its way
        to the answer `s`, given `fuel` more turns. */
    method ReadChunkTurn(chunkStart: int, endNanos: jlong, fuel: nat, ghost s: Result<(Loaded, jlong)>)
      returns (r: Result<(int, jlong)>, rest: nat)
      requires Valid() && Registered() && lim == |data| && IsInt(chunkStart) && chunkStart < |data|
      requires ChunksFrom(data, utf8, chunkStart, endNanos, State(), fuel) == s
      modifies this`pos, this`types, this`typesByName
      modifies this`threads, this`classes, this`symbols, this`methods, this`stackTraces,
               this`frameTypes, this`threadStates
      ensures Valid() && Registered() && lim == |data|
      ensures r.Err? ==> s == Err(r.error)
      ensures r.Ok? ==> rest < fuel && IsInt(r.value.0) && ChunksFrom(data, utf8, r.value.0, r.value.1, State(), rest) == s
    {
      if fuel == 0 {
        return Err(OutOfFuel), 0;
      }
      ghost var st := State();
      ChunksTurn(data, utf8, chunkStart, endNanos, st, fuel);
      r := ReadChunkStep(chunkStart, endNanos, fuel, st);
      rest := Spent(fuel);
    }

    /** The body of the constructor's loop (JfrReader.java:75-76) from the
        state `st`: the chunk's end joins the latest end, the chunk is read,
        and the next chunk starts where its size says. */
    method ReadChunkStep(chunkStart: int, endNanos: jlong, fuel: nat, ghost st: Loaded) returns (r: Result<(int, jlong)>)
      requires Valid() && Registered() && lim == |data| && State() == st
      modifies this`pos, this`types, this`typesByName
      modifies this`threads, this`classes, this`symbols, this`methods, this`stackTraces,
               this`frameTypes, this`threadStates
      ensures Valid() && Registered() && lim == |data|
      ensures var s := ChunkTurn(data, utf8, chunkStart, endNanos, st, fuel);
        && (r.Ok? <==> s.Ok?)
        && (s.Ok? ==> r.value == (s.value.0, s.value.1) && State() == s.value.2)
        && (s.Err? ==> r.error == s.error)
    {
      var chunkEnd :- ChunkEndNanos(data, chunkStart);
      var size :- ReadChunk(chunkStart, fuel, st);
      assert ChunkTurn(data, utf8, chunkStart, endNanos, st, fuel) == Ok((Wrap32(chunkStart + size), MaxLong(endNanos, chunkEnd), State()));
      return Ok((Wrap32(chunkStart + size), MaxLong(endNanos, chunkEnd)));
    }

    /** The constructor once the file is mapped (JfrReader.java:73-91), given
        `fuel` chunks and `fuel` constant pools in each. */
    method Load(fuel: nat) returns (r: Result<()>)
      requires Valid() && Registered() && lim == |data| && State() == Fresh
      modifies this`pos, this`lim, this`types, this`typesByName
      modifies this`threads, this`classes, this`symbols, this`methods, this`stackTraces,
               this`frameTypes, this`threadStates
      modifies this`startNanos, this`durationNanos, this`startTicks, this`ticksPerSec, this`ids
      ensures Valid()
      ensures var s := Open(data, utf8, fuel);
        && (r.Ok? <==> s.Ok?)
        && (s.Ok? ==> Snapshot() == s.value)
        && (s.Err? ==> r.error == s.error)
    {
      ghost var s := ChunksFrom(data, utf8, 0, 0, State(), fuel);
      var endNanos: jlong := 0;
      var chunkStart := 0;
      var f := fuel;
      while chunkStart < |data|
        invariant Valid() && Registered() && lim == |data| && IsInt(chunkStart)
        invariant ChunksFrom(data, utf8, chunkStart, endNanos, State(), f) == s
        decreases f
      {
        var turn, rest := ReadChunkTurn(chunkStart, endNanos, f, s);
        if turn.Err? {
          return Err(turn.error);
        }
        chunkStart, endNanos, f := turn.value.0, turn.value.1, rest;
      }
      r := Finish(endNanos);
    }

    /** The constructor after its loop (JfrReader.java:79-91): the times of
        the first chunk's header, the duration up to the latest chunk end
        `endNanos`, the six event type ids, and moveToNextChunk(0). */
    method Finish(endNanos: jlong) returns (r: Result<()>)
      requires Valid() && Registered() && lim == |data|
      modifies this`pos, this`lim, this`startNanos, this`durationNanos, this`startTicks, this`ticksPerSec, this`ids
      ensures Valid()
      ensures var s := Settle(data, old(State()), endNanos);
        && (r.Ok? <==> s.Ok?)
        && (s.Ok? ==> Snapshot() == s.value)
        && (s.Err? ==> r.error == s.error)
    {
      var times :- ReadTimes();
      SetTimes(times.0, SubLong(endNanos, times.0), times.1, times.2);
      SetEventIds();
      var moved :- MoveToFirstChunk();
      return Ok(());
    }

    /** moveToNextChunk(0), which leaves the type and constant tables as
        they are (JfrReader.java:91). */
    method MoveToFirstChunk() returns (r: Result<bool>)
      requires Valid()
      modifies this`pos, this`lim
      ensures Valid()
      ensures Moved(Stream.MoveToNextChunk(data, old(Cur()), 0), r, Cur())
      ensures Reg() == old(Reg()) && TypeInfos() == old(TypeInfos()) && Constants() == old(Constants())
    {
      r := MoveToNextChunk(0);
    }

    /** The three longs of the first chunk's header the constructor keeps
        (JfrReader.java:79-82). */
    method ReadTimes() returns (r: Result<(jlong, jlong, jlong)>)
      requires Valid() && lim == |data|
      ensures r == Times(data)
    {
      var first :- GetLongAt(32);
      var ticks :- GetLongAt(48);
      var perSec :- GetLongAt(56);
      return Ok((first, ticks, perSec));
    }

    /** The constructor's assignments of the times (JfrReader.java:79-82). */
    method SetTimes(first: jlong, duration: jlong, ticks: jlong, perSec: jlong)
      modifies this`startNanos, this`durationNanos, this`startTicks, this`ticksPerSec
      ensures startNanos == first && durationNanos == duration && startTicks == ticks && ticksPerSec == perSec
      ensures Reg() == old(Reg()) && TypeInfos() == old(TypeInfos()) && Constants() == old(Constants())
    {
      startNanos := first;
      durationNanos := duration;
      startTicks := ticks;
      ticksPerSec := perSec;
    }

    /** The constructor's lookups of the six event type ids
        (JfrReader.java:84-89). */
    method SetEventIds()
      modifies this`ids
      ensures ids == EventIdsOf(NameIds())
      ensures Reg() == old(Reg()) && TypeInfos() == old(TypeInfos()) && Constants() == old(Constants())
    {
      ids := EventIds(GetTypeId(EXECUTION_SAMPLE), GetTypeId(NATIVE_METHOD_SAMPLE),
                      GetTypeId(ALLOCATION_IN_NEW_TLAB), GetTypeId(ALLOCATION_OUTSIDE_TLAB),
                      GetTypeId(MONITOR_ENTER), GetTypeId(THREAD_PARK));
    }
  }
}
