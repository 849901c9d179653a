/** The constant pools of a chunk (JfrReader.java:248-405), as functions over
    the buffer. Each pool is a count followed by that many entries; the
    functions return the entries in the order read, and Meta's PutAll says
    how the reader's tables take them in. */
module Pools {
  import opened Wire
  import opened Names
  import opened Meta

  datatype ClassRef = ClassRef(name: jlong)
  datatype MethodRef = MethodRef(cls: jlong, name: jlong, sig: jlong)
  datatype StackTrace = StackTrace(methods: seq<jlong>, types: seq<byte>)

  /** The tables the constant pools fill, seen by value. The Dictionary
      tables are keyed by long, frameTypes and threadStates by Integer. */
  datatype Tables = Tables(threads: map<jlong, JStr>, classes: map<jlong, ClassRef>,
                           symbols: map<jlong, seq<byte>>, methods: map<jlong, MethodRef>,
                           stackTraces: map<jlong, StackTrace>,
                           frameTypes: map<jint, JStr>, threadStates: map<jint, JStr>)

  /** No table loses a key: the pools only put entries. */
  predicate Grows(t: Tables, u: Tables) {
    && t.threads.Keys <= u.threads.Keys && t.classes.Keys <= u.classes.Keys
    && t.symbols.Keys <= u.symbols.Keys && t.methods.Keys <= u.methods.Keys
    && t.stackTraces.Keys <= u.stackTraces.Keys
    && t.frameTypes.Keys <= u.frameTypes.Keys && t.threadStates.Keys <= u.threadStates.Keys
  }

  /** Every table but the one a pool of type `name` fills is left as it was. */
  predicate OnlyFills(t: Tables, u: Tables, name: JStr) {
    && (name != Str(JAVA_LANG_THREAD) ==> u.threads == t.threads)
    && (name != Str(JAVA_LANG_CLASS) ==> u.classes == t.classes)
    && (name != Str(SYMBOL) ==> u.symbols == t.symbols)
    && (name != Str(METHOD) ==> u.methods == t.methods)
    && (name != Str(STACK_TRACE) ==> u.stackTraces == t.stackTraces)
    && (name != Str(FRAME_TYPE) ==> u.frameTypes == t.frameTypes)
    && (name != Str(THREAD_STATE) ==> u.threadStates == t.threadStates)
  }

  // ---------------------------------------------------------------------------
  // Entries

  /** One entry of the thread pool (JfrReader.java:304-310): id, OS name, OS
      thread id, Java name, Java thread id and, when the type has a "group"
      field, a group. The table keeps the Java name, or the OS name when the
      Java name is null. */
  function ThreadAt(d: seq<byte>, p: int, lim: int, utf8: seq<byte> -> seq<bv16>, hasGroup: bool)
    : (r: Result<Parsed<(jlong, JStr)>>)
    requires InBuffer(d, p, lim)
    ensures Advanced(r, p, lim)
  {
    var id :- Varlong(d, p, lim);
    var osName :- GetString(d, id.next, lim, utf8);
    var osThreadId :- Varint(d, osName.next, lim);
    var javaName :- GetString(d, osThreadId.next, lim, utf8);
    var javaThreadId :- Varlong(d, javaName.next, lim);
    var q :- if hasGroup then Varlong(d, javaThreadId.next, lim) else Ok(Parsed(0, javaThreadId.next));
    Ok(Parsed((id.value, if javaName.value != Null then javaName.value else osName.value), q.next))
  }

  /** One entry of the class pool (JfrReader.java:317-323): id, loader, name
      and package, modifiers and, when the type has a "hidden" field, a
      hidden flag. */
  function ClassAt(d: seq<byte>, p: int, lim: int, hasHidden: bool): (r: Result<Parsed<(jlong, ClassRef)>>)
    requires InBuffer(d, p, lim)
    ensures Advanced(r, p, lim)
  {
    var id :- Varlong(d, p, lim);
    var loader :- Varlong(d, id.next, lim);
    var name :- Varlong(d, loader.next, lim);
    var pkg :- Varlong(d, name.next, lim);
    var modifiers :- Varint(d, pkg.next, lim);
    var q :- if hasHidden then Varint(d, modifiers.next, lim) else Ok(Parsed(0, modifiers.next));
    Ok(Parsed((id.value, ClassRef(name.value)), q.next))
  }

  /** One entry of the method pool (JfrReader.java:330-336). */
  function MethodAt(d: seq<byte>, p: int, lim: int): (r: Result<Parsed<(jlong, MethodRef)>>)
    requires InBuffer(d, p, lim)
    ensures Advanced(r, p, lim)
  {
    var id :- Varlong(d, p, lim);
    var cls :- Varlong(d, id.next, lim);
    var name :- Varlong(d, cls.next, lim);
    var sig :- Varlong(d, name.next, lim);
    var modifiers :- Varint(d, sig.next, lim);
    var hidden :- Varint(d, modifiers.next, lim);
    Ok(Parsed((id.value, MethodRef(cls.value, name.value, sig.value)), hidden.next))
  }

  /** One frame of readStackTrace (JfrReader.java:355-358): a method id, a
      line and a bytecode index, which are dropped, and a frame type byte. */
  function FrameAt(d: seq<byte>, p: int, lim: int): (r: Result<Parsed<(jlong, byte)>>)
    requires InBuffer(d, p, lim)
    ensures Advanced(r, p, lim)
  {
    var m :- Varlong(d, p, lim);
    var line :- Varint(d, m.next, lim);
    var bci :- Varint(d, line.next, lim);
    var t :- Get(d, bci.next, lim);
    Ok(Parsed((m.value, t.value), t.next))
  }

  /** readStackTrace's frame loop with `n` frames still to read after the
      method ids and frame types read so far. */
  function FramesFrom(d: seq<byte>, p: int, lim: int, n: nat, methods: seq<jlong>, types: seq<byte>)
    : (r: Result<Parsed<StackTrace>>)
    requires InBuffer(d, p, lim) && |methods| == |types|
    ensures Advanced(r, p, lim)
    ensures r.Ok? ==> var st := r.value.value;
      && |st.methods| == |st.types| == |methods| + n
      && st.methods[..|methods|] == methods && st.types[..|types|] == types
    decreases n
  {
    if n == 0 then Ok(Parsed(StackTrace(methods, types), p))
    else
      var f :- FrameAt(d, p, lim);
      var rest :- FramesFrom(d, f.next, lim, n - 1, methods + [f.value.0], types + [f.value.1]);
      assert rest.value.methods[..|methods| + 1][..|methods|] == methods;
      assert rest.value.types[..|types| + 1][..|types|] == types;
      Ok(rest)
  }

  /** readStackTrace (JfrReader.java:350-361): a depth, which `new long[]`
      rejects when negative, then that many frames. */
  function StackTraceBody(d: seq<byte>, p: int, lim: int): (r: Result<Parsed<StackTrace>>)
    requires InBuffer(d, p, lim)
    ensures Advanced(r, p, lim)
  {
    var depth :- Varint(d, p, lim);
    if Int32(depth.value) < 0 then Err(NegativeArraySize)
    else FramesFrom(d, depth.next, lim, Int32(depth.value), [], [])
  }

  /** One entry of the stack trace pool (JfrReader.java:343-346). */
  function StackTraceAt(d: seq<byte>, p: int, lim: int): (r: Result<Parsed<(jlong, StackTrace)>>)
    requires InBuffer(d, p, lim)
    ensures Advanced(r, p, lim)
  {
    var id :- Varlong(d, p, lim);
    var truncated :- Varint(d, id.next, lim);
    var st :- StackTraceBody(d, truncated.next, lim);
    Ok(Parsed((id.value, st.value), st.next))
  }

  /** One entry of the symbol pool (JfrReader.java:366-370): an id, the
      encoding byte, which must be 3, and the symbol's bytes. */
  function SymbolAt(d: seq<byte>, p: int, lim: int): (r: Result<Parsed<(jlong, seq<byte>)>>)
    requires InBuffer(d, p, lim)
    ensures Advanced(r, p, lim)
  {
    var id :- Varlong(d, p, lim);
    var enc :- Get(d, id.next, lim);
    if enc.value != 3 then Err(InvalidSymbolEncoding)
    else
      var b :- GetBytes(d, enc.next, lim);
      Ok(Parsed((id.value, b.value), b.next))
  }

  /** One entry of readMap (JfrReader.java:377): the key is read before the
      value. */
  function MapEntryAt(d: seq<byte>, p: int, lim: int, utf8: seq<byte> -> seq<bv16>)
    : (r: Result<Parsed<(jint, JStr)>>)
    requires InBuffer(d, p, lim)
    ensures Advanced(r, p, lim)
  {
    var k :- Varint(d, p, lim);
    var v :- GetString(d, k.next, lim, utf8);
    Ok(Parsed((k.value, v.value), v.next))
  }

  // ---------------------------------------------------------------------------
  // Pools: a count, then the entries (a count below one reads none)

  /** How many entries a loop `for (int i = 0; i < n; i++)` reads. */
  function Count(n: int): nat {
    if n <= 0 then 0 else n
  }

  function ThreadsFrom(d: seq<byte>, p: int, lim: int, utf8: seq<byte> -> seq<bv16>, hasGroup: bool,
                       n: int, acc: seq<(jlong, JStr)>): (r: Result<Parsed<seq<(jlong, JStr)>>>)
    requires InBuffer(d, p, lim)
    ensures Advanced(r, p, lim)
    ensures r.Ok? ==> |r.value.value| == |acc| + Count(n) && r.value.value[..|acc|] == acc
    decreases n, 1
  {
    if n <= 0 then Ok(Parsed(acc, p))
    else
      var e :- ThreadAt(d, p, lim, utf8, hasGroup);
      ThreadsRest(d, e.next, lim, utf8, hasGroup, n, acc, e.value)
  }

  /** The thread loop once the entry `e` of the `n` still to read is read. */
  function ThreadsRest(d: seq<byte>, p: int, lim: int, utf8: seq<byte> -> seq<bv16>, hasGroup: bool,
                       n: int, acc: seq<(jlong, JStr)>, e: (jlong, JStr)): (r: Result<Parsed<seq<(jlong, JStr)>>>)
    requires InBuffer(d, p, lim) && 0 < n
    ensures Advanced(r, p, lim)
    ensures r.Ok? ==> |r.value.value| == |acc| + Count(n) && r.value.value[..|acc|] == acc
    decreases n, 0
  {
    var rest :- ThreadsFrom(d, p, lim, utf8, hasGroup, n - 1, acc + [e]);
    assert rest.value[..|acc| + 1][..|acc|] == acc;
    Ok(rest)
  }

  /** One turn of readThreads' loop, as ThreadsFrom takes it. */
  lemma {:induction false} ThreadsStep(d: seq<byte>, p: int, lim: int, utf8: seq<byte> -> seq<bv16>, hasGroup: bool,
                                       n: int, acc: seq<(jlong, JStr)>)
    requires InBuffer(d, p, lim) && 0 < n
    ensures var e := ThreadAt(d, p, lim, utf8, hasGroup);
      ThreadsFrom(d, p, lim, utf8, hasGroup, n, acc)
        == if e.Err? then Err(e.error) else ThreadsFrom(d, e.value.next, lim, utf8, hasGroup, n - 1, acc + [e.value.value])
  {
    var e := ThreadAt(d, p, lim, utf8, hasGroup);
    if e.Ok? {
      assert ThreadsFrom(d, p, lim, utf8, hasGroup, n, acc) == ThreadsRest(d, e.value.next, lim, utf8, hasGroup, n, acc, e.value.value);
    }
  }

  /** readThreads (JfrReader.java:301-312). */
  function Threads(d: seq<byte>, p: int, lim: int, utf8: seq<byte> -> seq<bv16>, hasGroup: bool)
    : (r: Result<Parsed<seq<(jlong, JStr)>>>)
    requires InBuffer(d, p, lim)
    ensures Advanced(r, p, lim)
    ensures r.Ok? ==> Varint(d, p, lim).Ok? && |r.value.value| == Count(Int32(Varint(d, p, lim).value.value))
  {
    var n :- Varint(d, p, lim);
    ThreadsFrom(d, n.next, lim, utf8, hasGroup, Int32(n.value), [])
  }

  function ClassesFrom(d: seq<byte>, p: int, lim: int, hasHidden: bool, n: int, acc: seq<(jlong, ClassRef)>)
    : (r: Result<Parsed<seq<(jlong, ClassRef)>>>)
    requires InBuffer(d, p, lim)
    ensures Advanced(r, p, lim)
    ensures r.Ok? ==> |r.value.value| == |acc| + Count(n) && r.value.value[..|acc|] == acc
    decreases n
  {
    if n <= 0 then Ok(Parsed(acc, p))
    else
      var e :- ClassAt(d, p, lim, hasHidden);
      var rest :- ClassesFrom(d, e.next, lim, hasHidden, n - 1, acc + [e.value]);
      assert rest.value[..|acc| + 1][..|acc|] == acc;
      Ok(rest)
  }

  /** readClasses (JfrReader.java:314-325). */
  function Classes(d: seq<byte>, p: int, lim: int, hasHidden: bool): (r: Result<Parsed<seq<(jlong, ClassRef)>>>)
    requires InBuffer(d, p, lim)
    ensures Advanced(r, p, lim)
    ensures r.Ok? ==> Varint(d, p, lim).Ok? && |r.value.value| == Count(Int32(Varint(d, p, lim).value.value))
  {
    var n :- Varint(d, p, lim);
    ClassesFrom(d, n.next, lim, hasHidden, Int32(n.value), [])
  }

  function MethodsFrom(d: seq<byte>, p: int, lim: int, n: int, acc: seq<(jlong, MethodRef)>)
    : (r: Result<Parsed<seq<(jlong, MethodRef)>>>)
    requires InBuffer(d, p, lim)
    ensures Advanced(r, p, lim)
    ensures r.Ok? ==> |r.value.value| == |acc| + Count(n) && r.value.value[..|acc|] == acc
    decreases n
  {
    if n <= 0 then Ok(Parsed(acc, p))
    else
      var e :- MethodAt(d, p, lim);
      var rest :- MethodsFrom(d, e.next, lim, n - 1, acc + [e.value]);
      assert rest.value[..|acc| + 1][..|acc|] == acc;
      Ok(rest)
  }

  /** readMethods (JfrReader.java:327-338). */
  function Methods(d: seq<byte>, p: int, lim: int): (r: Result<Parsed<seq<(jlong, MethodRef)>>>)
    requires InBuffer(d, p, lim)
    ensures Advanced(r, p, lim)
    ensures r.Ok? ==> Varint(d, p, lim).Ok? && |r.value.value| == Count(Int32(Varint(d, p, lim).value.value))
  {
    var n :- Varint(d, p, lim);
    MethodsFrom(d, n.next, lim, Int32(n.value), [])
  }

  function StackTracesFrom(d: seq<byte>, p: int, lim: int, n: int, acc: seq<(jlong, StackTrace)>)
    : (r: Result<Parsed<seq<(jlong, StackTrace)>>>)
    requires InBuffer(d, p, lim)
    ensures Advanced(r, p, lim)
    ensures r.Ok? ==> |r.value.value| == |acc| + Count(n) && r.value.value[..|acc|] == acc
    decreases n
  {
    if n <= 0 then Ok(Parsed(acc, p))
    else
      var e :- StackTraceAt(d, p, lim);
      var rest :- StackTracesFrom(d, e.next, lim, n - 1, acc + [e.value]);
      assert rest.value[..|acc| + 1][..|acc|] == acc;
      Ok(rest)
  }

  /** readStackTraces (JfrReader.java:340-348). */
  function StackTraces(d: seq<byte>, p: int, lim: int): (r: Result<Parsed<seq<(jlong, StackTrace)>>>)
    requires InBuffer(d, p, lim)
    ensures Advanced(r, p, lim)
    ensures r.Ok? ==> Varint(d, p, lim).Ok? && |r.value.value| == Count(Int32(Varint(d, p, lim).value.value))
  {
    var n :- Varint(d, p, lim);
    StackTracesFrom(d, n.next, lim, Int32(n.value), [])
  }

  function SymbolsFrom(d: seq<byte>, p: int, lim: int, n: int, acc: seq<(jlong, seq<byte>)>)
    : (r: Result<Parsed<seq<(jlong, seq<byte>)>>>)
    requires InBuffer(d, p, lim)
    ensures Advanced(r, p, lim)
    ensures r.Ok? ==> |r.value.value| == |acc| + Count(n) && r.value.value[..|acc|] == acc
    decreases n
  {
    if n <= 0 then Ok(Parsed(acc, p))
    else
      var e :- SymbolAt(d, p, lim);
      var rest :- SymbolsFrom(d, e.next, lim, n - 1, acc + [e.value]);
      assert rest.value[..|acc| + 1][..|acc|] == acc;
      Ok(rest)
  }

  /** readSymbols (JfrReader.java:363-372). */
  function Symbols(d: seq<byte>, p: int, lim: int): (r: Result<Parsed<seq<(jlong, seq<byte>)>>>)
    requires InBuffer(d, p, lim)
    ensures Advanced(r, p, lim)
    ensures r.Ok? ==> Varint(d, p, lim).Ok? && |r.value.value| == Count(Int32(Varint(d, p, lim).value.value))
  {
    var n :- Varint(d, p, lim);
    SymbolsFrom(d, n.next, lim, Int32(n.value), [])
  }

  function MapFrom(d: seq<byte>, p: int, lim: int, utf8: seq<byte> -> seq<bv16>, n: int, acc: seq<(jint, JStr)>)
    : (r: Result<Parsed<seq<(jint, JStr)>>>)
    requires InBuffer(d, p, lim)
    ensures Advanced(r, p, lim)
    ensures r.Ok? ==> |r.value.value| == |acc| + Count(n) && r.value.value[..|acc|] == acc
    decreases n
  {
    if n <= 0 then Ok(Parsed(acc, p))
    else
      var e :- MapEntryAt(d, p, lim, utf8);
      var rest :- MapFrom(d, e.next, lim, utf8, n - 1, acc + [e.value]);
      assert rest.value[..|acc| + 1][..|acc|] == acc;
      Ok(rest)
  }

  /** readMap (JfrReader.java:374-379). */
  function MapEntries(d: seq<byte>, p: int, lim: int, utf8: seq<byte> -> seq<bv16>): (r: Result<Parsed<seq<(jint, JStr)>>>)
    requires InBuffer(d, p, lim)
    ensures Advanced(r, p, lim)
    ensures r.Ok? ==> Varint(d, p, lim).Ok? && |r.value.value| == Count(Int32(Varint(d, p, lim).value.value))
  {
    var n :- Varint(d, p, lim);
    MapFrom(d, n.next, lim, utf8, Int32(n.value), [])
  }

  // ---------------------------------------------------------------------------
  // Constants of other types: read and dropped

  /** readOtherConstants' flags (JfrReader.java:384-388): a field is read as a
      number when it refers to a constant pool or is not of the String type. */
  function Numeric(fields: seq<JfrField>, stringType: int): (numeric: seq<bool>)
    ensures |numeric| == |fields|
    ensures forall i :: 0 <= i < |fields| ==>
              (numeric[i] <==> fields[i].constantPool || fields[i].fieldType != stringType)
    decreases |fields|
  {
    if fields == [] then []
    else [fields[0].constantPool || fields[0].fieldType != stringType] + Numeric(fields[1..], stringType)
  }

  /** One field of readFields (JfrReader.java:399-403): a varlong when the
      flag is set, a string otherwise, both dropped; the result is the
      position after it. */
  function FieldAt(d: seq<byte>, p: int, lim: int, utf8: seq<byte> -> seq<bv16>, numeric: bool): (r: Result<int>)
    requires InBuffer(d, p, lim)
    ensures r.Ok? ==> p < r.value <= lim
  {
    if numeric then
      var v :- Varlong(d, p, lim);
      Ok(v.next)
    else
      var s :- GetString(d, p, lim, utf8);
      Ok(s.next)
  }

  /** readFields (JfrReader.java:397-405) from flag `i` on. */
  function FieldsFrom(d: seq<byte>, p: int, lim: int, utf8: seq<byte> -> seq<bv16>, numeric: seq<bool>, i: nat)
    : (r: Result<int>)
    requires InBuffer(d, p, lim) && i <= |numeric|
    ensures r.Ok? ==> p <= r.value <= lim
    decreases |numeric| - i
  {
    if i == |numeric| then Ok(p)
    else
      var q :- FieldAt(d, p, lim, utf8, numeric[i]);
      FieldsFrom(d, q, lim, utf8, numeric, i + 1)
  }

  /** One constant of readOtherConstants (JfrReader.java:392-393): its id,
      then its fields. */
  function OtherAt(d: seq<byte>, p: int, lim: int, utf8: seq<byte> -> seq<bv16>, numeric: seq<bool>)
    : (r: Result<int>)
    requires InBuffer(d, p, lim)
    ensures r.Ok? ==> p <= r.value <= lim
  {
    var id :- Varlong(d, p, lim);
    FieldsFrom(d, id.next, lim, utf8, numeric, 0)
  }

  function OtherFrom(d: seq<byte>, p: int, lim: int, utf8: seq<byte> -> seq<bv16>, numeric: seq<bool>, n: int)
    : (r: Result<int>)
    requires InBuffer(d, p, lim)
    ensures r.Ok? ==> p <= r.value <= lim
    decreases n
  {
    if n <= 0 then Ok(p)
    else
      var q :- OtherAt(d, p, lim, utf8, numeric);
      OtherFrom(d, q, lim, utf8, numeric, n - 1)
  }

  /** readOtherConstants (JfrReader.java:381-395) once the flags are known:
      a count, then per constant an id and its fields; the result is the
      position after them. */
  function OtherConstants(d: seq<byte>, p: int, lim: int, utf8: seq<byte> -> seq<bv16>, numeric: seq<bool>)
    : (r: Result<int>)
    requires InBuffer(d, p, lim)
    ensures r.Ok? ==> p <= r.value <= lim
  {
    var n :- Varint(d, p, lim);
    OtherFrom(d, n.next, lim, utf8, numeric, Int32(n.value))
  }

  // ---------------------------------------------------------------------------
  // readConstants and readConstantPool

  /** readConstants(type) (JfrReader.java:270-299): a switch on the type's
      name. A null type, or a null name, raises NullPointerException; the
      chunk header pool is skipped whole by moving 71 bytes on; the other
      cases are those of DictionaryPoolAt. */
  function ConstantsAt(d: seq<byte>, p: int, lim: int, utf8: seq<byte> -> seq<bv16>, info: Option<TypeInfo>,
                       stringType: int, t: Tables): (r: Result<Parsed<Tables>>)
    requires InBuffer(d, p, lim)
    ensures r.Ok? ==> 0 <= r.value.next <= lim
    ensures info.None? || info.value.name == Null ==> r == Err(NullPointer)
    ensures info.Some? && info.value.name == Str(CHUNK_HEADER) ==>
      var q := Wrap32(p + (68 + 3));
      && (0 <= q <= lim ==> r == Ok(Parsed(t, q)))
      && (!(0 <= q <= lim) ==> r == Err(IllegalArgument))
    ensures r.Ok? ==> info.Some? && Grows(t, r.value.value) && OnlyFills(t, r.value.value, info.value.name)
  {
    if info.None? || info.value.name == Null then Err(NullPointer)
    else if info.value.name == Str(CHUNK_HEADER) then
      var q := Wrap32(p + (68 + 3));
      if 0 <= q <= lim then Ok(Parsed(t, q)) else Err(IllegalArgument)
    else DictionaryPoolAt(d, p, lim, utf8, info.value, stringType, t)
  }

  /** The thread and class cases of readConstants (JfrReader.java:275-280):
      each looks up a field of the type ("group", "hidden"), then puts the
      entries read into its table. The later cases are those of IdPoolAt. */
  function DictionaryPoolAt(d: seq<byte>, p: int, lim: int, utf8: seq<byte> -> seq<bv16>, info: TypeInfo,
                            stringType: int, t: Tables): (r: Result<Parsed<Tables>>)
    requires InBuffer(d, p, lim)
    ensures r.Ok? ==> 0 <= r.value.next <= lim
    ensures r.Ok? ==> Grows(t, r.value.value) && OnlyFills(t, r.value.value, info.name)
    ensures info.name == Str(JAVA_LANG_THREAD) ==>
      var group := FieldNamed(info.fields, GROUP);
      && (group.Err? ==> r == Err(NullPointer))
      && (r.Ok? ==> var es := Threads(d, p, lim, utf8, group.value.Some?);
            es.Ok? && r.value.value.threads == PutAll(t.threads, es.value.value) && r.value.next == es.value.next)
    ensures info.name == Str(JAVA_LANG_CLASS) ==>
      var hidden := FieldNamed(info.fields, HIDDEN);
      && (hidden.Err? ==> r == Err(NullPointer))
      && (r.Ok? ==> var es := Classes(d, p, lim, hidden.value.Some?);
            es.Ok? && r.value.value.classes == PutAll(t.classes, es.value.value) && r.value.next == es.value.next)
  {
    if info.name == Str(JAVA_LANG_THREAD) then
      var group :- FieldNamed(info.fields, GROUP);
      var es :- Threads(d, p, lim, utf8, group.Some?);
      Ok(Parsed(t.(threads := PutAll(t.threads, es.value)), es.next))
    else if info.name == Str(JAVA_LANG_CLASS) then
      var hidden :- FieldNamed(info.fields, HIDDEN);
      var es :- Classes(d, p, lim, hidden.Some?);
      Ok(Parsed(t.(classes := PutAll(t.classes, es.value)), es.next))
    else IdPoolAt(d, p, lim, utf8, info, stringType, t)
  }

  /** The symbol, method and stack trace cases of readConstants
      (JfrReader.java:281-289). */
  function IdPoolAt(d: seq<byte>, p: int, lim: int, utf8: seq<byte> -> seq<bv16>, info: TypeInfo,
                    stringType: int, t: Tables): (r: Result<Parsed<Tables>>)
    requires InBuffer(d, p, lim)
    ensures r.Ok? ==> 0 <= r.value.next <= lim
    ensures r.Ok? ==> Grows(t, r.value.value) && OnlyFills(t, r.value.value, info.name)
    ensures info.name == Str(SYMBOL) && r.Ok? ==> var es := Symbols(d, p, lim);
      es.Ok? && r.value.value.symbols == PutAll(t.symbols, es.value.value) && r.value.next == es.value.next
    ensures info.name == Str(METHOD) && r.Ok? ==> var es := Methods(d, p, lim);
      es.Ok? && r.value.value.methods == PutAll(t.methods, es.value.value) && r.value.next == es.value.next
    ensures info.name == Str(STACK_TRACE) && r.Ok? ==> var es := StackTraces(d, p, lim);
      es.Ok? && r.value.value.stackTraces == PutAll(t.stackTraces, es.value.value) && r.value.next == es.value.next
  {
    if info.name == Str(SYMBOL) then
      var es :- Symbols(d, p, lim);
      Ok(Parsed(t.(symbols := PutAll(t.symbols, es.value)), es.next))
    else if info.name == Str(METHOD) then
      var es :- Methods(d, p, lim);
      Ok(Parsed(t.(methods := PutAll(t.methods, es.value)), es.next))
    else if info.name == Str(STACK_TRACE) then
      var es :- StackTraces(d, p, lim);
      Ok(Parsed(t.(stackTraces := PutAll(t.stackTraces, es.value)), es.next))
    else MapPoolAt(d, p, lim, utf8, info, stringType, t)
  }

  /** The last cases of readConstants (JfrReader.java:290-297): the frame
      type and thread state pools fill their maps, and any other pool is read
      and dropped. */
  function MapPoolAt(d: seq<byte>, p: int, lim: int, utf8: seq<byte> -> seq<bv16>, info: TypeInfo,
                     stringType: int, t: Tables): (r: Result<Parsed<Tables>>)
    requires InBuffer(d, p, lim)
    ensures r.Ok? ==> 0 <= r.value.next <= lim
    ensures r.Ok? ==> Grows(t, r.value.value) && OnlyFills(t, r.value.value, info.name)
    ensures info.name == Str(FRAME_TYPE) && r.Ok? ==> var es := MapEntries(d, p, lim, utf8);
      es.Ok? && r.value.value.frameTypes == PutAll(t.frameTypes, es.value.value) && r.value.next == es.value.next
    ensures info.name == Str(THREAD_STATE) && r.Ok? ==> var es := MapEntries(d, p, lim, utf8);
      es.Ok? && r.value.value.threadStates == PutAll(t.threadStates, es.value.value) && r.value.next == es.value.next
    ensures info.name !in {Str(FRAME_TYPE), Str(THREAD_STATE)} && r.Ok? ==>
      r.value.value == t && OtherConstants(d, p, lim, utf8, Numeric(info.fields, stringType)) == Ok(r.value.next)
  {
    if info.name == Str(FRAME_TYPE) then
      var es :- MapEntries(d, p, lim, utf8);
      Ok(Parsed(t.(frameTypes := PutAll(t.frameTypes, es.value)), es.next))
    else if info.name == Str(THREAD_STATE) then
      var es :- MapEntries(d, p, lim, utf8);
      Ok(Parsed(t.(threadStates := PutAll(t.threadStates, es.value)), es.next))
    else
      var q :- OtherConstants(d, p, lim, utf8, Numeric(info.fields, stringType));
      Ok(Parsed(t, q))
  }

  /** `types.get(type)`: the registered class with that id, or null. */
  function TypeOf(types: map<int, TypeInfo>, t: jint): Option<TypeInfo> {
    if Int32(t) in types then Some(types[Int32(t)]) else None
  }

  /** One constant set of a pool (JfrReader.java:258-259): a type id, then
      the constants of the type registered under it. */
  function PoolTypeAt(d: seq<byte>, p: int, lim: int, utf8: seq<byte> -> seq<bv16>, types: map<int, TypeInfo>,
                      stringType: int, t: Tables): (r: Result<Parsed<Tables>>)
    requires InBuffer(d, p, lim)
    ensures r.Ok? ==> 0 <= r.value.next <= lim && Grows(t, r.value.value)
    ensures var ty := Varint(d, p, lim);
      && (ty.Ok? && Int32(ty.value.value) !in types ==> r == Err(NullPointer))
      && (r.Ok? ==> ty.Ok? && Int32(ty.value.value) in types
                    && OnlyFills(t, r.value.value, types[Int32(ty.value.value)].name))
  {
    var ty :- Varint(d, p, lim);
    ConstantsAt(d, ty.next, lim, utf8, TypeOf(types, ty.value), stringType, t)
  }

  /** The loop over one pool's constant sets with `n` still to read. */
  function PoolTypesFrom(d: seq<byte>, p: int, lim: int, utf8: seq<byte> -> seq<bv16>, types: map<int, TypeInfo>,
                         stringType: int, n: int, t: Tables): (r: Result<Parsed<Tables>>)
    requires InBuffer(d, p, lim)
    ensures r.Ok? ==> 0 <= r.value.next <= lim && Grows(t, r.value.value)
    ensures n <= 0 ==> r == Ok(Parsed(t, p))
    decreases n
  {
    if n <= 0 then Ok(Parsed(t, p))
    else
      var c :- PoolTypeAt(d, p, lim, utf8, types, stringType, t);
      PoolTypesFrom(d, c.next, lim, utf8, types, stringType, n - 1, c.value)
  }

  /** The header of a pool (JfrReader.java:251-257): its size and type, start,
      duration, the delta to the next pool, a flush flag and the number of
      constant sets; the delta and the count are kept. */
  function PoolHeader(d: seq<byte>, p: int, lim: int): (r: Result<Parsed<(jlong, jint)>>)
    requires InBuffer(d, p, lim)
    ensures Advanced(r, p, lim)
  {
    var size :- Varint(d, p, lim);
    var kind :- Varint(d, size.next, lim);
    var start :- Varlong(d, kind.next, lim);
    var duration :- Varlong(d, start.next, lim);
    var delta :- Varlong(d, duration.next, lim);
    var flush :- Varint(d, delta.next, lim);
    var count :- Varint(d, flush.next, lim);
    Ok(Parsed((delta.value, count.value), count.next))
  }

  /** One turn of readConstantPool's outer loop (JfrReader.java:250-261): the
      pool's header and its constant sets; the result holds the delta. */
  function PoolAt(d: seq<byte>, p: int, lim: int, utf8: seq<byte> -> seq<bv16>, types: map<int, TypeInfo>,
                  stringType: int, t: Tables): (r: Result<Parsed<(jlong, Tables)>>)
    requires InBuffer(d, p, lim)
    ensures r.Ok? ==> 0 <= r.value.next <= lim && Grows(t, r.value.value.1)
    ensures r.Ok? ==> PoolHeader(d, p, lim).Ok? && r.value.value.0 == PoolHeader(d, p, lim).value.value.0
  {
    var header :- PoolHeader(d, p, lim);
    PoolBody(d, header.next, lim, utf8, types, stringType, header.value.0, header.value.1, t)
  }

  /** The constant sets of a pool after its header, `count` of them, with
      the pool's `delta` passed on. */
  function PoolBody(d: seq<byte>, p: int, lim: int, utf8: seq<byte> -> seq<bv16>, types: map<int, TypeInfo>,
                    stringType: int, delta: jlong, count: jint, t: Tables): (r: Result<Parsed<(jlong, Tables)>>)
    requires InBuffer(d, p, lim)
    ensures r.Ok? ==> 0 <= r.value.next <= lim && r.value.value.0 == delta && Grows(t, r.value.value.1)
  {
    var pool :- PoolTypesFrom(d, p, lim, utf8, types, stringType, Int32(count), t);
    Ok(Parsed((delta, pool.value), pool.next))
  }

  /** `position += delta` on readConstantPool's int position. */
  function Jump(position: int, delta: jlong): (q: int)
    ensures IsInt(q) && (q - (position + Long(delta))) % TWO_32 == 0
    ensures IsInt(position + Long(delta)) ==> q == position + Long(delta)
  {
    Wrap32(position + Long(delta))
  }

  /** One turn of readConstantPool's outer loop (JfrReader.java:250-266) from
      the pool at `position`: false with the position after the pool when its
      delta is 0, and otherwise true with the position of the pool its delta
      points at, which must lie within the buffer. */
  function PoolTurn(d: seq<byte>, position: int, lim: int, utf8: seq<byte> -> seq<bv16>,
                    types: map<int, TypeInfo>, stringType: int, t: Tables): (r: Result<Parsed<(bool, Tables)>>)
    requires InBuffer(d, position, lim)
    ensures r.Ok? ==> 0 <= r.value.next <= lim && Grows(t, r.value.value.1)
    ensures r.Ok? ==> var pool := PoolAt(d, position, lim, utf8, types, stringType, t);
      pool.Ok? && (r.value.value.0 <==> pool.value.value.0 != 0)
      && (r.value.value.0 ==> r.value.next == Jump(position, pool.value.value.0))
      && (!r.value.value.0 ==> r.value.next == pool.value.next)
  {
    var pool :- PoolAt(d, position, lim, utf8, types, stringType, t);
    PoolNext(position, lim, pool.value.0, pool.value.1, pool.next)
  }

  /** The end of that turn, for the pool at `position` whose delta is
      `delta`, read into `t`, ending at `next`. */
  function PoolNext(position: int, lim: int, delta: jlong, t: Tables, next: int): (r: Result<Parsed<(bool, Tables)>>)
    requires 0 <= next <= lim
    ensures r.Ok? ==> 0 <= r.value.next <= lim && r.value.value.1 == t
    ensures r.Ok? ==> (r.value.value.0 <==> delta != 0)
    ensures delta == 0 ==> r == Ok(Parsed((false, t), next))
    ensures delta != 0 ==> var q := Jump(position, delta);
      && (0 <= q <= lim ==> r == Ok(Parsed((true, t), q)))
      && (!(0 <= q <= lim) ==> r == Err(IllegalArgument))
  {
    if delta == 0 then Ok(Parsed((false, t), next))
    else
      var jumped := Jump(position, delta);
      if !(0 <= jumped <= lim) then Err(IllegalArgument)
      else Ok(Parsed((true, t), jumped))
  }

  /** readConstantPool (JfrReader.java:248-268) from the pool at `position`,
      given `fuel` pools: a delta of 0 ends the chain, any other moves to the
      pool `delta` bytes after this one's start. A chain that comes back to a
      pool it has read makes the Java loop run forever; the fuel bounds it. */
  function ConstantPool(d: seq<byte>, position: int, lim: int, utf8: seq<byte> -> seq<bv16>,
                        types: map<int, TypeInfo>, stringType: int, t: Tables, fuel: nat)
    : (r: Result<Parsed<Tables>>)
    requires InBuffer(d, position, lim)
    ensures r.Ok? ==> 0 <= r.value.next <= lim && Grows(t, r.value.value)
    decreases fuel
  {
    if fuel == 0 then Err(OutOfFuel)
    else
      var turn :- PoolTurn(d, position, lim, utf8, types, stringType, t);
      if !turn.value.0 then Ok(Parsed(turn.value.1, turn.next))
      else ConstantPool(d, turn.next, lim, utf8, types, stringType, turn.value.1, fuel - 1)
  }

  // ---------------------------------------------------------------------------
  // Properties

  /** One pool of readConstantPool's chain, with fuel left for it: a pool
      that fails fails the chain; a delta of 0 ends the chain right after the
      pool; any other delta moves to the pool that many bytes after this
      one's start, and a move outside the buffer is an
      IllegalArgumentException. */
  lemma {:induction false} ConstantPoolTurn(d: seq<byte>, position: int, lim: int, utf8: seq<byte> -> seq<bv16>,
                                            types: map<int, TypeInfo>, stringType: int, t: Tables, fuel: nat)
    requires InBuffer(d, position, lim) && 0 < fuel
    ensures var pool := PoolAt(d, position, lim, utf8, types, stringType, t);
      var r := ConstantPool(d, position, lim, utf8, types, stringType, t, fuel);
      && (pool.Err? ==> r == Err(pool.error))
      && (pool.Ok? && pool.value.value.0 == 0 ==> r == Ok(Parsed(pool.value.value.1, pool.value.next)))
      && (pool.Ok? && pool.value.value.0 != 0 ==>
            var q := Jump(position, pool.value.value.0);
            && (0 <= q <= lim ==> r == ConstantPool(d, q, lim, utf8, types, stringType, pool.value.value.1, fuel - 1))
            && (!(0 <= q <= lim) ==> r == Err(IllegalArgument)))
  {
  }

  /** A symbol whose encoding byte is not 3 is rejected, whatever follows. */
  lemma SymbolEncodingChecked(d: seq<byte>, p: int, lim: int)
    requires InBuffer(d, p, lim)
    requires Varlong(d, p, lim).Ok?
    ensures var id := Varlong(d, p, lim).value;
      id.next < lim && d[id.next] != 3 ==> SymbolAt(d, p, lim) == Err(InvalidSymbolEncoding)
  {
  }

  /** A thread is known by its Java name, and by its OS name when it has no
      Java name. */
  lemma ThreadName(d: seq<byte>, p: int, lim: int, utf8: seq<byte> -> seq<bv16>, hasGroup: bool)
    requires InBuffer(d, p, lim)
    requires ThreadAt(d, p, lim, utf8, hasGroup).Ok?
    ensures var id := Varlong(d, p, lim).value;
      var osName := GetString(d, id.next, lim, utf8).value;
      var tid := Varint(d, osName.next, lim).value;
      var javaName := GetString(d, tid.next, lim, utf8).value;
      && ThreadAt(d, p, lim, utf8, hasGroup).value.value.0 == id.value
      && ThreadAt(d, p, lim, utf8, hasGroup).value.value.1
         == (if javaName.value == Null then osName.value else javaName.value)
  {
  }

  /** A negative stack depth is rejected before any frame is read. */
  lemma NegativeDepth(d: seq<byte>, p: int, lim: int)
    requires InBuffer(d, p, lim)
    requires Varint(d, p, lim).Ok? && Int32(Varint(d, p, lim).value.value) < 0
    ensures StackTraceBody(d, p, lim) == Err(NegativeArraySize)
  {
  }
}
