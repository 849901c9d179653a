/** The writer's side of the metadata section: an element's name and
    attributes as table indices, the string table and the section header,
    and the round trips that tie each to what readElement and readMeta read
    (JfrReader.java:200-229). */
module MetaWriter {
  import opened Wire
  import opened Varints
  import opened Codec
  import opened Meta

  // ---------------------------------------------------------------------------
  // Attributes

  /** An index the string table can answer. */
  predicate InTable(strings: seq<JStr>, i: jint) {
    0 <= Int32(i) < |strings|
  }

  /** Attribute pairs whose key and value indices the table can answer. */
  predicate Indexes(strings: seq<JStr>, ix: seq<(jint, jint)>) {
    forall k :: 0 <= k < |ix| ==> InTable(strings, ix[k].0) && InTable(strings, ix[k].1)
  }

  /** Attributes as the writer puts them down: for each pair, the table
      index of its key, then that of its value. */
  function EncodeAttrs(ix: seq<(jint, jint)>): (e: seq<byte>)
    ensures |e| >= 2 * |ix|
    decreases |ix|
  {
    if ix == [] then [] else EncodeVarint(ix[0].0) + (EncodeVarint(ix[0].1) + EncodeAttrs(ix[1..]))
  }

  /** The key and the value each pair of indices names. */
  function Pairs(strings: seq<JStr>, ix: seq<(jint, jint)>): (ps: seq<(JStr, JStr)>)
    requires Indexes(strings, ix)
    ensures |ps| == |ix|
    decreases |ix|
  {
    if ix == [] then []
    else [(strings[Int32(ix[0].0)], strings[Int32(ix[0].1)])] + Pairs(strings, ix[1..])
  }

  /** Pair `k` names the table's entries at its two indices. */
  lemma {:induction false} PairsAt(strings: seq<JStr>, ix: seq<(jint, jint)>, k: int)
    requires Indexes(strings, ix) && 0 <= k < |ix|
    ensures Pairs(strings, ix)[k] == (strings[Int32(ix[k].0)], strings[Int32(ix[k].1)])
    decreases k
  {
    if k > 0 {
      PairsAt(strings, ix[1..], k - 1);
    }
  }

  /** One attribute, once both its indices are read. */
  lemma {:induction false} AttrReads(d: seq<byte>, p: int, lim: int, strings: seq<JStr>, i: jint, q: int, j: jint, s: int)
    requires InBuffer(d, p, lim) && Varint(d, p, lim) == Ok(Parsed(i, q))
    requires InBuffer(d, q, lim) && Varint(d, q, lim) == Ok(Parsed(j, s))
    requires InTable(strings, i) && InTable(strings, j)
    ensures AttrAt(d, p, lim, strings) == Ok(Parsed((strings[Int32(i)], strings[Int32(j)]), s))
  {
  }

  /** An attribute reads back as the key and the value its indices name,
      the key's index first. */
  lemma {:induction false} AttrRoundTrip(d: seq<byte>, p: int, lim: int, strings: seq<JStr>, i: jint, j: jint, rest: seq<byte>)
    requires InTable(strings, i) && InTable(strings, j)
    requires WrittenAt(d, p, lim, EncodeVarint(i) + (EncodeVarint(j) + rest))
    ensures InBuffer(d, p, lim)
    ensures AttrAt(d, p, lim, strings)
         == Ok(Parsed((strings[Int32(i)], strings[Int32(j)]), p + |EncodeVarint(i)| + |EncodeVarint(j)|))
    ensures WrittenAt(d, p + |EncodeVarint(i)| + |EncodeVarint(j)|, lim, rest)
  {
    var q := p + |EncodeVarint(i)|;
    NextVarint(d, p, lim, i, EncodeVarint(j) + rest);
    NextVarint(d, q, lim, j, rest);
    WrittenBounds(d, q + |EncodeVarint(j)|, lim, rest);
    AttrReads(d, p, lim, strings, i, q, j, q + |EncodeVarint(j)|);
  }

  /** One turn of the attribute loop, once the attribute is read. */
  lemma {:induction false} AttrsStep(d: seq<byte>, p: int, lim: int, strings: seq<JStr>, n: int, acc: map<JStr, JStr>,
                  e: (JStr, JStr), q: int)
    requires InBuffer(d, p, lim) && AttrAt(d, p, lim, strings) == Ok(Parsed(e, q)) && 0 < n
    ensures InBuffer(d, q, lim)
    ensures AttrsFrom(d, p, lim, strings, n, acc) == AttrsFrom(d, q, lim, strings, n - 1, acc[e.0 := e.1])
  {
  }

  /** The attribute loop reads back every attribute list: each pair is put in
      turn, so a later pair with the same key replaces an earlier one (what
      PutAllLookup states of PutAll). */
  lemma {:induction false} AttrsRoundTrip(d: seq<byte>, p: int, lim: int, strings: seq<JStr>,
                                          ix: seq<(jint, jint)>, acc: map<JStr, JStr>)
    returns (attrs: map<JStr, JStr>, q: int)
    requires Indexes(strings, ix) && WrittenAt(d, p, lim, EncodeAttrs(ix))
    ensures attrs == PutAll(acc, Pairs(strings, ix)) && q == p + |EncodeAttrs(ix)|
    ensures InBuffer(d, p, lim) && AttrsFrom(d, p, lim, strings, |ix|, acc) == Ok(Parsed(attrs, q))
    decreases |ix|
  {
    if ix == [] {
      WrittenBounds(d, p, lim, []);
      attrs, q := acc, p;
    } else {
      var e, q1 := FirstAttr(d, p, lim, strings, ix);
      AttrsStep(d, p, lim, strings, |ix|, acc, e, q1);
      attrs, q := AttrsRoundTrip(d, q1, lim, strings, ix[1..], acc[e.0 := e.1]);
      PutAllCons(acc, e, Pairs(strings, ix[1..]));
    }
  }

  /** The first attribute of a written list, and the rest of the list after it. */
  lemma {:induction false} FirstAttr(d: seq<byte>, p: int, lim: int, strings: seq<JStr>, ix: seq<(jint, jint)>)
    returns (e: (JStr, JStr), q: int)
    requires ix != [] && Indexes(strings, ix) && WrittenAt(d, p, lim, EncodeAttrs(ix))
    ensures InBuffer(d, p, lim) && AttrAt(d, p, lim, strings) == Ok(Parsed(e, q))
    ensures Indexes(strings, ix[1..]) && WrittenAt(d, q, lim, EncodeAttrs(ix[1..]))
    ensures q + |EncodeAttrs(ix[1..])| == p + |EncodeAttrs(ix)|
    ensures Pairs(strings, ix) == [e] + Pairs(strings, ix[1..])
  {
    var i, j := ix[0].0, ix[0].1;
    AttrRoundTrip(d, p, lim, strings, i, j, EncodeAttrs(ix[1..]));
    e, q := (strings[Int32(i)], strings[Int32(j)]), p + |EncodeVarint(i)| + |EncodeVarint(j)|;
    assert Indexes(strings, ix[1..]) by {
      forall k | 0 <= k < |ix[1..]| ensures InTable(strings, ix[1..][k].0) && InTable(strings, ix[1..][k].1) {
        assert ix[1..][k] == ix[k + 1];
      }
    }
  }

  // ---------------------------------------------------------------------------
  // An element's name and attributes

  /** The head of an element: the index of its name, the attribute count the
      writer puts down, and the attributes. */
  function EncodeHead(name: jint, count: jint, ix: seq<(jint, jint)>): seq<byte> {
    EncodeVarint(name) + (EncodeVarint(count) + EncodeAttrs(ix))
  }

  /** An element's head, once its three parts are read. */
  lemma {:induction false} ElementHeadReads(d: seq<byte>, p: int, lim: int, strings: seq<JStr>, name: jint, q1: int,
                         count: jint, q2: int, n: int, attrs: map<JStr, JStr>, q3: int)
    requires InBuffer(d, p, lim) && Varint(d, p, lim) == Ok(Parsed(name, q1)) && InTable(strings, name)
    requires InBuffer(d, q1, lim) && Varint(d, q1, lim) == Ok(Parsed(count, q2)) && 0 <= n == Int32(count)
    requires InBuffer(d, q2, lim) && AttrsFrom(d, q2, lim, strings, n, map[]) == Ok(Parsed(attrs, q3))
    ensures ElementHead(d, p, lim, strings) == Ok(Parsed((strings[Int32(name)], attrs), q3))
  {
  }

  /** readElement reads back an element's name and its attribute map, built
      by putting the pairs in the order written. */
  lemma {:induction false} ElementHeadRoundTrip(d: seq<byte>, p: int, lim: int, strings: seq<JStr>, name: jint,
                                                count: jint, ix: seq<(jint, jint)>)
    requires InTable(strings, name) && Int32(count) == |ix| && Indexes(strings, ix)
    requires WrittenAt(d, p, lim, EncodeHead(name, count, ix))
    ensures InBuffer(d, p, lim)
    ensures ElementHead(d, p, lim, strings)
         == Ok(Parsed((strings[Int32(name)], PutAll(map[], Pairs(strings, ix))), p + |EncodeHead(name, count, ix)|))
  {
    var q1, q2 := HeadFields(d, p, lim, name, count, ix);
    HeadAttrs(d, p, lim, strings, name, q1, count, q2, ix, p + |EncodeHead(name, count, ix)|);
  }

  /** Past the name and the count, the attributes read back. */
  lemma {:induction false} HeadAttrs(d: seq<byte>, p: int, lim: int, strings: seq<JStr>, name: jint, q1: int,
                                     count: jint, q2: int, ix: seq<(jint, jint)>, q3: int)
    requires InBuffer(d, p, lim) && Varint(d, p, lim) == Ok(Parsed(name, q1)) && InTable(strings, name)
    requires InBuffer(d, q1, lim) && Varint(d, q1, lim) == Ok(Parsed(count, q2)) && Int32(count) == |ix|
    requires Indexes(strings, ix) && WrittenAt(d, q2, lim, EncodeAttrs(ix)) && q3 == q2 + |EncodeAttrs(ix)|
    ensures ElementHead(d, p, lim, strings) == Ok(Parsed((strings[Int32(name)], PutAll(map[], Pairs(strings, ix))), q3))
  {
    var attrs, q := AttrsRoundTrip(d, q2, lim, strings, ix, map[]);
    ElementHeadReads(d, p, lim, strings, name, q1, count, q2, |ix|, attrs, q);
  }

  /** The name index and the count of a written head, and the attributes after them. */
  lemma {:induction false} HeadFields(d: seq<byte>, p: int, lim: int, name: jint, count: jint, ix: seq<(jint, jint)>) returns (q1: int, q2: int)
    requires WrittenAt(d, p, lim, EncodeHead(name, count, ix))
    ensures InBuffer(d, p, lim) && Varint(d, p, lim) == Ok(Parsed(name, q1))
    ensures InBuffer(d, q1, lim) && Varint(d, q1, lim) == Ok(Parsed(count, q2))
    ensures WrittenAt(d, q2, lim, EncodeAttrs(ix))
    ensures q2 + |EncodeAttrs(ix)| == p + |EncodeHead(name, count, ix)|
  {
    q1 := p + |EncodeVarint(name)|;
    q2 := q1 + |EncodeVarint(count)|;
    NextVarint(d, p, lim, name, EncodeVarint(count) + EncodeAttrs(ix));
    NextVarint(d, q1, lim, count, EncodeAttrs(ix));
  }

  /** The element readElement makes of a written head is createElement's
      element for that name and attribute map; what follows is the children. */
  lemma {:induction false} ElementMade(d: seq<byte>, p: int, lim: int, strings: seq<JStr>, name: jint, count: jint,
                    ix: seq<(jint, jint)>)
    requires InTable(strings, name) && Int32(count) == |ix| && Indexes(strings, ix)
    requires WrittenAt(d, p, lim, EncodeHead(name, count, ix))
    ensures var attrs := PutAll(map[], Pairs(strings, ix));
      var q := p + |EncodeHead(name, count, ix)|;
      && InBuffer(d, q, lim)
      && ElementAt(d, p, lim, strings) == ElementFrom(d, q, lim, strings, strings[Int32(name)], attrs)
      && (Create(strings[Int32(name)], attrs).Err? ==> ElementAt(d, p, lim, strings) == Err(Create(strings[Int32(name)], attrs).error))
      && (ElementAt(d, p, lim, strings).Ok? ==> Create(strings[Int32(name)], attrs) == Ok(ElementAt(d, p, lim, strings).value.value.elem))
  {
    ElementHeadRoundTrip(d, p, lim, strings, name, count, ix);
    WrittenBounds(d, p, lim, EncodeHead(name, count, ix));
  }

  /** An element without children reads back as the node createElement makes
      of its name and attributes, with no children. */
  lemma {:induction false} LeafRoundTrip(d: seq<byte>, p: int, lim: int, strings: seq<JStr>, name: jint, count: jint,
                      ix: seq<(jint, jint)>)
    requires InTable(strings, name) && Int32(count) == |ix| && Indexes(strings, ix)
    requires Create(strings[Int32(name)], PutAll(map[], Pairs(strings, ix))).Ok?
    requires WrittenAt(d, p, lim, EncodeHead(name, count, ix) + EncodeVarint(0))
    ensures InBuffer(d, p, lim)
    ensures ElementAt(d, p, lim, strings)
         == Ok(Parsed(Node(Create(strings[Int32(name)], PutAll(map[], Pairs(strings, ix))).value, []),
                      p + |EncodeHead(name, count, ix)| + |EncodeVarint(0)|))
  {
    var q := p + |EncodeHead(name, count, ix)|;
    WrittenSplit(d, p, lim, EncodeHead(name, count, ix), EncodeVarint(0));
    ElementMade(d, p, lim, strings, name, count, ix);
    LastVarint(d, q, lim, 0);
    LeafBody(d, q, lim, strings, Create(strings[Int32(name)], PutAll(map[], Pairs(strings, ix))).value);
  }

  /** An element body with no children. */
  lemma {:induction false} LeafBody(d: seq<byte>, p: int, lim: int, strings: seq<JStr>, e: Elem)
    requires InBuffer(d, p, lim) && Varint(d, p, lim) == Ok(Parsed(0, p + |EncodeVarint(0)|))
    ensures ElementBody(d, p, lim, strings, e) == Ok(Parsed(Node(e, []), p + |EncodeVarint(0)|))
  {
  }

  // ---------------------------------------------------------------------------
  // The string table

  predicate AllEncodable(fs: seq<StringForm>) {
    forall i :: 0 <= i < |fs| ==> Encodable(fs[i])
  }

  /** The table's strings, one after the other. */
  function EncodeStrings(fs: seq<StringForm>): seq<byte>
    requires AllEncodable(fs)
    decreases |fs|
  {
    if fs == [] then [] else EncodeString(fs[0]) + EncodeStrings(fs[1..])
  }

  /** The strings getString makes of the forms. */
  function DecodedAll(fs: seq<StringForm>, utf8: seq<byte> -> seq<bv16>): (u: seq<JStr>)
    ensures |u| == |fs|
    decreases |fs|
  {
    if fs == [] then [] else [Decoded(fs[0], utf8)] + DecodedAll(fs[1..], utf8)
  }

  /** readMeta's string loop reads back every table, in order. */
  lemma {:induction false} StringsRoundTrip(d: seq<byte>, p: int, lim: int, utf8: seq<byte> -> seq<bv16>,
                                            fs: seq<StringForm>, acc: seq<JStr>)
    requires AllEncodable(fs) && WrittenAt(d, p, lim, EncodeStrings(fs))
    ensures InBuffer(d, p, lim)
    ensures StringsFrom(d, p, lim, utf8, |fs|, acc) == Ok(Parsed(acc + DecodedAll(fs, utf8), p + |EncodeStrings(fs)|))
    decreases |fs|
  {
    if fs == [] {
      assert acc + DecodedAll(fs, utf8) == acc;
      WrittenBounds(d, p, lim, []);
    } else {
      var s, q := FirstString(d, p, lim, utf8, fs);
      StringsStep(d, p, lim, utf8, |fs|, acc, s, q);
      StringsRoundTrip(d, q, lim, utf8, fs[1..], acc + [s]);
      assert acc + [s] + DecodedAll(fs[1..], utf8) == acc + DecodedAll(fs, utf8);
    }
  }

  /** The first string of a written table, and the rest of the table after it. */
  lemma {:induction false} FirstString(d: seq<byte>, p: int, lim: int, utf8: seq<byte> -> seq<bv16>, fs: seq<StringForm>)
    returns (s: JStr, q: int)
    requires fs != [] && AllEncodable(fs) && WrittenAt(d, p, lim, EncodeStrings(fs))
    ensures InBuffer(d, p, lim) && GetString(d, p, lim, utf8) == Ok(Parsed(s, q))
    ensures AllEncodable(fs[1..]) && WrittenAt(d, q, lim, EncodeStrings(fs[1..]))
    ensures q + |EncodeStrings(fs[1..])| == p + |EncodeStrings(fs)|
    ensures DecodedAll(fs, utf8) == [s] + DecodedAll(fs[1..], utf8)
  {
    s := Decoded(fs[0], utf8);
    q := p + |EncodeString(fs[0])|;
    StringsCons(fs, utf8);
    NextString(d, p, lim, fs[0], utf8, EncodeStrings(fs[1..]));
  }

  /** A table is its first string followed by the rest of the table. */
  lemma {:induction false} StringsCons(fs: seq<StringForm>, utf8: seq<byte> -> seq<bv16>)
    requires fs != [] && AllEncodable(fs)
    ensures Encodable(fs[0]) && AllEncodable(fs[1..])
    ensures EncodeStrings(fs) == EncodeString(fs[0]) + EncodeStrings(fs[1..])
    ensures DecodedAll(fs, utf8) == [Decoded(fs[0], utf8)] + DecodedAll(fs[1..], utf8)
  {
    assert AllEncodable(fs[1..]) by {
      forall i | 0 <= i < |fs[1..]| ensures Encodable(fs[1..][i]) {
        assert fs[1..][i] == fs[i + 1];
      }
    }
  }

  /** One turn of the string loop, once the string is read. */
  lemma {:induction false} StringsStep(d: seq<byte>, p: int, lim: int, utf8: seq<byte> -> seq<bv16>, n: nat, acc: seq<JStr>,
                    s: JStr, q: int)
    requires InBuffer(d, p, lim) && GetString(d, p, lim, utf8) == Ok(Parsed(s, q)) && 0 < n
    ensures InBuffer(d, q, lim)
    ensures StringsFrom(d, p, lim, utf8, n, acc) == StringsFrom(d, q, lim, utf8, n - 1, acc + [s])
  {
  }

  // ---------------------------------------------------------------------------
  // The metadata record

  /** The five numbers a metadata record starts with. */
  datatype MetaRecord = MetaRecord(size: jint, kind: jint, start: jlong, duration: jlong, metadataId: jlong)

  function EncodeMetaHeader(h: MetaRecord): (e: seq<byte>)
    ensures 5 <= |e|
  {
    EncodeVarint(h.size) + (EncodeVarint(h.kind) + (EncodeVarlong(h.start)
      + (EncodeVarlong(h.duration) + EncodeVarlong(h.metadataId))))
  }

  /** readMeta's header, once its five numbers are read. */
  lemma {:induction false} MetaHeaderReads(d: seq<byte>, p: int, lim: int, h: MetaRecord, p1: int, p2: int, p3: int, p4: int, p5: int)
    requires InBuffer(d, p, lim) && Varint(d, p, lim) == Ok(Parsed(h.size, p1))
    requires InBuffer(d, p1, lim) && Varint(d, p1, lim) == Ok(Parsed(h.kind, p2))
    requires InBuffer(d, p2, lim) && Varlong(d, p2, lim) == Ok(Parsed(h.start, p3))
    requires InBuffer(d, p3, lim) && Varlong(d, p3, lim) == Ok(Parsed(h.duration, p4))
    requires InBuffer(d, p4, lim) && Varlong(d, p4, lim) == Ok(Parsed(h.metadataId, p5))
    ensures MetaHeader(d, p, lim) == Ok(Parsed(h.metadataId, p5))
  {
  }

  /** readMeta consumes the record's two varints and three varlongs, and no
      more. */
  lemma {:induction false} MetaHeaderRoundTrip(d: seq<byte>, p: int, lim: int, h: MetaRecord)
    requires WrittenAt(d, p, lim, EncodeMetaHeader(h))
    ensures InBuffer(d, p, lim)
    ensures MetaHeader(d, p, lim) == Ok(Parsed(h.metadataId, p + |EncodeMetaHeader(h)|))
  {
    var p1, p2, p3, p4, p5 := MetaHeaderFields(d, p, lim, h);
    MetaHeaderReads(d, p, lim, h, p1, p2, p3, p4, p5);
  }

  /** The five numbers of a written header, one after the other. */
  lemma {:induction false} MetaHeaderFields(d: seq<byte>, p: int, lim: int, h: MetaRecord) returns (p1: int, p2: int, p3: int, p4: int, p5: int)
    requires WrittenAt(d, p, lim, EncodeMetaHeader(h))
    ensures InBuffer(d, p, lim) && Varint(d, p, lim) == Ok(Parsed(h.size, p1))
    ensures InBuffer(d, p1, lim) && Varint(d, p1, lim) == Ok(Parsed(h.kind, p2))
    ensures InBuffer(d, p2, lim) && Varlong(d, p2, lim) == Ok(Parsed(h.start, p3))
    ensures InBuffer(d, p3, lim) && Varlong(d, p3, lim) == Ok(Parsed(h.duration, p4))
    ensures InBuffer(d, p4, lim) && Varlong(d, p4, lim) == Ok(Parsed(h.metadataId, p5))
    ensures p5 == p + |EncodeMetaHeader(h)|
  {
    var c0, c1 := EncodeVarint(h.size), EncodeVarint(h.kind);
    var tail := EncodeVarlong(h.start) + (EncodeVarlong(h.duration) + EncodeVarlong(h.metadataId));
    p1 := p + |c0|;
    p2 := p1 + |c1|;
    NextVarint(d, p, lim, h.size, c1 + tail);
    NextVarint(d, p1, lim, h.kind, tail);
    p3, p4, p5 := HeaderTimes(d, p2, lim, h);
  }

  /** The start, the duration and the id: the three varlongs that end a header. */
  lemma {:induction false} HeaderTimes(d: seq<byte>, p: int, lim: int, h: MetaRecord) returns (p3: int, p4: int, p5: int)
    requires WrittenAt(d, p, lim, EncodeVarlong(h.start) + (EncodeVarlong(h.duration) + EncodeVarlong(h.metadataId)))
    ensures InBuffer(d, p, lim) && Varlong(d, p, lim) == Ok(Parsed(h.start, p3))
    ensures InBuffer(d, p3, lim) && Varlong(d, p3, lim) == Ok(Parsed(h.duration, p4))
    ensures InBuffer(d, p4, lim) && Varlong(d, p4, lim) == Ok(Parsed(h.metadataId, p5))
    ensures p5 == p + |EncodeVarlong(h.start) + (EncodeVarlong(h.duration) + EncodeVarlong(h.metadataId))|
  {
    p3 := p + |EncodeVarlong(h.start)|;
    p4 := p3 + |EncodeVarlong(h.duration)|;
    p5 := p4 + |EncodeVarlong(h.metadataId)|;
    NextVarlong(d, p, lim, h.start, EncodeVarlong(h.duration) + EncodeVarlong(h.metadataId));
    NextVarlong(d, p3, lim, h.duration, EncodeVarlong(h.metadataId));
    LastVarlong(d, p4, lim, h.metadataId);
  }

  /** What readMeta returns once its string table is read: the root
      element's failure, or the table paired with the root element. */
  function Rooted(strings: seq<JStr>, root: Result<Parsed<Node>>): Result<Parsed<(seq<JStr>, Node)>> {
    match root
    case Err(e) => Err(e)
    case Ok(x) => Ok(Parsed((strings, x.value), x.next))
  }

  /** readMeta reads back the string table that was written, and then the
      root element against that table. */
  lemma {:induction false} MetaRoundTrip(d: seq<byte>, p: int, lim: int, utf8: seq<byte> -> seq<bv16>, h: MetaRecord,
                                         n: jint, fs: seq<StringForm>, rest: seq<byte>)
    returns (strings: seq<JStr>, q: int)
    requires AllEncodable(fs) && Int32(n) == |fs|
    requires WrittenAt(d, p, lim, EncodeMetaHeader(h) + (EncodeVarint(n) + (EncodeStrings(fs) + rest)))
    ensures strings == DecodedAll(fs, utf8) && q == p + |EncodeMetaHeader(h)| + |EncodeVarint(n)| + |EncodeStrings(fs)|
    ensures InBuffer(d, p, lim) && InBuffer(d, q, lim)
    ensures MetaAt(d, p, lim, utf8) == Rooted(strings, ElementAt(d, q, lim, strings))
  {
    var p1, q1;
    strings := DecodedAll(fs, utf8);
    p1, q1, q := MetaFields(d, p, lim, utf8, h, n, fs, rest);
    MetaReads(d, p, lim, utf8, p1, n, q1, strings, q);
  }

  /** The header, the table size and the strings of a written table, one
      after the other. */
  lemma {:induction false} MetaFields(d: seq<byte>, p: int, lim: int, utf8: seq<byte> -> seq<bv16>, h: MetaRecord,
                                      n: jint, fs: seq<StringForm>, rest: seq<byte>) returns (p1: int, q1: int, s: int)
    requires AllEncodable(fs) && Int32(n) == |fs|
    requires WrittenAt(d, p, lim, EncodeMetaHeader(h) + (EncodeVarint(n) + (EncodeStrings(fs) + rest)))
    ensures InBuffer(d, p, lim) && MetaHeader(d, p, lim) == Ok(Parsed(h.metadataId, p1))
    ensures InBuffer(d, p1, lim) && Varint(d, p1, lim) == Ok(Parsed(n, q1)) && 0 <= Int32(n)
    ensures InBuffer(d, q1, lim) && StringsFrom(d, q1, lim, utf8, Int32(n), []) == Ok(Parsed(DecodedAll(fs, utf8), s))
    ensures s == p + |EncodeMetaHeader(h)| + |EncodeVarint(n)| + |EncodeStrings(fs)|
  {
    p1 := HeaderThen(d, p, lim, h, EncodeVarint(n) + (EncodeStrings(fs) + rest));
    q1, s := TableThen(d, p1, lim, utf8, n, fs, rest);
  }

  /** A written header reads back, and what follows it stands right after it. */
  lemma {:induction false} HeaderThen(d: seq<byte>, p: int, lim: int, h: MetaRecord, rest: seq<byte>) returns (p1: int)
    requires WrittenAt(d, p, lim, EncodeMetaHeader(h) + rest)
    ensures InBuffer(d, p, lim) && MetaHeader(d, p, lim) == Ok(Parsed(h.metadataId, p1))
    ensures WrittenAt(d, p1, lim, rest) && p1 == p + |EncodeMetaHeader(h)|
  {
    p1 := p + |EncodeMetaHeader(h)|;
    WrittenSplit(d, p, lim, EncodeMetaHeader(h), rest);
    MetaHeaderRoundTrip(d, p, lim, h);
  }

  /** A written table size and its strings read back. */
  lemma {:induction false} TableThen(d: seq<byte>, p: int, lim: int, utf8: seq<byte> -> seq<bv16>, n: jint,
                                     fs: seq<StringForm>, rest: seq<byte>) returns (q: int, s: int)
    requires AllEncodable(fs) && Int32(n) == |fs|
    requires WrittenAt(d, p, lim, EncodeVarint(n) + (EncodeStrings(fs) + rest))
    ensures InBuffer(d, p, lim) && Varint(d, p, lim) == Ok(Parsed(n, q)) && 0 <= Int32(n)
    ensures InBuffer(d, q, lim) && StringsFrom(d, q, lim, utf8, Int32(n), []) == Ok(Parsed(DecodedAll(fs, utf8), s))
    ensures s == p + |EncodeVarint(n)| + |EncodeStrings(fs)|
  {
    q := p + |EncodeVarint(n)|;
    NextVarint(d, p, lim, n, EncodeStrings(fs) + rest);
    s := TableStrings(d, q, lim, utf8, fs, rest);
  }

  /** The strings of a written table read back, from its first string on. */
  lemma {:induction false} TableStrings(d: seq<byte>, q: int, lim: int, utf8: seq<byte> -> seq<bv16>,
                                        fs: seq<StringForm>, rest: seq<byte>) returns (s: int)
    requires AllEncodable(fs) && WrittenAt(d, q, lim, EncodeStrings(fs) + rest)
    ensures InBuffer(d, q, lim) && StringsFrom(d, q, lim, utf8, |fs|, []) == Ok(Parsed(DecodedAll(fs, utf8), s))
    ensures s == q + |EncodeStrings(fs)|
  {
    s := q + |EncodeStrings(fs)|;
    WrittenSplit(d, q, lim, EncodeStrings(fs), rest);
    StringsRoundTrip(d, q, lim, utf8, fs, []);
    assert [] + DecodedAll(fs, utf8) == DecodedAll(fs, utf8);
  }

  /** Header, table size and strings read: the root element decides. */
  lemma {:induction false} MetaReads(d: seq<byte>, p: int, lim: int, utf8: seq<byte> -> seq<bv16>, p1: int, n: jint,
                                     q1: int, strings: seq<JStr>, s: int)
    requires InBuffer(d, p, lim) && MetaHeader(d, p, lim).Ok? && MetaHeader(d, p, lim).value.next == p1
    requires InBuffer(d, p1, lim) && Varint(d, p1, lim) == Ok(Parsed(n, q1)) && 0 <= Int32(n)
    requires InBuffer(d, q1, lim) && StringsFrom(d, q1, lim, utf8, Int32(n), []) == Ok(Parsed(strings, s))
    ensures InBuffer(d, s, lim) && MetaAt(d, p, lim, utf8) == Rooted(strings, ElementAt(d, s, lim, strings))
  {
    MetaAtBody(d, p, lim, utf8, p1);
  }

  /** readMeta is its body once the header is read. */
  lemma {:induction false} MetaAtBody(d: seq<byte>, p: int, lim: int, utf8: seq<byte> -> seq<bv16>, q: int)
    requires InBuffer(d, p, lim) && MetaHeader(d, p, lim).Ok? && MetaHeader(d, p, lim).value.next == q
    ensures InBuffer(d, q, lim) && MetaAt(d, p, lim, utf8) == MetaBody(d, q, lim, utf8)
  {
  }

  /** A negative table size after the header: `new String[n]` raises
      NegativeArraySize before anything else is read. */
  lemma {:induction false} MetaRejects(d: seq<byte>, p: int, lim: int, utf8: seq<byte> -> seq<bv16>, h: MetaRecord, n: jint)
    requires Int32(n) < 0 && WrittenAt(d, p, lim, EncodeMetaHeader(h) + EncodeVarint(n))
    ensures InBuffer(d, p, lim)
    ensures MetaAt(d, p, lim, utf8) == Err(NegativeArraySize)
  {
    var p1 := HeaderThen(d, p, lim, h, EncodeVarint(n));
    LastVarint(d, p1, lim, n);
    MetaAtBody(d, p, lim, utf8, p1);
  }
}
