/** The writer's side of JfrReader's byte arrays, strings and big-endian
    numbers, and the round trips that tie each decoder to its encoder. */
module Codec {
  import opened Wire
  import opened Varints

  /** An encoding made of two parts: each part stands where it belongs. */
  lemma {:induction false} WrittenSplit(d: seq<byte>, p: int, lim: int, a: seq<byte>, b: seq<byte>)
    requires Written(d, p, lim, a + b)
    ensures Written(d, p, lim, a) && Written(d, p + |a|, lim, b)
    decreases |a|
  {
    if a == [] {
      assert a + b == b;
      WrittenBounds(d, p, lim, b);
    } else {
      assert (a + b)[1..] == a[1..] + b;
      WrittenSplit(d, p + 1, lim, a[1..], b);
    }
  }

  /** Bytes that stand at `p` are the slice of the buffer there. */
  lemma {:induction false} WrittenSlice(d: seq<byte>, p: int, lim: int, e: seq<byte>)
    requires Written(d, p, lim, e)
    ensures 0 <= p && p + |e| <= lim <= |d| && d[p .. p + |e|] == e
    decreases |e|
  {
    if e != [] {
      WrittenSlice(d, p + 1, lim, e[1..]);
      assert d[p .. p + |e|] == [d[p]] + d[p + 1 .. p + 1 + |e[1..]|];
      assert e == [e[0]] + e[1..];
    } else {
      assert d[p .. p] == [];
    }
  }

  /** Byte `i` of bytes that stand at `p` is the buffer's byte `p + i`. */
  lemma {:induction false} WrittenIndex(d: seq<byte>, p: int, lim: int, e: seq<byte>, i: int)
    requires Written(d, p, lim, e) && 0 <= i < |e|
    ensures 0 <= p + i < lim <= |d| && d[p + i] == e[i]
    decreases i
  {
    if i == 0 {
      WrittenHead(d, p, lim, e);
      WrittenBounds(d, p, lim, e);
    } else {
      assert e == [e[0]] + e[1..];
      WrittenCons(d, p, lim, e[0], e[1..]);
      WrittenIndex(d, p + 1, lim, e[1..], i - 1);
    }
  }

  // ---------------------------------------------------------------------------
  // Byte arrays

  /** A byte array as getBytes expects it: the bits `n` of its length as a
      varint, then the bytes. */
  function EncodeBytes(n: jint, b: seq<byte>): (e: seq<byte>)
    requires Int32(n) == |b|
    ensures |b| + 1 <= |e| <= |b| + 5
  {
    EncodeVarint(n) + b
  }

  /** getBytes, once its length varint has been read: that many bytes follow. */
  lemma GetBytesAfterLength(d: seq<byte>, p: int, lim: int, n: jint, q: int, b: seq<byte>)
    requires InBuffer(d, p, lim) && Varint(d, p, lim) == Ok(Parsed(n, q))
    requires Int32(n) == |b| && Written(d, q, lim, b)
    ensures GetBytes(d, p, lim) == Ok(Parsed(b, q + |b|))
  {
    WrittenSlice(d, q, lim, b);
    var len := Int32(n);
    assert q <= lim && len == |b|;
    assert d[q .. q + len] == b;
  }

  /** getBytes reads back every byte array, and stops right after it. */
  lemma GetBytesRoundTrip(d: seq<byte>, p: int, lim: int, n: jint, b: seq<byte>)
    requires Int32(n) == |b| && Written(d, p, lim, EncodeBytes(n, b))
    ensures GetBytes(d, p, lim) == Ok(Parsed(b, p + |EncodeBytes(n, b)|))
  {
    var c := EncodeVarint(n);
    WrittenSplit(d, p, lim, c, b);
    VarintRoundTrip(d, p, lim, n);
    GetBytesAfterLength(d, p, lim, n, p + |c|, b);
  }

  // ---------------------------------------------------------------------------
  // Strings

  /** The five ways a writer can put down a string: its tag and what follows.
      The forms with a length carry the bits `n` the writer puts down for it. */
  datatype StringForm =
    | NullForm                                // tag 0
    | EmptyForm                               // tag 1
    | Utf8Form(n: jint, bytes: seq<byte>)     // tag 3, a byte array
    | CharsForm(n: jint, units: seq<bv16>)    // tag 4, a count and one varint per char
    | Latin1Form(n: jint, bytes: seq<byte>)   // tag 5, a byte array

  /** The length a form puts down is its true length. */
  predicate Encodable(f: StringForm) {
    match f
    case Utf8Form(n, b) => Int32(n) == |b|
    case CharsForm(n, u) => Int32(n) == |u|
    case Latin1Form(n, b) => Int32(n) == |b|
    case _ => true
  }

  /** One varint per code unit, each holding the unit's 16 bits. */
  function EncodeChars(u: seq<bv16>): (e: seq<byte>)
    ensures |u| <= |e| <= 3 * |u|
  {
    if u == [] then []
    else
      var c := EncodeVarint(u[0] as jint);
      assert |c| <= 3 by { ShortVarint(u[0] as jint); }
      c + EncodeChars(u[1..])
  }

  /** A value below 2^16 takes at most three varint bytes. */
  lemma ShortVarint(v: jint)
    requires v < 0x1_0000
    ensures |EncodeVarint(v)| <= 3
  {
    assert Rest32(v, 14) < 0x80;
    assert |EncodeVarintFrom(v, 14)| == 1;
    assert |EncodeVarintFrom(v, 7)| <= 2;
  }

  function EncodeString(f: StringForm): (e: seq<byte>)
    requires Encodable(f)
    ensures |e| >= 1
  {
    match f
    case NullForm => [0]
    case EmptyForm => [1]
    case Utf8Form(n, b) => [3] + EncodeBytes(n, b)
    case CharsForm(n, u) => [4] + (EncodeVarint(n) + EncodeChars(u))
    case Latin1Form(n, b) => [5] + EncodeBytes(n, b)
  }

  /** The Java String a form stands for, with `utf8` the library's decoder. */
  function Decoded(f: StringForm, utf8: seq<byte> -> seq<bv16>): JStr {
    match f
    case NullForm => Null
    case EmptyForm => Str([])
    case Utf8Form(_, b) => Str(utf8(b))
    case CharsForm(_, u) => Str(u)
    case Latin1Form(_, b) => Str(Latin1(b))
  }

  /** ISO-8859-1 decoding gives each byte's own value as a code unit. */
  lemma {:induction false} Latin1Units(b: seq<byte>, i: int)
    requires 0 <= i < |b|
    ensures Latin1(b)[i] == b[i] as bv16
  {
    if i > 0 { Latin1Units(b[1..], i - 1); }
  }

  /** The low 16 bits of a char's varint are the char itself. */
  lemma CharBits(c: bv16)
    ensures ((c as jint) & 0xffff) as bv16 == c
  {
  }

  /** A varint holding a char reads back as that char. */
  lemma GetCharOf(d: seq<byte>, p: int, lim: int, c: bv16, q: int)
    requires InBuffer(d, p, lim) && Varint(d, p, lim) == Ok(Parsed(c as jint, q))
    ensures GetChar(d, p, lim) == Ok(Parsed(c, q))
  {
    CharBits(c);
  }

  /** One turn of tag 4's loop. */
  lemma CharsStep(d: seq<byte>, p: int, lim: int, n: nat, acc: seq<bv16>, c: bv16, q: int)
    requires InBuffer(d, p, lim) && n > 0 && GetChar(d, p, lim) == Ok(Parsed(c, q))
    ensures p <= q <= lim
    ensures CharsFrom(d, p, lim, n, acc) == CharsFrom(d, q, lim, n - 1, acc + [c])
  {
  }

  /** The first char of an encoding reads back, and the rest follows it. */
  lemma FirstChar(d: seq<byte>, p: int, lim: int, u: seq<bv16>, acc: seq<bv16>) returns (q: int)
    requires u != [] && Written(d, p, lim, EncodeChars(u))
    ensures InBuffer(d, p, lim) && p < q <= lim
    ensures CharsFrom(d, p, lim, |u|, acc) == CharsFrom(d, q, lim, |u| - 1, acc + [u[0]])
    ensures Written(d, q, lim, EncodeChars(u[1..]))
    ensures q + |EncodeChars(u[1..])| == p + |EncodeChars(u)|
  {
    var c := EncodeVarint(u[0] as jint);
    q := p + |c|;
    WrittenSplit(d, p, lim, c, EncodeChars(u[1..]));
    VarintRoundTrip(d, p, lim, u[0] as jint);
    WrittenBounds(d, q, lim, EncodeChars(u[1..]));
    GetCharOf(d, p, lim, u[0], q);
    CharsStep(d, p, lim, |u|, acc, u[0], q);
  }

  /** Tag 4's loop reads back every code unit and stops after the last one. */
  lemma {:induction false} CharsRoundTrip(d: seq<byte>, p: int, lim: int, u: seq<bv16>, acc: seq<bv16>)
    requires Written(d, p, lim, EncodeChars(u))
    ensures CharsFrom(d, p, lim, |u|, acc) == Ok(Parsed(acc + u, p + |EncodeChars(u)|))
    decreases |u|
  {
    if u != [] {
      var q := FirstChar(d, p, lim, u, acc);
      CharsRoundTrip(d, q, lim, u[1..], acc + [u[0]]);
      assert acc + [u[0]] + u[1..] == acc + u;
    } else {
      assert acc + u == acc;
    }
  }

  /** A tag byte, then what follows it. */
  lemma ReadTag(d: seq<byte>, p: int, lim: int, tag: byte, rest: seq<byte>)
    requires Written(d, p, lim, [tag] + rest)
    ensures Get(d, p, lim) == Ok(Parsed(tag, p + 1)) && Written(d, p + 1, lim, rest)
  {
    WrittenCons(d, p, lim, tag, rest);
    WrittenBounds(d, p, lim, [tag] + rest);
  }

  /** getString's tag 4, once its count has been read. */
  lemma GetCharsAfterCount(d: seq<byte>, p: int, lim: int, n: jint, q: int)
    requires InBuffer(d, p, lim) && Varint(d, p, lim) == Ok(Parsed(n, q)) && Int32(n) >= 0
    ensures p <= q <= lim && GetChars(d, p, lim) == CharsFrom(d, q, lim, Int32(n), [])
  {
  }

  /** Tag 4's count and chars read back. */
  lemma GetCharsRoundTrip(d: seq<byte>, p: int, lim: int, n: jint, u: seq<bv16>)
    requires Int32(n) == |u| && Written(d, p, lim, EncodeVarint(n) + EncodeChars(u))
    ensures GetChars(d, p, lim) == Ok(Parsed(u, p + |EncodeVarint(n)| + |EncodeChars(u)|))
  {
    var c := EncodeVarint(n);
    WrittenSplit(d, p, lim, c, EncodeChars(u));
    VarintRoundTrip(d, p, lim, n);
    GetCharsAfterCount(d, p, lim, n, p + |c|);
    CharsRoundTrip(d, p + |c|, lim, u, []);
    assert [] + u == u;
  }

  /** getString with tag 3 is getBytes decoded as UTF-8. */
  lemma GetStringTag3(d: seq<byte>, p: int, lim: int, utf8: seq<byte> -> seq<bv16>, b: seq<byte>, q: int)
    requires InBuffer(d, p, lim) && Get(d, p, lim) == Ok(Parsed(3, p + 1))
    requires GetBytes(d, p + 1, lim) == Ok(Parsed(b, q))
    ensures GetString(d, p, lim, utf8) == Ok(Parsed(Str(utf8(b)), q))
  {
  }

  /** getString with tag 4 is the count and chars of GetChars. */
  lemma GetStringTag4(d: seq<byte>, p: int, lim: int, utf8: seq<byte> -> seq<bv16>, u: seq<bv16>, q: int)
    requires InBuffer(d, p, lim) && Get(d, p, lim) == Ok(Parsed(4, p + 1))
    requires GetChars(d, p + 1, lim) == Ok(Parsed(u, q))
    ensures GetString(d, p, lim, utf8) == Ok(Parsed(Str(u), q))
  {
  }

  /** getString with tag 5 is getBytes decoded as ISO-8859-1. */
  lemma GetStringTag5(d: seq<byte>, p: int, lim: int, utf8: seq<byte> -> seq<bv16>, b: seq<byte>, q: int)
    requires InBuffer(d, p, lim) && Get(d, p, lim) == Ok(Parsed(5, p + 1))
    requires GetBytes(d, p + 1, lim) == Ok(Parsed(b, q))
    ensures GetString(d, p, lim, utf8) == Ok(Parsed(Str(Latin1(b)), q))
  {
  }

  /** The round trip of a null or empty string: the tag alone. */
  lemma GetShortRoundTrip(d: seq<byte>, p: int, lim: int, f: StringForm, utf8: seq<byte> -> seq<bv16>)
    requires (f.NullForm? || f.EmptyForm?) && Written(d, p, lim, EncodeString(f))
    ensures GetString(d, p, lim, utf8) == Ok(Parsed(Decoded(f, utf8), p + |EncodeString(f)|))
  {
    var tag: byte := if f.NullForm? then 0 else 1;
    assert EncodeString(f) == [tag] + [];
    ReadTag(d, p, lim, tag, []);
    GetStringTags(d, p, lim, utf8);
  }

  /** The round trip of a tag-3 string, whose encoding is `e`. */
  lemma Utf8StringRoundTrip(d: seq<byte>, p: int, lim: int, n: jint, b: seq<byte>, e: seq<byte>,
                            utf8: seq<byte> -> seq<bv16>)
    requires Int32(n) == |b| && e == [3] + EncodeBytes(n, b) && Written(d, p, lim, e)
    ensures GetString(d, p, lim, utf8) == Ok(Parsed(Str(utf8(b)), p + |e|))
  {
    ReadTag(d, p, lim, 3, EncodeBytes(n, b));
    GetBytesRoundTrip(d, p + 1, lim, n, b);
    GetStringTag3(d, p, lim, utf8, b, p + 1 + |EncodeBytes(n, b)|);
  }

  /** The round trip of a tag-5 string, whose encoding is `e`. */
  lemma Latin1StringRoundTrip(d: seq<byte>, p: int, lim: int, n: jint, b: seq<byte>, e: seq<byte>,
                              utf8: seq<byte> -> seq<bv16>)
    requires Int32(n) == |b| && e == [5] + EncodeBytes(n, b) && Written(d, p, lim, e)
    ensures GetString(d, p, lim, utf8) == Ok(Parsed(Str(Latin1(b)), p + |e|))
  {
    ReadTag(d, p, lim, 5, EncodeBytes(n, b));
    GetBytesRoundTrip(d, p + 1, lim, n, b);
    GetStringTag5(d, p, lim, utf8, b, p + 1 + |EncodeBytes(n, b)|);
  }

  /** The round trip of a tag-4 string, whose encoding is `e`. */
  lemma CharsStringRoundTrip(d: seq<byte>, p: int, lim: int, n: jint, u: seq<bv16>, e: seq<byte>,
                             utf8: seq<byte> -> seq<bv16>)
    requires Int32(n) == |u| && e == [4] + (EncodeVarint(n) + EncodeChars(u)) && Written(d, p, lim, e)
    ensures GetString(d, p, lim, utf8) == Ok(Parsed(Str(u), p + |e|))
  {
    var body := EncodeVarint(n) + EncodeChars(u);
    ReadTag(d, p, lim, 4, body);
    GetCharsRoundTrip(d, p + 1, lim, n, u);
    GetStringTag4(d, p, lim, utf8, u, p + 1 + |body|);
  }

  /** getString reads back every string form and stops right after it. */
  lemma GetStringRoundTrip(d: seq<byte>, p: int, lim: int, f: StringForm, utf8: seq<byte> -> seq<bv16>)
    requires Encodable(f) && Written(d, p, lim, EncodeString(f))
    ensures GetString(d, p, lim, utf8) == Ok(Parsed(Decoded(f, utf8), p + |EncodeString(f)|))
  {
    if f.NullForm? || f.EmptyForm? {
      GetShortRoundTrip(d, p, lim, f, utf8);
    } else if f.Utf8Form? {
      GetUtf8RoundTrip(d, p, lim, f, utf8);
    } else if f.Latin1Form? {
      GetLatin1RoundTrip(d, p, lim, f, utf8);
    } else {
      GetCharsFormRoundTrip(d, p, lim, f, utf8);
    }
  }

  /** The round trip of a tag-3 form. */
  lemma GetUtf8RoundTrip(d: seq<byte>, p: int, lim: int, f: StringForm, utf8: seq<byte> -> seq<bv16>)
    requires f.Utf8Form? && Encodable(f) && WrittenAt(d, p, lim, EncodeString(f))
    ensures GetString(d, p, lim, utf8) == Ok(Parsed(Decoded(f, utf8), p + |EncodeString(f)|))
  {
    Utf8StringRoundTrip(d, p, lim, f.n, f.bytes, EncodeString(f), utf8);
  }

  /** The round trip of a tag-5 form. */
  lemma GetLatin1RoundTrip(d: seq<byte>, p: int, lim: int, f: StringForm, utf8: seq<byte> -> seq<bv16>)
    requires f.Latin1Form? && Encodable(f) && WrittenAt(d, p, lim, EncodeString(f))
    ensures GetString(d, p, lim, utf8) == Ok(Parsed(Decoded(f, utf8), p + |EncodeString(f)|))
  {
    Latin1StringRoundTrip(d, p, lim, f.n, f.bytes, EncodeString(f), utf8);
  }

  /** The round trip of a tag-4 form. */
  lemma GetCharsFormRoundTrip(d: seq<byte>, p: int, lim: int, f: StringForm, utf8: seq<byte> -> seq<bv16>)
    requires f.CharsForm? && Encodable(f) && WrittenAt(d, p, lim, EncodeString(f))
    ensures GetString(d, p, lim, utf8) == Ok(Parsed(Decoded(f, utf8), p + |EncodeString(f)|))
  {
    CharsStringRoundTrip(d, p, lim, f.n, f.units, EncodeString(f), utf8);
  }

  /** The tag alone decides the short cases: 0 is null and 1 the empty string,
      each taking the tag byte only, and a tag outside 0, 1, 3, 4, 5 is
      rejected. */
  lemma GetStringTags(d: seq<byte>, p: int, lim: int, utf8: seq<byte> -> seq<bv16>)
    requires InBuffer(d, p, lim)
    ensures var r := GetString(d, p, lim, utf8);
      && (p == lim ==> r == Err(BufferUnderflow))
      && (p < lim && d[p] == 0 ==> r == Ok(Parsed(Null, p + 1)))
      && (p < lim && d[p] == 1 ==> r == Ok(Parsed(Str([]), p + 1)))
      && (p < lim && d[p] !in {0, 1, 3, 4, 5} ==> r == Err(InvalidStringEncoding))
  {
  }

  // ---------------------------------------------------------------------------
  // Big-endian numbers of the chunk header

  /** Byte `k` of `x`, counting from the least significant. */
  function ByteOf32(x: jint, k: int): byte
    requires 0 <= k < 4
  {
    if k == 0 then (x & 0xff) as byte
    else if k == 1 then ((x >> 8) & 0xff) as byte
    else if k == 2 then ((x >> 16) & 0xff) as byte
    else ((x >> 24) & 0xff) as byte
  }

  function ByteOf64(x: jlong, k: int): byte
    requires 0 <= k < 8
  {
    if k == 0 then (x & 0xff) as byte
    else if k == 1 then ((x >> 8) & 0xff) as byte
    else if k == 2 then ((x >> 16) & 0xff) as byte
    else if k == 3 then ((x >> 24) & 0xff) as byte
    else if k == 4 then ((x >> 32) & 0xff) as byte
    else if k == 5 then ((x >> 40) & 0xff) as byte
    else if k == 6 then ((x >> 48) & 0xff) as byte
    else ((x >> 56) & 0xff) as byte
  }

  /** A Java int as ByteBuffer.putInt writes it, most significant byte first. */
  function EncodeInt(x: jint): (e: seq<byte>)
    ensures |e| == 4
  {
    [ByteOf32(x, 3), ByteOf32(x, 2), ByteOf32(x, 1), ByteOf32(x, 0)]
  }

  /** A Java long as ByteBuffer.putLong writes it, most significant byte first. */
  function EncodeLong(x: jlong): (e: seq<byte>)
    ensures |e| == 8
  {
    [ByteOf64(x, 7), ByteOf64(x, 6), ByteOf64(x, 5), ByteOf64(x, 4),
     ByteOf64(x, 3), ByteOf64(x, 2), ByteOf64(x, 1), ByteOf64(x, 0)]
  }

  lemma BigEndian32Bytes(x: jint)
    ensures BigEndian32(ByteOf32(x, 3), ByteOf32(x, 2), ByteOf32(x, 1), ByteOf32(x, 0)) == x
  {
  }

  lemma BigEndian64Bytes(x: jlong)
    ensures BigEndian64(ByteOf64(x, 7), ByteOf64(x, 6), ByteOf64(x, 5), ByteOf64(x, 4),
                        ByteOf64(x, 3), ByteOf64(x, 2), ByteOf64(x, 1), ByteOf64(x, 0)) == x
  {
  }

  /** getInt(index) reads back what putInt wrote at that index. */
  lemma GetIntRoundTrip(d: seq<byte>, lim: int, index: int, x: jint)
    requires Written(d, index, lim, EncodeInt(x))
    ensures GetInt(d, lim, index) == Ok(x)
  {
    var e := EncodeInt(x);
    WrittenIndex(d, index, lim, e, 0);
    WrittenIndex(d, index, lim, e, 3);
    WrittenIndex(d, index, lim, e, 1);
    WrittenIndex(d, index, lim, e, 2);
    BigEndian32Bytes(x);
  }

  /** getLong(index) reads back what putLong wrote at that index. */
  lemma GetLongRoundTrip(d: seq<byte>, lim: int, index: int, x: jlong)
    requires Written(d, index, lim, EncodeLong(x))
    ensures GetLong(d, lim, index) == Ok(x)
  {
    var e := EncodeLong(x);
    WrittenIndex(d, index, lim, e, 0);
    WrittenIndex(d, index, lim, e, 7);
    WrittenIndex(d, index, lim, e, 1);
    WrittenIndex(d, index, lim, e, 2);
    WrittenIndex(d, index, lim, e, 3);
    WrittenIndex(d, index, lim, e, 4);
    WrittenIndex(d, index, lim, e, 5);
    WrittenIndex(d, index, lim, e, 6);
    BigEndian64Bytes(x);
  }

  // ---------------------------------------------------------------------------
  // Fields one after another: each lemma peels one field off the front of an
  // encoding, reads it back, and leaves the rest standing right after it.

  lemma NextVarlong(d: seq<byte>, p: int, lim: int, v: jlong, rest: seq<byte>)
    requires WrittenAt(d, p, lim, EncodeVarlong(v) + rest)
    ensures InBuffer(d, p, lim)
    ensures Varlong(d, p, lim) == Ok(Parsed(v, p + |EncodeVarlong(v)|))
    ensures WrittenAt(d, p + |EncodeVarlong(v)|, lim, rest)
  {
    WrittenSplit(d, p, lim, EncodeVarlong(v), rest);
    WrittenBounds(d, p, lim, EncodeVarlong(v));
    VarlongRoundTrip(d, p, lim, v);
  }

  lemma NextVarint(d: seq<byte>, p: int, lim: int, v: jint, rest: seq<byte>)
    requires WrittenAt(d, p, lim, EncodeVarint(v) + rest)
    ensures InBuffer(d, p, lim)
    ensures Varint(d, p, lim) == Ok(Parsed(v, p + |EncodeVarint(v)|))
    ensures WrittenAt(d, p + |EncodeVarint(v)|, lim, rest)
  {
    WrittenSplit(d, p, lim, EncodeVarint(v), rest);
    WrittenBounds(d, p, lim, EncodeVarint(v));
    VarintRoundTrip(d, p, lim, v);
  }

  /** A last varint, with nothing after it. */
  lemma LastVarint(d: seq<byte>, p: int, lim: int, v: jint)
    requires WrittenAt(d, p, lim, EncodeVarint(v))
    ensures InBuffer(d, p, lim)
    ensures Varint(d, p, lim) == Ok(Parsed(v, p + |EncodeVarint(v)|))
  {
    WrittenBounds(d, p, lim, EncodeVarint(v));
    VarintRoundTrip(d, p, lim, v);
  }

  lemma LastVarlong(d: seq<byte>, p: int, lim: int, v: jlong)
    requires WrittenAt(d, p, lim, EncodeVarlong(v))
    ensures InBuffer(d, p, lim)
    ensures Varlong(d, p, lim) == Ok(Parsed(v, p + |EncodeVarlong(v)|))
  {
    WrittenBounds(d, p, lim, EncodeVarlong(v));
    VarlongRoundTrip(d, p, lim, v);
  }

  lemma NextByte(d: seq<byte>, p: int, lim: int, x: byte, rest: seq<byte>)
    requires WrittenAt(d, p, lim, [x] + rest)
    ensures InBuffer(d, p, lim)
    ensures Get(d, p, lim) == Ok(Parsed(x, p + 1))
    ensures WrittenAt(d, p + 1, lim, rest)
  {
    WrittenCons(d, p, lim, x, rest);
    WrittenBounds(d, p, lim, [x] + rest);
  }

  lemma NextString(d: seq<byte>, p: int, lim: int, f: StringForm, utf8: seq<byte> -> seq<bv16>, rest: seq<byte>)
    requires Encodable(f) && WrittenAt(d, p, lim, EncodeString(f) + rest)
    ensures InBuffer(d, p, lim)
    ensures GetString(d, p, lim, utf8) == Ok(Parsed(Decoded(f, utf8), p + |EncodeString(f)|))
    ensures WrittenAt(d, p + |EncodeString(f)|, lim, rest)
  {
    WrittenSplit(d, p, lim, EncodeString(f), rest);
    WrittenBounds(d, p, lim, EncodeString(f));
    GetStringRoundTrip(d, p, lim, f, utf8);
  }

  lemma NextBytes(d: seq<byte>, p: int, lim: int, n: jint, b: seq<byte>, rest: seq<byte>)
    requires Int32(n) == |b| && WrittenAt(d, p, lim, EncodeBytes(n, b) + rest)
    ensures InBuffer(d, p, lim)
    ensures GetBytes(d, p, lim) == Ok(Parsed(b, p + |EncodeBytes(n, b)|))
    ensures WrittenAt(d, p + |EncodeBytes(n, b)|, lim, rest)
  {
    WrittenSplit(d, p, lim, EncodeBytes(n, b), rest);
    WrittenBounds(d, p, lim, EncodeBytes(n, b));
    GetBytesRoundTrip(d, p, lim, n, b);
  }

  // ---------------------------------------------------------------------------
  // Lengths the reader refuses

  /** getBytes after a length n: `new byte[n]` raises NegativeArraySize for a
      negative n, and the bulk get raises BufferUnderflow when fewer than n
      bytes remain before the limit. */
  lemma GetBytesRejects(d: seq<byte>, p: int, lim: int, n: jint)
    requires WrittenAt(d, p, lim, EncodeVarint(n))
    ensures InBuffer(d, p, lim)
    ensures Int32(n) < 0 ==> GetBytes(d, p, lim) == Err(NegativeArraySize)
    ensures 0 <= Int32(n) && p + |EncodeVarint(n)| + Int32(n) > lim ==> GetBytes(d, p, lim) == Err(BufferUnderflow)
  {
    LastVarint(d, p, lim, n);
    GetBytesAfterBadLength(d, p, lim, n, p + |EncodeVarint(n)|);
  }

  lemma GetBytesAfterBadLength(d: seq<byte>, p: int, lim: int, n: jint, q: int)
    requires InBuffer(d, p, lim) && Varint(d, p, lim) == Ok(Parsed(n, q))
    ensures Int32(n) < 0 ==> GetBytes(d, p, lim) == Err(NegativeArraySize)
    ensures 0 <= Int32(n) && q + Int32(n) > lim ==> GetBytes(d, p, lim) == Err(BufferUnderflow)
  {
  }

  /** getString's tag 4 with a negative count: `new char[n]` raises
      NegativeArraySize, whatever follows. */
  lemma GetCharsRejects(d: seq<byte>, p: int, lim: int, n: jint, utf8: seq<byte> -> seq<bv16>)
    requires Int32(n) < 0 && WrittenAt(d, p, lim, [4] + EncodeVarint(n))
    ensures InBuffer(d, p, lim) && p < lim
    ensures GetChars(d, p + 1, lim) == Err(NegativeArraySize)
    ensures GetString(d, p, lim, utf8) == Err(NegativeArraySize)
  {
    NextByte(d, p, lim, 4, EncodeVarint(n));
    LastVarint(d, p + 1, lim, n);
  }
}
