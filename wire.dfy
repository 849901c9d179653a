/** The primitive getters of JfrReader, as functions over a byte buffer.

    Every decoder reads the buffer `d` from position `p` and may not read at or
    past the limit `lim`; it answers either the decoded value together with the
    position the cursor stands on afterwards, or the Java exception the getter
    would throw. The reader class proves its cursor-moving methods equal to these
    functions; the modules Varints and Codec state what the encodings mean. */
module Wire {

  type byte = bv8
  /** The bits of a Java int and of a Java long. */
  type jint = bv32
  type jlong = bv64

  /** The exceptions JfrReader lets escape, plus OutOfFuel for the loops the
      model bounds. */
  datatype Error =
    | BufferUnderflow           // a relative get at or past the limit
    | IndexOutOfBounds          // an absolute get past the limit, or an array index
    | IllegalArgument           // a position or limit outside the buffer, a negative map capacity
    | NegativeArraySize
    | NullPointer
    | NumberFormat
    | InvalidStringEncoding     // getString's "Invalid string encoding"
    | InvalidSymbolEncoding     // readSymbols' "Invalid symbol encoding"
    | NotValidJfr               // readChunk's "Not a valid JFR file"
    | UnsupportedVersion(version: int)
    | OutOfFuel

  datatype Result<T> = Ok(value: T) | Err(error: Error) {
    predicate IsFailure() { Err? }
    function PropagateFailure<U>(): Result<U> requires Err? { Err(error) }
    function Extract(): T requires Ok? { value }
  }

  /** A Java reference that may be null. */
  datatype Option<T> = None | Some(value: T)

  /** A decoded value and the cursor position after it. */
  datatype Parsed<T> = Parsed(value: T, next: int)

  /** The state a ByteBuffer always keeps: 0 <= position <= limit <= capacity. */
  predicate InBuffer(d: seq<byte>, p: int, lim: int) {
    0 <= p <= lim <= |d|
  }

  /** A successful decode leaves the cursor between where it started and the limit. */
  predicate Advanced<T>(r: Result<Parsed<T>>, p: int, lim: int) {
    r.Ok? ==> p <= r.value.next <= lim
  }

  // ---------------------------------------------------------------------------
  // Java integer arithmetic

  const TWO_32: int := 0x1_0000_0000

  predicate IsInt(x: int) { -0x8000_0000 <= x < 0x8000_0000 }

  /** The value of a Java int with the given bits, in two's complement: bit
      patterns from 2^31 up stand for the negative values. */
  function Int32(x: jint): int {
    if x < 0x8000_0000 then x as int else x as int - TWO_32
  }

  /** The value of a Java long with the given bits. */
  function Long(x: jlong): int {
    (x ^ 0x8000_0000_0000_0000) as int - 0x8000_0000_0000_0000
  }

  /** Java int arithmetic, and the (int) cast of a long: keep the low 32 bits. */
  function Wrap32(x: int): (r: int)
    ensures IsInt(r)
    ensures (r - x) % TWO_32 == 0
    ensures IsInt(x) ==> r == x
  {
    var m := x % TWO_32;
    if m < 0x8000_0000 then m else m - TWO_32
  }

  // ---------------------------------------------------------------------------
  // Relative getters (each moves the cursor)

  /** ByteBuffer.get(): one byte, or BufferUnderflow at the limit. */
  function Get(d: seq<byte>, p: int, lim: int): (r: Result<Parsed<byte>>)
    requires InBuffer(d, p, lim)
    ensures Advanced(r, p, lim)
  {
    if p < lim then Ok(Parsed(d[p], p + 1)) else Err(BufferUnderflow)
  }

  /** The low 7 bits of a varint byte, widened to an int. */
  function Payload(b: byte): jint {
    (b & 0x7f) as jint
  }

  /** The low 7 bits of a varint byte, widened to a long. */
  function Payload64(b: byte): jlong {
    (b & 0x7f) as jlong
  }

  /** Java's `x << shift` on an int, which shifts by the low five bits of
      `shift`. getVarint's `shift` is a Java int that wraps past 2^31, but its
      low five bits are those of the unbounded count, so the count stands for it
      here. The shifts of the first five groups are written as constants;
      ShiftIntIsShift proves every case equal to the shift itself. */
  function ShiftInt(x: jint, shift: int): jint {
    if shift == 0 then x else if shift == 7 then x << 7 else if shift == 14 then x << 14
    else if shift == 21 then x << 21 else if shift == 28 then x << 28
    else x << (shift % 32)
  }

  lemma ShiftIntIsShift(x: jint, shift: int)
    ensures ShiftInt(x, shift) == x << (shift % 32)
  {
    if shift == 0 { assert shift % 32 == 0; }
    else if shift == 7 { assert shift % 32 == 7; }
    else if shift == 14 { assert shift % 32 == 14; }
    else if shift == 21 { assert shift % 32 == 21; }
    else if shift == 28 { assert shift % 32 == 28; }
  }

  /** getVarint's loop once `shift` and `acc` hold the loop variables. Each byte
      ORs its low 7 bits into the int at `shift` (modulo 32); the first byte
      with its high bit clear ends the number, and nothing else does. */
  function VarintFrom(d: seq<byte>, p: int, lim: int, shift: int, acc: jint): (r: Result<Parsed<jint>>)
    requires InBuffer(d, p, lim)
    ensures Advanced(r, p, lim)
    ensures r.Ok? ==> p < r.value.next
    decreases lim - p
  {
    if p == lim then Err(BufferUnderflow)
    else
      var acc' := acc | ShiftInt(Payload(d[p]), shift);
      if d[p] < 0x80 then Ok(Parsed(acc', p + 1))
      else VarintFrom(d, p + 1, lim, shift + 7, acc')
  }

  /** getVarint (JfrReader.java:412-421). */
  function Varint(d: seq<byte>, p: int, lim: int): (r: Result<Parsed<jint>>)
    requires InBuffer(d, p, lim)
    ensures Advanced(r, p, lim)
    ensures r.Ok? ==> p < r.value.next
  {
    VarintFrom(d, p, lim, 0, 0)
  }

  /** The shifts getVarlong's loop runs through: 0, 7, ..., 49, and 56 once the
      loop has ended. */
  predicate LongShift(shift: int) {
    || shift == 0 || shift == 7 || shift == 14 || shift == 21 || shift == 28
    || shift == 35 || shift == 42 || shift == 49 || shift == 56
  }

  /** Java's `x << shift` on a long, for the shifts getVarlong's loop reaches,
      written as constants; ShiftLongIsShift proves each equal to the shift. */
  function ShiftLong(x: jlong, shift: int): jlong
    requires LongShift(shift)
  {
    if shift == 0 then x else if shift == 7 then x << 7 else if shift == 14 then x << 14
    else if shift == 21 then x << 21 else if shift == 28 then x << 28
    else if shift == 35 then x << 35 else if shift == 42 then x << 42
    else if shift == 49 then x << 49 else x << 56
  }

  lemma ShiftLongIsShift(x: jlong, shift: int)
    requires LongShift(shift)
    ensures ShiftLong(x, shift) == x << shift
  {
    if shift == 0 { assert x << shift == x << 0; }
    else if shift == 7 { assert x << shift == x << 7; }
    else if shift == 14 { assert x << shift == x << 14; }
    else if shift == 21 { assert x << shift == x << 21; }
    else if shift == 28 { assert x << shift == x << 28; }
    else if shift == 35 { assert x << shift == x << 35; }
    else if shift == 42 { assert x << shift == x << 42; }
    else if shift == 49 { assert x << shift == x << 49; }
  }

  /** getVarlong's loop once `shift` and `acc` hold the loop variables. While
      shift < 56 a byte gives 7 bits and stops the number when its high bit is
      clear; after eight bytes that all carried the high bit, one more byte gives
      all of its 8 bits at shift 56. */
  function VarlongFrom(d: seq<byte>, p: int, lim: int, shift: int, acc: jlong): (r: Result<Parsed<jlong>>)
    requires InBuffer(d, p, lim) && LongShift(shift)
    ensures Advanced(r, p, lim)
    decreases lim - p
  {
    if p == lim then Err(BufferUnderflow)
    else if shift == 56 then Ok(Parsed(acc | (d[p] as jlong << 56), p + 1))
    else
      var acc' := acc | ShiftLong(Payload64(d[p]), shift);
      if d[p] < 0x80 then Ok(Parsed(acc', p + 1))
      else VarlongFrom(d, p + 1, lim, shift + 7, acc')
  }

  /** getVarlong (JfrReader.java:423-433). */
  function Varlong(d: seq<byte>, p: int, lim: int): (r: Result<Parsed<jlong>>)
    requires InBuffer(d, p, lim)
    ensures Advanced(r, p, lim)
    ensures r.Ok? ==> p < r.value.next
  {
    VarlongFrom(d, p, lim, 0, 0)
  }

  /** getBytes (JfrReader.java:457-461): a varint length n, then n bytes.
      `new byte[n]` rejects a negative n; the bulk get rejects an n larger than
      what remains before the limit. */
  function GetBytes(d: seq<byte>, p: int, lim: int): (r: Result<Parsed<seq<byte>>>)
    requires InBuffer(d, p, lim)
    ensures Advanced(r, p, lim)
  {
    var n :- Varint(d, p, lim);
    var len := Int32(n.value);
    if len < 0 then Err(NegativeArraySize)
    else if len > lim - n.next then Err(BufferUnderflow)
    else Ok(Parsed(d[n.next .. n.next + len], n.next + len))
  }

  // ---------------------------------------------------------------------------
  // Strings

  /** A Java String reference: null, or a sequence of UTF-16 code units. */
  datatype JStr = Null | Str(units: seq<bv16>)

  /** ISO-8859-1 decoding: every byte is the code unit with the same value. */
  function Latin1(b: seq<byte>): (u: seq<bv16>)
    ensures |u| == |b|
  {
    if b == [] then [] else [b[0] as bv16] + Latin1(b[1..])
  }

  /** One `(char) getVarint()`: the low 16 bits of a varint. */
  function GetChar(d: seq<byte>, p: int, lim: int): (r: Result<Parsed<bv16>>)
    requires InBuffer(d, p, lim)
    ensures Advanced(r, p, lim)
  {
    var c :- Varint(d, p, lim);
    Ok(Parsed((c.value & 0xffff) as bv16, c.next))
  }

  /** The loop of getString's tag 4, with `n` chars still to read after `acc`. */
  function CharsFrom(d: seq<byte>, p: int, lim: int, n: nat, acc: seq<bv16>): (r: Result<Parsed<seq<bv16>>>)
    requires InBuffer(d, p, lim)
    ensures Advanced(r, p, lim)
    ensures r.Ok? ==> |r.value.value| == |acc| + n
    decreases n
  {
    if n == 0 then Ok(Parsed(acc, p))
    else
      var c :- GetChar(d, p, lim);
      CharsFrom(d, c.next, lim, n - 1, acc + [c.value])
  }

  /** The chars of getString's tag 4 after their count `n`, which
      `new char[n]` rejects when negative. */
  function CountedChars(d: seq<byte>, p: int, lim: int, n: jint): (r: Result<Parsed<seq<bv16>>>)
    requires InBuffer(d, p, lim)
    ensures Advanced(r, p, lim)
    ensures Int32(n) < 0 ==> r == Err(NegativeArraySize)
    ensures r.Ok? ==> |r.value.value| == Int32(n)
  {
    var count := Int32(n);
    if count < 0 then Err(NegativeArraySize)
    else CharsFrom(d, p, lim, count, [])
  }

  /** getString's tag 4 (JfrReader.java:445-449): a varint count, then that
      many chars. */
  function GetChars(d: seq<byte>, p: int, lim: int): (r: Result<Parsed<seq<bv16>>>)
    requires InBuffer(d, p, lim)
    ensures Advanced(r, p, lim)
  {
    var n :- Varint(d, p, lim);
    CountedChars(d, n.next, lim, n.value)
  }

  /** getString (JfrReader.java:435-455). The tag byte selects: 0 null, 1 the
      empty string, 3 UTF-8 bytes, 4 varint chars, 5 ISO-8859-1 bytes; any other
      tag is rejected. UTF-8 decoding is the Java library's and is the parameter
      `utf8`. */
  function GetString(d: seq<byte>, p: int, lim: int, utf8: seq<byte> -> seq<bv16>): (r: Result<Parsed<JStr>>)
    requires InBuffer(d, p, lim)
    ensures Advanced(r, p, lim)
  {
    var tag :- Get(d, p, lim);
    if tag.value == 0 then Ok(Parsed(Null, tag.next))
    else if tag.value == 1 then Ok(Parsed(Str([]), tag.next))
    else if tag.value == 3 then
      var b :- GetBytes(d, tag.next, lim);
      Ok(Parsed(Str(utf8(b.value)), b.next))
    else if tag.value == 4 then
      var cs :- GetChars(d, tag.next, lim);
      Ok(Parsed(Str(cs.value), cs.next))
    else if tag.value == 5 then
      var b :- GetBytes(d, tag.next, lim);
      Ok(Parsed(Str(Latin1(b.value)), b.next))
    else Err(InvalidStringEncoding)
  }

  // ---------------------------------------------------------------------------
  // Absolute getters (the cursor does not move)

  /** Four bytes as an int, the first the most significant. */
  function BigEndian32(b0: byte, b1: byte, b2: byte, b3: byte): jint {
    (b0 as jint << 24) | (b1 as jint << 16) | (b2 as jint << 8) | b3 as jint
  }

  /** Eight bytes as a long, the first the most significant. */
  function BigEndian64(b0: byte, b1: byte, b2: byte, b3: byte, b4: byte, b5: byte, b6: byte, b7: byte): jlong {
    (b0 as jlong << 56) | (b1 as jlong << 48) | (b2 as jlong << 40) | (b3 as jlong << 32)
    | (b4 as jlong << 24) | (b5 as jlong << 16) | (b6 as jlong << 8) | b7 as jlong
  }

  /** ByteBuffer.getInt(index): four bytes, most significant first; an index
      with fewer than four bytes before the limit is rejected. */
  function GetInt(d: seq<byte>, lim: int, index: int): (r: Result<jint>)
    requires 0 <= lim <= |d|
  {
    if index < 0 || index > lim - 4 then Err(IndexOutOfBounds)
    else Ok(BigEndian32(d[index], d[index + 1], d[index + 2], d[index + 3]))
  }

  /** ByteBuffer.getLong(index): eight bytes, most significant first. */
  function GetLong(d: seq<byte>, lim: int, index: int): (r: Result<jlong>)
    requires 0 <= lim <= |d|
  {
    if index < 0 || index > lim - 8 then Err(IndexOutOfBounds)
    else Ok(BigEndian64(d[index], d[index + 1], d[index + 2], d[index + 3],
                        d[index + 4], d[index + 5], d[index + 6], d[index + 7]))
  }
}
