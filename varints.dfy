/** The writer's side of the encodings JfrReader decodes, and what the decoders
    promise about them: each decoder reads back exactly what its encoder wrote
    and stops exactly where the encoding ends, and the varint getters consume
    bytes up to the first one whose high bit is clear. */
module Varints {
  import opened Wire

  // ---------------------------------------------------------------------------
  // Sequences

  /** The bytes `e` stand in the buffer from `p` on, all of them before the
      limit. Stated one byte at a time, so that a proof peels the bytes it
      needs and no more. */
  predicate Written(d: seq<byte>, p: int, lim: int, e: seq<byte>)
    decreases |e|
  {
    if e == [] then 0 <= p <= lim <= |d|
    else 0 <= p < lim <= |d| && d[p] == e[0] && Written(d, p + 1, lim, e[1..])
  }

  lemma {:induction false} WrittenBounds(d: seq<byte>, p: int, lim: int, e: seq<byte>)
    requires Written(d, p, lim, e)
    ensures 0 <= p && p + |e| <= lim <= |d|
    decreases |e|
  {
    if e != [] { WrittenBounds(d, p + 1, lim, e[1..]); }
  }

  lemma WrittenHead(d: seq<byte>, p: int, lim: int, e: seq<byte>)
    requires Written(d, p, lim, e) && |e| >= 1
    ensures p < lim && d[p] == e[0]
  {
  }

  lemma WrittenCons(d: seq<byte>, p: int, lim: int, x: byte, t: seq<byte>)
    requires Written(d, p, lim, [x] + t)
    ensures d[p] == x && Written(d, p + 1, lim, t)
  {
    assert ([x] + t)[1..] == t;
  }

  /** Written, as one fact: where it is assumed, a proof sees the first byte
      and no further unless a lemma peels it. The round trips of whole records
      assume it in this form, which keeps the encoder's bits apart from the
      decoder's. */
  ghost predicate WrittenAt(d: seq<byte>, p: int, lim: int, e: seq<byte>) {
    Written(d, p, lim, e)
  }

  // ---------------------------------------------------------------------------
  // Varint

  /** The shifts at which a 32-bit value's 7-bit groups start. */
  predicate IntShift(s: int) {
    s == 0 || s == 7 || s == 14 || s == 21 || s == 28
  }

  /** `v >> s`: the bits of `v` from group shift `s` up. */
  function Rest32(v: jint, s: int): jint
    requires IntShift(s)
  {
    if s == 0 then v
    else if s == 7 then v >> 7
    else if s == 14 then v >> 14
    else if s == 21 then v >> 21
    else v >> 28
  }

  /** `v & ((1 << s) - 1)`: the bits of `v` below group shift `s`. */
  function Low32(v: jint, s: int): jint
    requires IntShift(s)
  {
    if s == 0 then 0
    else if s == 7 then v & 0x7f
    else if s == 14 then v & 0x3fff
    else if s == 21 then v & 0x1f_ffff
    else v & 0xfff_ffff
  }

  /** Whether the group at `shift` is the last one the encoder writes: no
      higher bit is set, or it is the fifth group. */
  predicate LastGroup32(v: jint, shift: int)
    requires IntShift(shift)
  {
    shift == 28 || Rest32(v, shift) < 0x80
  }

  /** The byte written for the group at `shift`: its 7 bits, and the high bit
      unless it is the last group. */
  function GroupOut32(v: jint, shift: int): byte
    requires IntShift(shift)
  {
    var rest := Rest32(v, shift);
    if shift == 28 then (rest & 0x7f) as byte
    else if rest < 0x80 then (rest & 0x7f) as byte
    else ((rest & 0x7f) | 0x80) as byte
  }

  /** Encodes the groups of `v` from bit `shift` up: 7 bits per byte, least
      significant group first, the high bit set on every byte but the last. */
  function EncodeVarintFrom(v: jint, shift: int): (e: seq<byte>)
    requires IntShift(shift)
    ensures 1 <= |e| <= (28 - shift) / 7 + 1
    ensures e[0] == GroupOut32(v, shift)
    decreases 28 - shift, v
  {
    if LastGroup32(v, shift) then [GroupOut32(v, shift)]
    else [GroupOut32(v, shift)] + EncodeVarintFrom(v, shift + 7)
  }

  /** The unsigned LEB128 form of the bits of an int: at most 5 bytes. */
  function EncodeVarint(v: jint): (e: seq<byte>)
    ensures 1 <= |e| <= 5
  {
    EncodeVarintFrom(v, 0)
  }

  /** getVarint, entered at `shift` with the bits of `v` below it, reads `v`
      back from its encoding at `p`. */
  predicate ReadsBack32(d: seq<byte>, p: int, lim: int, v: jint, shift: int)
    requires InBuffer(d, p, lim) && IntShift(shift)
  {
    VarintFrom(d, p, lim, shift, Low32(v, shift)) == Ok(Parsed(v, p + |EncodeVarintFrom(v, shift)|))
  }

  /** The bytes at `p` hold the encoding of `v`'s groups from `shift` up. */
  predicate Holds32(d: seq<byte>, p: int, lim: int, v: jint, shift: int)
    requires InBuffer(d, p, lim) && IntShift(shift)
  {
    Written(d, p, lim, EncodeVarintFrom(v, shift))
  }

  /** The encoding of the last group is that group's byte alone. */
  lemma EncodeLast32(v: jint, shift: int)
    requires IntShift(shift) && LastGroup32(v, shift)
    ensures EncodeVarintFrom(v, shift) == [GroupOut32(v, shift)]
  {}

  /** Past a group that is not the last, the encoding goes on at the next. */
  lemma NextGroupHolds32(d: seq<byte>, p: int, lim: int, v: jint, shift: int)
    requires InBuffer(d, p, lim) && IntShift(shift) && !LastGroup32(v, shift)
    requires Holds32(d, p, lim, v, shift)
    ensures |EncodeVarintFrom(v, shift)| == 1 + |EncodeVarintFrom(v, shift + 7)|
    ensures d[p] == GroupOut32(v, shift)
    ensures Holds32(d, p + 1, lim, v, shift + 7)
  {
    var e := EncodeVarintFrom(v, shift);
    assert e == [e[0]] + EncodeVarintFrom(v, shift + 7);
    WrittenCons(d, p, lim, e[0], EncodeVarintFrom(v, shift + 7));
  }

  /** One turn of getVarint's loop on a byte whose high bit is clear ... */
  lemma DecodeLast32(d: seq<byte>, p: int, lim: int, shift: int, acc: jint)
    requires InBuffer(d, p, lim) && p < lim && d[p] < 0x80
    ensures VarintFrom(d, p, lim, shift, acc) == Ok(Parsed(acc | ShiftInt(Payload(d[p]), shift), p + 1))
  {}

  /** ... and on one whose high bit is set. */
  lemma DecodeNext32(d: seq<byte>, p: int, lim: int, shift: int, acc: jint)
    requires InBuffer(d, p, lim) && p < lim && d[p] >= 0x80
    ensures VarintFrom(d, p, lim, shift, acc) == VarintFrom(d, p + 1, lim, shift + 7, acc | ShiftInt(Payload(d[p]), shift))
  {}

  // Each group in turn, at its literal shift: the bit-level facts, then one
  // turn of the loop, then the rest of the encoding. The lemmas are written
  // out once per shift (0, 7, ..., 28 here, and 0, 7, ..., 56 for longs
  // below) rather than taking the shift as a parameter: with the shift a
  // literal, each fact about masks and shifts is a fixed bit-vector identity
  // the solver decides outright, whereas with a variable shift the same fact
  // needs bit-blasting over every shift at once, which the solver does not
  // finish. Bits*At<k> are the bit-level facts of group k, GroupLast/GroupNext
  // and StepLast/StepNext one turn of the loop on that group, and Reads*At<k>
  // the rest of the encoding from that group on.

  lemma Bits32At0(v: jint)
    ensures var b: byte := if v < 0x80 then (v & 0x7f) as byte else ((v & 0x7f) | 0x80) as byte;
      v < 0x80 ==> b < 0x80 && 0 | ((b & 0x7f) as jint) == v
    ensures var b: byte := if v < 0x80 then (v & 0x7f) as byte else ((v & 0x7f) | 0x80) as byte;
      !(v < 0x80) ==> b >= 0x80 && 0 | ((b & 0x7f) as jint) == v & 0x7f
  {}

  lemma Bits32At7(v: jint)
    ensures var b: byte := if (v >> 7) < 0x80 then ((v >> 7) & 0x7f) as byte else (((v >> 7) & 0x7f) | 0x80) as byte;
      (v >> 7) < 0x80 ==> b < 0x80 && (v & 0x7f) | ((b & 0x7f) as jint << 7) == v
    ensures var b: byte := if (v >> 7) < 0x80 then ((v >> 7) & 0x7f) as byte else (((v >> 7) & 0x7f) | 0x80) as byte;
      !((v >> 7) < 0x80) ==> b >= 0x80 && (v & 0x7f) | ((b & 0x7f) as jint << 7) == v & 0x3fff
  {}

  lemma Bits32At14(v: jint)
    ensures var b: byte := if (v >> 14) < 0x80 then ((v >> 14) & 0x7f) as byte else (((v >> 14) & 0x7f) | 0x80) as byte;
      (v >> 14) < 0x80 ==> b < 0x80 && (v & 0x3fff) | ((b & 0x7f) as jint << 14) == v
    ensures var b: byte := if (v >> 14) < 0x80 then ((v >> 14) & 0x7f) as byte else (((v >> 14) & 0x7f) | 0x80) as byte;
      !((v >> 14) < 0x80) ==> b >= 0x80 && (v & 0x3fff) | ((b & 0x7f) as jint << 14) == v & 0x1f_ffff
  {}

  lemma Bits32At21(v: jint)
    ensures var b: byte := if (v >> 21) < 0x80 then ((v >> 21) & 0x7f) as byte else (((v >> 21) & 0x7f) | 0x80) as byte;
      (v >> 21) < 0x80 ==> b < 0x80 && (v & 0x1f_ffff) | ((b & 0x7f) as jint << 21) == v
    ensures var b: byte := if (v >> 21) < 0x80 then ((v >> 21) & 0x7f) as byte else (((v >> 21) & 0x7f) | 0x80) as byte;
      !((v >> 21) < 0x80) ==> b >= 0x80 && (v & 0x1f_ffff) | ((b & 0x7f) as jint << 21) == v & 0xfff_ffff
  {}

  lemma Bits32At28(v: jint)
    ensures var b: byte := ((v >> 28) & 0x7f) as byte;
      b < 0x80 && (v & 0xfff_ffff) | ((b & 0x7f) as jint << 28) == v
  {}

  lemma GroupLast32At28(v: jint)
    requires LastGroup32(v, 28)
    ensures var b := GroupOut32(v, 28);
      b < 0x80 && Low32(v, 28) | ShiftInt(Payload(b), 28) == v
  {
    Bits32At28(v);
  }

  lemma StepLast32At28(d: seq<byte>, p: int, lim: int, v: jint)
    requires InBuffer(d, p, lim) && LastGroup32(v, 28) && p < lim && d[p] == GroupOut32(v, 28)
    ensures VarintFrom(d, p, lim, 28, Low32(v, 28)) == Ok(Parsed(v, p + 1))
  {
    GroupLast32At28(v);
    DecodeLast32(d, p, lim, 28, Low32(v, 28));
  }

  lemma Reads32At28(d: seq<byte>, p: int, lim: int, v: jint)
    requires InBuffer(d, p, lim) && Holds32(d, p, lim, v, 28)
    ensures ReadsBack32(d, p, lim, v, 28)
  {
    EncodeLast32(v, 28);
    WrittenHead(d, p, lim, EncodeVarintFrom(v, 28));
    StepLast32At28(d, p, lim, v);
  }

  lemma GroupLast32At21(v: jint)
    requires LastGroup32(v, 21)
    ensures var b := GroupOut32(v, 21);
      b < 0x80 && Low32(v, 21) | ShiftInt(Payload(b), 21) == v
  {
    Bits32At21(v);
  }

  lemma StepLast32At21(d: seq<byte>, p: int, lim: int, v: jint)
    requires InBuffer(d, p, lim) && LastGroup32(v, 21) && p < lim && d[p] == GroupOut32(v, 21)
    ensures VarintFrom(d, p, lim, 21, Low32(v, 21)) == Ok(Parsed(v, p + 1))
  {
    GroupLast32At21(v);
    DecodeLast32(d, p, lim, 21, Low32(v, 21));
  }

  lemma GroupNext32At21(v: jint)
    requires !LastGroup32(v, 21)
    ensures var b := GroupOut32(v, 21);
      b >= 0x80 && Low32(v, 21) | ShiftInt(Payload(b), 21) == Low32(v, 28)
  {
    Bits32At21(v);
  }

  lemma StepNext32At21(d: seq<byte>, p: int, lim: int, v: jint)
    requires InBuffer(d, p, lim) && !LastGroup32(v, 21) && p < lim && d[p] == GroupOut32(v, 21)
    ensures VarintFrom(d, p, lim, 21, Low32(v, 21)) == VarintFrom(d, p + 1, lim, 28, Low32(v, 28))
  {
    GroupNext32At21(v);
    DecodeNext32(d, p, lim, 21, Low32(v, 21));
  }

  lemma Reads32At21(d: seq<byte>, p: int, lim: int, v: jint)
    requires InBuffer(d, p, lim) && Holds32(d, p, lim, v, 21)
    ensures ReadsBack32(d, p, lim, v, 21)
  {
    if LastGroup32(v, 21) {
      EncodeLast32(v, 21);
      WrittenHead(d, p, lim, EncodeVarintFrom(v, 21));
      StepLast32At21(d, p, lim, v);
    } else {
      NextGroupHolds32(d, p, lim, v, 21);
      Reads32At28(d, p + 1, lim, v);
      StepNext32At21(d, p, lim, v);
    }
  }

  lemma GroupLast32At14(v: jint)
    requires LastGroup32(v, 14)
    ensures var b := GroupOut32(v, 14);
      b < 0x80 && Low32(v, 14) | ShiftInt(Payload(b), 14) == v
  {
    Bits32At14(v);
  }

  lemma StepLast32At14(d: seq<byte>, p: int, lim: int, v: jint)
    requires InBuffer(d, p, lim) && LastGroup32(v, 14) && p < lim && d[p] == GroupOut32(v, 14)
    ensures VarintFrom(d, p, lim, 14, Low32(v, 14)) == Ok(Parsed(v, p + 1))
  {
    GroupLast32At14(v);
    DecodeLast32(d, p, lim, 14, Low32(v, 14));
  }

  lemma GroupNext32At14(v: jint)
    requires !LastGroup32(v, 14)
    ensures var b := GroupOut32(v, 14);
      b >= 0x80 && Low32(v, 14) | ShiftInt(Payload(b), 14) == Low32(v, 21)
  {
    Bits32At14(v);
  }

  lemma StepNext32At14(d: seq<byte>, p: int, lim: int, v: jint)
    requires InBuffer(d, p, lim) && !LastGroup32(v, 14) && p < lim && d[p] == GroupOut32(v, 14)
    ensures VarintFrom(d, p, lim, 14, Low32(v, 14)) == VarintFrom(d, p + 1, lim, 21, Low32(v, 21))
  {
    GroupNext32At14(v);
    DecodeNext32(d, p, lim, 14, Low32(v, 14));
  }

  lemma Reads32At14(d: seq<byte>, p: int, lim: int, v: jint)
    requires InBuffer(d, p, lim) && Holds32(d, p, lim, v, 14)
    ensures ReadsBack32(d, p, lim, v, 14)
  {
    if LastGroup32(v, 14) {
      EncodeLast32(v, 14);
      WrittenHead(d, p, lim, EncodeVarintFrom(v, 14));
      StepLast32At14(d, p, lim, v);
    } else {
      NextGroupHolds32(d, p, lim, v, 14);
      Reads32At21(d, p + 1, lim, v);
      StepNext32At14(d, p, lim, v);
    }
  }

  lemma GroupLast32At7(v: jint)
    requires LastGroup32(v, 7)
    ensures var b := GroupOut32(v, 7);
      b < 0x80 && Low32(v, 7) | ShiftInt(Payload(b), 7) == v
  {
    Bits32At7(v);
  }

  lemma StepLast32At7(d: seq<byte>, p: int, lim: int, v: jint)
    requires InBuffer(d, p, lim) && LastGroup32(v, 7) && p < lim && d[p] == GroupOut32(v, 7)
    ensures VarintFrom(d, p, lim, 7, Low32(v, 7)) == Ok(Parsed(v, p + 1))
  {
    GroupLast32At7(v);
    DecodeLast32(d, p, lim, 7, Low32(v, 7));
  }

  lemma GroupNext32At7(v: jint)
    requires !LastGroup32(v, 7)
    ensures var b := GroupOut32(v, 7);
      b >= 0x80 && Low32(v, 7) | ShiftInt(Payload(b), 7) == Low32(v, 14)
  {
    Bits32At7(v);
  }

  lemma StepNext32At7(d: seq<byte>, p: int, lim: int, v: jint)
    requires InBuffer(d, p, lim) && !LastGroup32(v, 7) && p < lim && d[p] == GroupOut32(v, 7)
    ensures VarintFrom(d, p, lim, 7, Low32(v, 7)) == VarintFrom(d, p + 1, lim, 14, Low32(v, 14))
  {
    GroupNext32At7(v);
    DecodeNext32(d, p, lim, 7, Low32(v, 7));
  }

  lemma Reads32At7(d: seq<byte>, p: int, lim: int, v: jint)
    requires InBuffer(d, p, lim) && Holds32(d, p, lim, v, 7)
    ensures ReadsBack32(d, p, lim, v, 7)
  {
    if LastGroup32(v, 7) {
      EncodeLast32(v, 7);
      WrittenHead(d, p, lim, EncodeVarintFrom(v, 7));
      StepLast32At7(d, p, lim, v);
    } else {
      NextGroupHolds32(d, p, lim, v, 7);
      Reads32At14(d, p + 1, lim, v);
      StepNext32At7(d, p, lim, v);
    }
  }

  lemma GroupLast32At0(v: jint)
    requires LastGroup32(v, 0)
    ensures var b := GroupOut32(v, 0);
      b < 0x80 && Low32(v, 0) | ShiftInt(Payload(b), 0) == v
  {
    Bits32At0(v);
  }

  lemma StepLast32At0(d: seq<byte>, p: int, lim: int, v: jint)
    requires InBuffer(d, p, lim) && LastGroup32(v, 0) && p < lim && d[p] == GroupOut32(v, 0)
    ensures VarintFrom(d, p, lim, 0, Low32(v, 0)) == Ok(Parsed(v, p + 1))
  {
    GroupLast32At0(v);
    DecodeLast32(d, p, lim, 0, Low32(v, 0));
  }

  lemma GroupNext32At0(v: jint)
    requires !LastGroup32(v, 0)
    ensures var b := GroupOut32(v, 0);
      b >= 0x80 && Low32(v, 0) | ShiftInt(Payload(b), 0) == Low32(v, 7)
  {
    Bits32At0(v);
  }

  lemma StepNext32At0(d: seq<byte>, p: int, lim: int, v: jint)
    requires InBuffer(d, p, lim) && !LastGroup32(v, 0) && p < lim && d[p] == GroupOut32(v, 0)
    ensures VarintFrom(d, p, lim, 0, Low32(v, 0)) == VarintFrom(d, p + 1, lim, 7, Low32(v, 7))
  {
    GroupNext32At0(v);
    DecodeNext32(d, p, lim, 0, Low32(v, 0));
  }

  lemma Reads32At0(d: seq<byte>, p: int, lim: int, v: jint)
    requires InBuffer(d, p, lim) && Holds32(d, p, lim, v, 0)
    ensures ReadsBack32(d, p, lim, v, 0)
  {
    if LastGroup32(v, 0) {
      EncodeLast32(v, 0);
      WrittenHead(d, p, lim, EncodeVarintFrom(v, 0));
      StepLast32At0(d, p, lim, v);
    } else {
      NextGroupHolds32(d, p, lim, v, 0);
      Reads32At7(d, p + 1, lim, v);
      StepNext32At0(d, p, lim, v);
    }
  }

  /** getVarint reads back every int value the encoder writes, consuming
      exactly the encoded bytes. */
  lemma VarintRoundTrip(d: seq<byte>, p: int, lim: int, v: jint)
    requires InBuffer(d, p, lim)
    requires Written(d, p, lim, EncodeVarint(v))
    ensures Varint(d, p, lim) == Ok(Parsed(v, p + |EncodeVarint(v)|))
  {
    Reads32At0(d, p, lim, v);
  }

  lemma {:induction false} VarintFromStops(d: seq<byte>, p: int, lim: int, shift: int, acc: jint)
    requires InBuffer(d, p, lim)
    ensures var r := VarintFrom(d, p, lim, shift, acc);
      && (r.Ok? ==> p < r.value.next && d[r.value.next - 1] < 0x80
                    && forall k :: p <= k < r.value.next - 1 ==> d[k] >= 0x80)
      && (r.Err? ==> r.error == BufferUnderflow && forall k :: p <= k < lim ==> d[k] >= 0x80)
    decreases lim - p
  {
    if p < lim && d[p] >= 0x80 {
      var acc' := acc | ShiftInt(Payload(d[p]), shift);
      assert VarintFrom(d, p, lim, shift, acc) == VarintFrom(d, p + 1, lim, shift + 7, acc');
      VarintFromStops(d, p + 1, lim, shift + 7, acc');
    }
  }

  /** getVarint consumes the bytes up to and including the first one whose
      high bit is clear, and fails with BufferUnderflow exactly when no byte
      before the limit has its high bit clear. */
  lemma VarintLength(d: seq<byte>, p: int, lim: int)
    requires InBuffer(d, p, lim)
    ensures var r := Varint(d, p, lim);
      && (r.Ok? ==> p < r.value.next && d[r.value.next - 1] < 0x80
                    && forall k :: p <= k < r.value.next - 1 ==> d[k] >= 0x80)
      && (r.Err? ==> r.error == BufferUnderflow && forall k :: p <= k < lim ==> d[k] >= 0x80)
  {
    VarintFromStops(d, p, lim, 0, 0);
  }

  // ---------------------------------------------------------------------------
  // Varlong

  /** `v >> s`: the bits of `v` from group shift `s` up. */
  function Rest64(v: jlong, s: int): jlong
    requires LongShift(s)
  {
    if s == 0 then v
    else if s == 7 then v >> 7
    else if s == 14 then v >> 14
    else if s == 21 then v >> 21
    else if s == 28 then v >> 28
    else if s == 35 then v >> 35
    else if s == 42 then v >> 42
    else if s == 49 then v >> 49
    else v >> 56
  }

  /** `v & ((1 << s) - 1)`: the bits of `v` below group shift `s`. */
  function Low64(v: jlong, s: int): jlong
    requires LongShift(s)
  {
    if s == 0 then 0
    else if s == 7 then v & 0x7f
    else if s == 14 then v & 0x3fff
    else if s == 21 then v & 0x1f_ffff
    else if s == 28 then v & 0xfff_ffff
    else if s == 35 then v & 0x7_ffff_ffff
    else if s == 42 then v & 0x3ff_ffff_ffff
    else if s == 49 then v & 0x1_ffff_ffff_ffff
    else v & 0xff_ffff_ffff_ffff
  }

  /** Whether the group at `shift` is the last one the encoder writes: no
      higher bit is set, or it is the ninth byte. */
  predicate LastGroup64(v: jlong, shift: int)
    requires LongShift(shift)
  {
    shift == 56 || Rest64(v, shift) < 0x80
  }

  /** The byte written for the group at `shift`: 7 bits and the high bit
      unless it is the last group; at shift 56, the top 8 bits. */
  function GroupOut64(v: jlong, shift: int): byte
    requires LongShift(shift)
  {
    var rest := Rest64(v, shift);
    if shift == 56 then (rest & 0xff) as byte
    else if rest < 0x80 then (rest & 0x7f) as byte
    else ((rest & 0x7f) | 0x80) as byte
  }

  /** Encodes the groups of `v` from bit `shift` up; the byte at shift 56, if
      reached, carries the top 8 bits whole. */
  function EncodeVarlongFrom(v: jlong, shift: int): (e: seq<byte>)
    requires LongShift(shift)
    ensures 1 <= |e| <= (56 - shift) / 7 + 1
    ensures e[0] == GroupOut64(v, shift)
    decreases 56 - shift, v
  {
    if LastGroup64(v, shift) then [GroupOut64(v, shift)]
    else [GroupOut64(v, shift)] + EncodeVarlongFrom(v, shift + 7)
  }

  /** The writer's 64-bit varint: at most 9 bytes. */
  function EncodeVarlong(v: jlong): (e: seq<byte>)
    ensures 1 <= |e| <= 9
  {
    EncodeVarlongFrom(v, 0)
  }

  /** getVarlong, entered at `shift` with the bits of `v` below it, reads `v`
      back from its encoding at `p`. */
  predicate ReadsBack64(d: seq<byte>, p: int, lim: int, v: jlong, shift: int)
    requires InBuffer(d, p, lim) && LongShift(shift)
  {
    VarlongFrom(d, p, lim, shift, Low64(v, shift)) == Ok(Parsed(v, p + |EncodeVarlongFrom(v, shift)|))
  }

  /** The bytes at `p` hold the encoding of `v`'s groups from `shift` up. */
  predicate Holds64(d: seq<byte>, p: int, lim: int, v: jlong, shift: int)
    requires InBuffer(d, p, lim) && LongShift(shift)
  {
    Written(d, p, lim, EncodeVarlongFrom(v, shift))
  }

  /** The encoding of the last group is that group's byte alone. */
  lemma EncodeLast64(v: jlong, shift: int)
    requires LongShift(shift) && LastGroup64(v, shift)
    ensures EncodeVarlongFrom(v, shift) == [GroupOut64(v, shift)]
  {}

  /** Past a group that is not the last, the encoding goes on at the next. */
  lemma NextGroupHolds64(d: seq<byte>, p: int, lim: int, v: jlong, shift: int)
    requires InBuffer(d, p, lim) && LongShift(shift) && !LastGroup64(v, shift)
    requires Holds64(d, p, lim, v, shift)
    ensures |EncodeVarlongFrom(v, shift)| == 1 + |EncodeVarlongFrom(v, shift + 7)|
    ensures d[p] == GroupOut64(v, shift)
    ensures Holds64(d, p + 1, lim, v, shift + 7)
  {
    var e := EncodeVarlongFrom(v, shift);
    assert e == [e[0]] + EncodeVarlongFrom(v, shift + 7);
    WrittenCons(d, p, lim, e[0], EncodeVarlongFrom(v, shift + 7));
  }

  /** One turn of getVarlong's loop below shift 56 on a byte whose high bit is
      clear ... */
  lemma DecodeLast64(d: seq<byte>, p: int, lim: int, shift: int, acc: jlong)
    requires InBuffer(d, p, lim) && LongShift(shift) && shift != 56 && p < lim && d[p] < 0x80
    ensures VarlongFrom(d, p, lim, shift, acc) == Ok(Parsed(acc | ShiftLong(Payload64(d[p]), shift), p + 1))
  {}

  /** ... on one whose high bit is set ... */
  lemma DecodeNext64(d: seq<byte>, p: int, lim: int, shift: int, acc: jlong)
    requires InBuffer(d, p, lim) && LongShift(shift) && shift != 56 && p < lim && d[p] >= 0x80
    ensures VarlongFrom(d, p, lim, shift, acc) == VarlongFrom(d, p + 1, lim, shift + 7, acc | ShiftLong(Payload64(d[p]), shift))
  {}

  /** ... and the ninth byte, whatever its high bit. */
  /** Both of the above, as getVarlong's loop uses them. */
  lemma DecodeStep64(d: seq<byte>, p: int, lim: int, shift: int, acc: jlong)
    requires InBuffer(d, p, lim) && LongShift(shift) && shift != 56 && p < lim
    ensures var acc' := acc | ShiftLong(Payload64(d[p]), shift);
      if d[p] < 0x80 then VarlongFrom(d, p, lim, shift, acc) == Ok(Parsed(acc', p + 1))
      else VarlongFrom(d, p, lim, shift, acc) == VarlongFrom(d, p + 1, lim, shift + 7, acc')
  {
    if d[p] < 0x80 {
      DecodeLast64(d, p, lim, shift, acc);
    } else {
      DecodeNext64(d, p, lim, shift, acc);
    }
  }

  lemma DecodeTop64(d: seq<byte>, p: int, lim: int, acc: jlong)
    requires InBuffer(d, p, lim) && p < lim
    ensures VarlongFrom(d, p, lim, 56, acc) == Ok(Parsed(acc | (d[p] as jlong << 56), p + 1))
  {}

  // Each group of a long in turn, written out per shift as for ints above;
  // the ninth group (GroupTop64, StepTop64) carries eight bits.

  lemma Bits64At0(v: jlong)
    ensures var b: byte := if v < 0x80 then (v & 0x7f) as byte else ((v & 0x7f) | 0x80) as byte;
      v < 0x80 ==> b < 0x80 && 0 | ((b & 0x7f) as jlong) == v
    ensures var b: byte := if v < 0x80 then (v & 0x7f) as byte else ((v & 0x7f) | 0x80) as byte;
      !(v < 0x80) ==> b >= 0x80 && 0 | ((b & 0x7f) as jlong) == v & 0x7f
  {}

  lemma Bits64At7(v: jlong)
    ensures var b: byte := if (v >> 7) < 0x80 then ((v >> 7) & 0x7f) as byte else (((v >> 7) & 0x7f) | 0x80) as byte;
      (v >> 7) < 0x80 ==> b < 0x80 && (v & 0x7f) | ((b & 0x7f) as jlong << 7) == v
    ensures var b: byte := if (v >> 7) < 0x80 then ((v >> 7) & 0x7f) as byte else (((v >> 7) & 0x7f) | 0x80) as byte;
      !((v >> 7) < 0x80) ==> b >= 0x80 && (v & 0x7f) | ((b & 0x7f) as jlong << 7) == v & 0x3fff
  {}

  lemma Bits64At14(v: jlong)
    ensures var b: byte := if (v >> 14) < 0x80 then ((v >> 14) & 0x7f) as byte else (((v >> 14) & 0x7f) | 0x80) as byte;
      (v >> 14) < 0x80 ==> b < 0x80 && (v & 0x3fff) | ((b & 0x7f) as jlong << 14) == v
    ensures var b: byte := if (v >> 14) < 0x80 then ((v >> 14) & 0x7f) as byte else (((v >> 14) & 0x7f) | 0x80) as byte;
      !((v >> 14) < 0x80) ==> b >= 0x80 && (v & 0x3fff) | ((b & 0x7f) as jlong << 14) == v & 0x1f_ffff
  {}

  lemma Bits64At21(v: jlong)
    ensures var b: byte := if (v >> 21) < 0x80 then ((v >> 21) & 0x7f) as byte else (((v >> 21) & 0x7f) | 0x80) as byte;
      (v >> 21) < 0x80 ==> b < 0x80 && (v & 0x1f_ffff) | ((b & 0x7f) as jlong << 21) == v
    ensures var b: byte := if (v >> 21) < 0x80 then ((v >> 21) & 0x7f) as byte else (((v >> 21) & 0x7f) | 0x80) as byte;
      !((v >> 21) < 0x80) ==> b >= 0x80 && (v & 0x1f_ffff) | ((b & 0x7f) as jlong << 21) == v & 0xfff_ffff
  {}

  lemma Bits64At28(v: jlong)
    ensures var b: byte := if (v >> 28) < 0x80 then ((v >> 28) & 0x7f) as byte else (((v >> 28) & 0x7f) | 0x80) as byte;
      (v >> 28) < 0x80 ==> b < 0x80 && (v & 0xfff_ffff) | ((b & 0x7f) as jlong << 28) == v
    ensures var b: byte := if (v >> 28) < 0x80 then ((v >> 28) & 0x7f) as byte else (((v >> 28) & 0x7f) | 0x80) as byte;
      !((v >> 28) < 0x80) ==> b >= 0x80 && (v & 0xfff_ffff) | ((b & 0x7f) as jlong << 28) == v & 0x7_ffff_ffff
  {}

  lemma Bits64At35(v: jlong)
    ensures var b: byte := if (v >> 35) < 0x80 then ((v >> 35) & 0x7f) as byte else (((v >> 35) & 0x7f) | 0x80) as byte;
      (v >> 35) < 0x80 ==> b < 0x80 && (v & 0x7_ffff_ffff) | ((b & 0x7f) as jlong << 35) == v
    ensures var b: byte := if (v >> 35) < 0x80 then ((v >> 35) & 0x7f) as byte else (((v >> 35) & 0x7f) | 0x80) as byte;
      !((v >> 35) < 0x80) ==> b >= 0x80 && (v & 0x7_ffff_ffff) | ((b & 0x7f) as jlong << 35) == v & 0x3ff_ffff_ffff
  {}

  lemma Bits64At42(v: jlong)
    ensures var b: byte := if (v >> 42) < 0x80 then ((v >> 42) & 0x7f) as byte else (((v >> 42) & 0x7f) | 0x80) as byte;
      (v >> 42) < 0x80 ==> b < 0x80 && (v & 0x3ff_ffff_ffff) | ((b & 0x7f) as jlong << 42) == v
    ensures var b: byte := if (v >> 42) < 0x80 then ((v >> 42) & 0x7f) as byte else (((v >> 42) & 0x7f) | 0x80) as byte;
      !((v >> 42) < 0x80) ==> b >= 0x80 && (v & 0x3ff_ffff_ffff) | ((b & 0x7f) as jlong << 42) == v & 0x1_ffff_ffff_ffff
  {}

  lemma Bits64At49(v: jlong)
    ensures var b: byte := if (v >> 49) < 0x80 then ((v >> 49) & 0x7f) as byte else (((v >> 49) & 0x7f) | 0x80) as byte;
      (v >> 49) < 0x80 ==> b < 0x80 && (v & 0x1_ffff_ffff_ffff) | ((b & 0x7f) as jlong << 49) == v
    ensures var b: byte := if (v >> 49) < 0x80 then ((v >> 49) & 0x7f) as byte else (((v >> 49) & 0x7f) | 0x80) as byte;
      !((v >> 49) < 0x80) ==> b >= 0x80 && (v & 0x1_ffff_ffff_ffff) | ((b & 0x7f) as jlong << 49) == v & 0xff_ffff_ffff_ffff
  {}

  lemma Bits64At56(v: jlong)
    ensures (v & 0xff_ffff_ffff_ffff) | (((v >> 56) & 0xff) as byte as jlong << 56) == v
  {}

  lemma GroupTop64(v: jlong)
    ensures Low64(v, 56) | (GroupOut64(v, 56) as jlong << 56) == v
  {
    Bits64At56(v);
  }

  lemma StepTop64(d: seq<byte>, p: int, lim: int, v: jlong)
    requires InBuffer(d, p, lim) && p < lim && d[p] == GroupOut64(v, 56)
    ensures VarlongFrom(d, p, lim, 56, Low64(v, 56)) == Ok(Parsed(v, p + 1))
  {
    GroupTop64(v);
    DecodeTop64(d, p, lim, Low64(v, 56));
  }

  lemma Reads64At56(d: seq<byte>, p: int, lim: int, v: jlong)
    requires InBuffer(d, p, lim) && Holds64(d, p, lim, v, 56)
    ensures ReadsBack64(d, p, lim, v, 56)
  {
    EncodeLast64(v, 56);
    WrittenHead(d, p, lim, EncodeVarlongFrom(v, 56));
    StepTop64(d, p, lim, v);
  }

  lemma GroupLast64At49(v: jlong)
    requires LastGroup64(v, 49)
    ensures var b := GroupOut64(v, 49);
      b < 0x80 && Low64(v, 49) | ShiftLong(Payload64(b), 49) == v
  {
    Bits64At49(v);
  }

  lemma StepLast64At49(d: seq<byte>, p: int, lim: int, v: jlong)
    requires InBuffer(d, p, lim) && LastGroup64(v, 49) && p < lim && d[p] == GroupOut64(v, 49)
    ensures VarlongFrom(d, p, lim, 49, Low64(v, 49)) == Ok(Parsed(v, p + 1))
  {
    GroupLast64At49(v);
    DecodeLast64(d, p, lim, 49, Low64(v, 49));
  }

  lemma GroupNext64At49(v: jlong)
    requires !LastGroup64(v, 49)
    ensures var b := GroupOut64(v, 49);
      b >= 0x80 && Low64(v, 49) | ShiftLong(Payload64(b), 49) == Low64(v, 56)
  {
    Bits64At49(v);
  }

  lemma StepNext64At49(d: seq<byte>, p: int, lim: int, v: jlong)
    requires InBuffer(d, p, lim) && !LastGroup64(v, 49) && p < lim && d[p] == GroupOut64(v, 49)
    ensures VarlongFrom(d, p, lim, 49, Low64(v, 49)) == VarlongFrom(d, p + 1, lim, 56, Low64(v, 56))
  {
    GroupNext64At49(v);
    DecodeNext64(d, p, lim, 49, Low64(v, 49));
  }

  lemma Reads64At49(d: seq<byte>, p: int, lim: int, v: jlong)
    requires InBuffer(d, p, lim) && Holds64(d, p, lim, v, 49)
    ensures ReadsBack64(d, p, lim, v, 49)
  {
    if LastGroup64(v, 49) {
      EncodeLast64(v, 49);
      WrittenHead(d, p, lim, EncodeVarlongFrom(v, 49));
      StepLast64At49(d, p, lim, v);
    } else {
      NextGroupHolds64(d, p, lim, v, 49);
      Reads64At56(d, p + 1, lim, v);
      StepNext64At49(d, p, lim, v);
    }
  }

  lemma GroupLast64At42(v: jlong)
    requires LastGroup64(v, 42)
    ensures var b := GroupOut64(v, 42);
      b < 0x80 && Low64(v, 42) | ShiftLong(Payload64(b), 42) == v
  {
    Bits64At42(v);
  }

  lemma StepLast64At42(d: seq<byte>, p: int, lim: int, v: jlong)
    requires InBuffer(d, p, lim) && LastGroup64(v, 42) && p < lim && d[p] == GroupOut64(v, 42)
    ensures VarlongFrom(d, p, lim, 42, Low64(v, 42)) == Ok(Parsed(v, p + 1))
  {
    GroupLast64At42(v);
    DecodeLast64(d, p, lim, 42, Low64(v, 42));
  }

  lemma GroupNext64At42(v: jlong)
    requires !LastGroup64(v, 42)
    ensures var b := GroupOut64(v, 42);
      b >= 0x80 && Low64(v, 42) | ShiftLong(Payload64(b), 42) == Low64(v, 49)
  {
    Bits64At42(v);
  }

  lemma StepNext64At42(d: seq<byte>, p: int, lim: int, v: jlong)
    requires InBuffer(d, p, lim) && !LastGroup64(v, 42) && p < lim && d[p] == GroupOut64(v, 42)
    ensures VarlongFrom(d, p, lim, 42, Low64(v, 42)) == VarlongFrom(d, p + 1, lim, 49, Low64(v, 49))
  {
    GroupNext64At42(v);
    DecodeNext64(d, p, lim, 42, Low64(v, 42));
  }

  lemma Reads64At42(d: seq<byte>, p: int, lim: int, v: jlong)
    requires InBuffer(d, p, lim) && Holds64(d, p, lim, v, 42)
    ensures ReadsBack64(d, p, lim, v, 42)
  {
    if LastGroup64(v, 42) {
      EncodeLast64(v, 42);
      WrittenHead(d, p, lim, EncodeVarlongFrom(v, 42));
      StepLast64At42(d, p, lim, v);
    } else {
      NextGroupHolds64(d, p, lim, v, 42);
      Reads64At49(d, p + 1, lim, v);
      StepNext64At42(d, p, lim, v);
    }
  }

  lemma GroupLast64At35(v: jlong)
    requires LastGroup64(v, 35)
    ensures var b := GroupOut64(v, 35);
      b < 0x80 && Low64(v, 35) | ShiftLong(Payload64(b), 35) == v
  {
    Bits64At35(v);
  }

  lemma StepLast64At35(d: seq<byte>, p: int, lim: int, v: jlong)
    requires InBuffer(d, p, lim) && LastGroup64(v, 35) && p < lim && d[p] == GroupOut64(v, 35)
    ensures VarlongFrom(d, p, lim, 35, Low64(v, 35)) == Ok(Parsed(v, p + 1))
  {
    GroupLast64At35(v);
    DecodeLast64(d, p, lim, 35, Low64(v, 35));
  }

  lemma GroupNext64At35(v: jlong)
    requires !LastGroup64(v, 35)
    ensures var b := GroupOut64(v, 35);
      b >= 0x80 && Low64(v, 35) | ShiftLong(Payload64(b), 35) == Low64(v, 42)
  {
    Bits64At35(v);
  }

  lemma StepNext64At35(d: seq<byte>, p: int, lim: int, v: jlong)
    requires InBuffer(d, p, lim) && !LastGroup64(v, 35) && p < lim && d[p] == GroupOut64(v, 35)
    ensures VarlongFrom(d, p, lim, 35, Low64(v, 35)) == VarlongFrom(d, p + 1, lim, 42, Low64(v, 42))
  {
    GroupNext64At35(v);
    DecodeNext64(d, p, lim, 35, Low64(v, 35));
  }

  lemma Reads64At35(d: seq<byte>, p: int, lim: int, v: jlong)
    requires InBuffer(d, p, lim) && Holds64(d, p, lim, v, 35)
    ensures ReadsBack64(d, p, lim, v, 35)
  {
    if LastGroup64(v, 35) {
      EncodeLast64(v, 35);
      WrittenHead(d, p, lim, EncodeVarlongFrom(v, 35));
      StepLast64At35(d, p, lim, v);
    } else {
      NextGroupHolds64(d, p, lim, v, 35);
      Reads64At42(d, p + 1, lim, v);
      StepNext64At35(d, p, lim, v);
    }
  }

  lemma GroupLast64At28(v: jlong)
    requires LastGroup64(v, 28)
    ensures var b := GroupOut64(v, 28);
      b < 0x80 && Low64(v, 28) | ShiftLong(Payload64(b), 28) == v
  {
    Bits64At28(v);
  }

  lemma StepLast64At28(d: seq<byte>, p: int, lim: int, v: jlong)
    requires InBuffer(d, p, lim) && LastGroup64(v, 28) && p < lim && d[p] == GroupOut64(v, 28)
    ensures VarlongFrom(d, p, lim, 28, Low64(v, 28)) == Ok(Parsed(v, p + 1))
  {
    GroupLast64At28(v);
    DecodeLast64(d, p, lim, 28, Low64(v, 28));
  }

  lemma GroupNext64At28(v: jlong)
    requires !LastGroup64(v, 28)
    ensures var b := GroupOut64(v, 28);
      b >= 0x80 && Low64(v, 28) | ShiftLong(Payload64(b), 28) == Low64(v, 35)
  {
    Bits64At28(v);
  }

  lemma StepNext64At28(d: seq<byte>, p: int, lim: int, v: jlong)
    requires InBuffer(d, p, lim) && !LastGroup64(v, 28) && p < lim && d[p] == GroupOut64(v, 28)
    ensures VarlongFrom(d, p, lim, 28, Low64(v, 28)) == VarlongFrom(d, p + 1, lim, 35, Low64(v, 35))
  {
    GroupNext64At28(v);
    DecodeNext64(d, p, lim, 28, Low64(v, 28));
  }

  lemma Reads64At28(d: seq<byte>, p: int, lim: int, v: jlong)
    requires InBuffer(d, p, lim) && Holds64(d, p, lim, v, 28)
    ensures ReadsBack64(d, p, lim, v, 28)
  {
    if LastGroup64(v, 28) {
      EncodeLast64(v, 28);
      WrittenHead(d, p, lim, EncodeVarlongFrom(v, 28));
      StepLast64At28(d, p, lim, v);
    } else {
      NextGroupHolds64(d, p, lim, v, 28);
      Reads64At35(d, p + 1, lim, v);
      StepNext64At28(d, p, lim, v);
    }
  }

  lemma GroupLast64At21(v: jlong)
    requires LastGroup64(v, 21)
    ensures var b := GroupOut64(v, 21);
      b < 0x80 && Low64(v, 21) | ShiftLong(Payload64(b), 21) == v
  {
    Bits64At21(v);
  }

  lemma StepLast64At21(d: seq<byte>, p: int, lim: int, v: jlong)
    requires InBuffer(d, p, lim) && LastGroup64(v, 21) && p < lim && d[p] == GroupOut64(v, 21)
    ensures VarlongFrom(d, p, lim, 21, Low64(v, 21)) == Ok(Parsed(v, p + 1))
  {
    GroupLast64At21(v);
    DecodeLast64(d, p, lim, 21, Low64(v, 21));
  }

  lemma GroupNext64At21(v: jlong)
    requires !LastGroup64(v, 21)
    ensures var b := GroupOut64(v, 21);
      b >= 0x80 && Low64(v, 21) | ShiftLong(Payload64(b), 21) == Low64(v, 28)
  {
    Bits64At21(v);
  }

  lemma StepNext64At21(d: seq<byte>, p: int, lim: int, v: jlong)
    requires InBuffer(d, p, lim) && !LastGroup64(v, 21) && p < lim && d[p] == GroupOut64(v, 21)
    ensures VarlongFrom(d, p, lim, 21, Low64(v, 21)) == VarlongFrom(d, p + 1, lim, 28, Low64(v, 28))
  {
    GroupNext64At21(v);
    DecodeNext64(d, p, lim, 21, Low64(v, 21));
  }

  lemma Reads64At21(d: seq<byte>, p: int, lim: int, v: jlong)
    requires InBuffer(d, p, lim) && Holds64(d, p, lim, v, 21)
    ensures ReadsBack64(d, p, lim, v, 21)
  {
    if LastGroup64(v, 21) {
      EncodeLast64(v, 21);
      WrittenHead(d, p, lim, EncodeVarlongFrom(v, 21));
      StepLast64At21(d, p, lim, v);
    } else {
      NextGroupHolds64(d, p, lim, v, 21);
      Reads64At28(d, p + 1, lim, v);
      StepNext64At21(d, p, lim, v);
    }
  }

  lemma GroupLast64At14(v: jlong)
    requires LastGroup64(v, 14)
    ensures var b := GroupOut64(v, 14);
      b < 0x80 && Low64(v, 14) | ShiftLong(Payload64(b), 14) == v
  {
    Bits64At14(v);
  }

  lemma StepLast64At14(d: seq<byte>, p: int, lim: int, v: jlong)
    requires InBuffer(d, p, lim) && LastGroup64(v, 14) && p < lim && d[p] == GroupOut64(v, 14)
    ensures VarlongFrom(d, p, lim, 14, Low64(v, 14)) == Ok(Parsed(v, p + 1))
  {
    GroupLast64At14(v);
    DecodeLast64(d, p, lim, 14, Low64(v, 14));
  }

  lemma GroupNext64At14(v: jlong)
    requires !LastGroup64(v, 14)
    ensures var b := GroupOut64(v, 14);
      b >= 0x80 && Low64(v, 14) | ShiftLong(Payload64(b), 14) == Low64(v, 21)
  {
    Bits64At14(v);
  }

  lemma StepNext64At14(d: seq<byte>, p: int, lim: int, v: jlong)
    requires InBuffer(d, p, lim) && !LastGroup64(v, 14) && p < lim && d[p] == GroupOut64(v, 14)
    ensures VarlongFrom(d, p, lim, 14, Low64(v, 14)) == VarlongFrom(d, p + 1, lim, 21, Low64(v, 21))
  {
    GroupNext64At14(v);
    DecodeNext64(d, p, lim, 14, Low64(v, 14));
  }

  lemma Reads64At14(d: seq<byte>, p: int, lim: int, v: jlong)
    requires InBuffer(d, p, lim) && Holds64(d, p, lim, v, 14)
    ensures ReadsBack64(d, p, lim, v, 14)
  {
    if LastGroup64(v, 14) {
      EncodeLast64(v, 14);
      WrittenHead(d, p, lim, EncodeVarlongFrom(v, 14));
      StepLast64At14(d, p, lim, v);
    } else {
      NextGroupHolds64(d, p, lim, v, 14);
      Reads64At21(d, p + 1, lim, v);
      StepNext64At14(d, p, lim, v);
    }
  }

  lemma GroupLast64At7(v: jlong)
    requires LastGroup64(v, 7)
    ensures var b := GroupOut64(v, 7);
      b < 0x80 && Low64(v, 7) | ShiftLong(Payload64(b), 7) == v
  {
    Bits64At7(v);
  }

  lemma StepLast64At7(d: seq<byte>, p: int, lim: int, v: jlong)
    requires InBuffer(d, p, lim) && LastGroup64(v, 7) && p < lim && d[p] == GroupOut64(v, 7)
    ensures VarlongFrom(d, p, lim, 7, Low64(v, 7)) == Ok(Parsed(v, p + 1))
  {
    GroupLast64At7(v);
    DecodeLast64(d, p, lim, 7, Low64(v, 7));
  }

  lemma GroupNext64At7(v: jlong)
    requires !LastGroup64(v, 7)
    ensures var b := GroupOut64(v, 7);
      b >= 0x80 && Low64(v, 7) | ShiftLong(Payload64(b), 7) == Low64(v, 14)
  {
    Bits64At7(v);
  }

  lemma StepNext64At7(d: seq<byte>, p: int, lim: int, v: jlong)
    requires InBuffer(d, p, lim) && !LastGroup64(v, 7) && p < lim && d[p] == GroupOut64(v, 7)
    ensures VarlongFrom(d, p, lim, 7, Low64(v, 7)) == VarlongFrom(d, p + 1, lim, 14, Low64(v, 14))
  {
    GroupNext64At7(v);
    DecodeNext64(d, p, lim, 7, Low64(v, 7));
  }

  lemma Reads64At7(d: seq<byte>, p: int, lim: int, v: jlong)
    requires InBuffer(d, p, lim) && Holds64(d, p, lim, v, 7)
    ensures ReadsBack64(d, p, lim, v, 7)
  {
    if LastGroup64(v, 7) {
      EncodeLast64(v, 7);
      WrittenHead(d, p, lim, EncodeVarlongFrom(v, 7));
      StepLast64At7(d, p, lim, v);
    } else {
      NextGroupHolds64(d, p, lim, v, 7);
      Reads64At14(d, p + 1, lim, v);
      StepNext64At7(d, p, lim, v);
    }
  }

  lemma GroupLast64At0(v: jlong)
    requires LastGroup64(v, 0)
    ensures var b := GroupOut64(v, 0);
      b < 0x80 && Low64(v, 0) | ShiftLong(Payload64(b), 0) == v
  {
    Bits64At0(v);
  }

  lemma StepLast64At0(d: seq<byte>, p: int, lim: int, v: jlong)
    requires InBuffer(d, p, lim) && LastGroup64(v, 0) && p < lim && d[p] == GroupOut64(v, 0)
    ensures VarlongFrom(d, p, lim, 0, Low64(v, 0)) == Ok(Parsed(v, p + 1))
  {
    GroupLast64At0(v);
    DecodeLast64(d, p, lim, 0, Low64(v, 0));
  }

  lemma GroupNext64At0(v: jlong)
    requires !LastGroup64(v, 0)
    ensures var b := GroupOut64(v, 0);
      b >= 0x80 && Low64(v, 0) | ShiftLong(Payload64(b), 0) == Low64(v, 7)
  {
    Bits64At0(v);
  }

  lemma StepNext64At0(d: seq<byte>, p: int, lim: int, v: jlong)
    requires InBuffer(d, p, lim) && !LastGroup64(v, 0) && p < lim && d[p] == GroupOut64(v, 0)
    ensures VarlongFrom(d, p, lim, 0, Low64(v, 0)) == VarlongFrom(d, p + 1, lim, 7, Low64(v, 7))
  {
    GroupNext64At0(v);
    DecodeNext64(d, p, lim, 0, Low64(v, 0));
  }

  lemma Reads64At0(d: seq<byte>, p: int, lim: int, v: jlong)
    requires InBuffer(d, p, lim) && Holds64(d, p, lim, v, 0)
    ensures ReadsBack64(d, p, lim, v, 0)
  {
    if LastGroup64(v, 0) {
      EncodeLast64(v, 0);
      WrittenHead(d, p, lim, EncodeVarlongFrom(v, 0));
      StepLast64At0(d, p, lim, v);
    } else {
      NextGroupHolds64(d, p, lim, v, 0);
      Reads64At7(d, p + 1, lim, v);
      StepNext64At0(d, p, lim, v);
    }
  }

  /** getVarlong reads back every long value the encoder writes, consuming
      exactly the encoded bytes. */
  lemma VarlongRoundTrip(d: seq<byte>, p: int, lim: int, v: jlong)
    requires InBuffer(d, p, lim)
    requires Written(d, p, lim, EncodeVarlong(v))
    ensures Varlong(d, p, lim) == Ok(Parsed(v, p + |EncodeVarlong(v)|))
  {
    Reads64At0(d, p, lim, v);
  }

  lemma {:induction false} VarlongFromStops(d: seq<byte>, p: int, lim: int, shift: int, acc: jlong)
    requires InBuffer(d, p, lim) && LongShift(shift)
    ensures var r := VarlongFrom(d, p, lim, shift, acc);
      && (r.Ok? ==> p < r.value.next <= p + (56 - shift) / 7 + 1
                    && (r.value.next < p + (56 - shift) / 7 + 1 ==> d[r.value.next - 1] < 0x80)
                    && forall k :: p <= k < r.value.next - 1 ==> d[k] >= 0x80)
      && (r.Err? ==> r.error == BufferUnderflow && lim < p + (56 - shift) / 7 + 1
                     && forall k :: p <= k < lim ==> d[k] >= 0x80)
    decreases 56 - shift
  {
    if p < lim && shift != 56 && d[p] >= 0x80 {
      VarlongFromStops(d, p + 1, lim, shift + 7, acc | ShiftLong(Payload64(d[p]), shift));
    }
  }

  /** getVarlong never consumes more than 9 bytes: it stops after the first
      byte whose high bit is clear, or after the ninth byte when the first eight
      all had it set; it fails with BufferUnderflow exactly when the limit comes
      first. */
  lemma VarlongLength(d: seq<byte>, p: int, lim: int)
    requires InBuffer(d, p, lim)
    ensures var r := Varlong(d, p, lim);
      && (r.Ok? ==> p < r.value.next <= p + 9
                    && (r.value.next < p + 9 ==> d[r.value.next - 1] < 0x80)
                    && forall k :: p <= k < r.value.next - 1 ==> d[k] >= 0x80)
      && (r.Err? ==> r.error == BufferUnderflow && lim < p + 9
                     && forall k :: p <= k < lim ==> d[k] >= 0x80)
  {
    VarlongFromStops(d, p, lim, 0, 0);
  }
}
