# JfrReader, modelled in Dafny

This project models the reader of async-profiler's JFR (Java Flight Recorder)
output, `one.jfr.JfrReader`.

The reader maps a recording file into a byte buffer. The constructor walks the
file chunk by chunk. For every chunk it does four things:

- checks the chunk header's magic and version;
- reads the metadata section, a string table followed by a tree of elements;
- registers every `class` element under its id and its name;
- reads the linked list of constant pools into the thread, class, symbol,
  method, stack trace, frame type and thread state tables.

The constructor then records the recording's start, duration and tick rate and
looks up the ids of six event types. `readEvent` walks the event records of
each chunk. It returns execution samples, allocation samples and contended
locks, and skips any other record by its size. `readAllEvents` collects these
events and sorts them by time.

The model has two layers.

- **Pure decoders.** The modules `Wire`, `Varints`, `Codec`, `Records`,
  `Stream`, `Meta`, `Pools` and `Chunks` describe each decoder as a function
  over the bytes `d`, a position `p` and a limit `lim`. Each returns the value
  read and the position after it, or the Java exception it raises (`Result`,
  `Parsed`).
  - Encoders stand beside the decoders, with round-trip lemmas: varints,
    varlongs, byte arrays, the five string forms, big-endian ints and longs,
    and the three event records.
  - The modules `MetaWriter` and `PoolWriter` write the metadata section
    (header, string table, element heads) and each constant pool entry and
    list (threads, classes, methods, symbols, stack traces and frames, maps,
    constants of other types, the pool header). Their lemmas show that the
    decoders read back what was written.
  - Other lemmas state the error cases and the invariants of the tables.
- **The reader class.** The module `Reader` holds the class `JfrReader`. It
  has the buffer, the cursor (`pos`, `lim`), the type tables (`types`,
  `typesByName`), the constant tables and the constructor's fields. Each
  method updates them step by step, with loops where the source has loops.
  Each method is proved to return, and leave, exactly what the matching
  function describes.

Java values are written out explicitly:

- `int` is `bv32` and `long` is `bv64` (`jint`, `jlong`), with `Int32`/`Long`
  giving the two's-complement value.
- Java int arithmetic wraps through `Wrap32`.
- A Java `String` is `JStr`: `Null`, or a sequence of UTF-16 code units.

## Model

| member | source | states |
|---|---|---|
| Wire.Wrap32 | src/converter/one/jfr/JfrReader.java:191 | Java int addition and the `(int)` cast: the result is an int, congruent to the exact value modulo 2^32, and equal to it when that is already an int |
| Wire.Get | src/converter/one/jfr/JfrReader.java:415 | `buf.get()`: never moves back nor past the limit (its value and its BufferUnderflow at the limit are stated by VarintLength and GetStringTags) |
| Wire.VarintFrom | src/converter/one/jfr/JfrReader.java:414-420 | getVarint's loop from a given shift and partial result: when it succeeds it consumes at least one byte and stays within the limit |
| Wire.Varint | src/converter/one/jfr/JfrReader.java:412-421 | getVarint: succeeds only by consuming at least one byte, within the limit |
| Wire.ShiftIntIsShift | src/converter/one/jfr/JfrReader.java:416 | the unrolled shift equals Java's `x << shift` on an int (shift taken modulo 32) |
| Wire.VarlongFrom | src/converter/one/jfr/JfrReader.java:425-432 | getVarlong's loop from a given shift: stays within the limit |
| Wire.Varlong | src/converter/one/jfr/JfrReader.java:423-433 | getVarlong: succeeds only by consuming at least one byte, within the limit |
| Wire.ShiftLongIsShift | src/converter/one/jfr/JfrReader.java:427 | the unrolled shift equals Java's `x << shift` on a long for every shift the loop reaches |
| Wire.GetBytes | src/converter/one/jfr/JfrReader.java:457-461 | getBytes stays within the limit; GetBytesAfterLength and GetBytesRoundTrip state what it returns |
| Wire.Latin1 | src/converter/one/jfr/JfrReader.java:451 | ISO-8859-1 decoding gives one code unit per byte |
| Wire.GetChar | src/converter/one/jfr/JfrReader.java:446 | `(char) getVarint()`: one code unit, within the limit |
| Wire.CharsFrom | src/converter/one/jfr/JfrReader.java:445-447 | the tag-4 loop appends exactly n code units to what was read so far |
| Wire.CountedChars | src/converter/one/jfr/JfrReader.java:444-448 | `new char[count]` and its loop stay within the limit |
| Wire.GetChars | src/converter/one/jfr/JfrReader.java:443-449 | the tag-4 string stays within the limit; GetCharsAfterCount and GetCharsRoundTrip state what it returns |
| Wire.GetString | src/converter/one/jfr/JfrReader.java:435-455 | getString's switch on the tag byte, within the limit |
| Varints.EncodeVarint | src/converter/one/jfr/JfrReader.java:412-421 | the encoding getVarint inverts: 1 to 5 bytes of 7-bit groups |
| Varints.DecodeLast32 | src/converter/one/jfr/JfrReader.java:417-419 | a byte without its high bit ends getVarint with the group or-ed in at the current shift |
| Varints.DecodeNext32 | src/converter/one/jfr/JfrReader.java:414-420 | a byte with its high bit set continues the loop at shift + 7 |
| Varints.VarintRoundTrip | src/converter/one/jfr/JfrReader.java:412-421 | getVarint reads back every int written by EncodeVarint, and stops just after its last byte |
| Varints.VarintFromStops | src/converter/one/jfr/JfrReader.java:414-420 | the loop stops at the first byte without its high bit; it fails with BufferUnderflow exactly when every byte up to the limit has it |
| Varints.VarintLength | src/converter/one/jfr/JfrReader.java:412-421 | getVarint consumes up to and including the first byte below 0x80, and fails only when there is none before the limit |
| Varints.EncodeVarlong | src/converter/one/jfr/JfrReader.java:423-433 | the encoding getVarlong inverts: 1 to 9 bytes, the ninth carrying 8 bits |
| Varints.DecodeLast64 | src/converter/one/jfr/JfrReader.java:428-430 | before the ninth byte, a byte without its high bit ends getVarlong |
| Varints.DecodeNext64 | src/converter/one/jfr/JfrReader.java:425-431 | before the ninth byte, a byte with its high bit set continues at shift + 7 |
| Varints.DecodeStep64 | src/converter/one/jfr/JfrReader.java:425-431 | one turn of getVarlong's loop, in both cases |
| Varints.DecodeTop64 | src/converter/one/jfr/JfrReader.java:432 | the ninth byte is taken whole, shifted by 56 |
| Varints.VarlongRoundTrip | src/converter/one/jfr/JfrReader.java:423-433 | getVarlong reads back every long written by EncodeVarlong, and stops just after it |
| Varints.VarlongFromStops | src/converter/one/jfr/JfrReader.java:425-432 | the loop consumes at most (56 - shift) / 7 + 1 bytes, stops at the first byte below 0x80 or at the ninth, and fails only when the limit comes first |
| Varints.VarlongLength | src/converter/one/jfr/JfrReader.java:423-433 | getVarlong consumes 1 to 9 bytes, ending at the first byte below 0x80 unless it reads all nine |
| Codec.EncodeBytes | src/converter/one/jfr/JfrReader.java:457-461 | the encoding getBytes inverts: the length varint, then the bytes |
| Codec.GetBytesAfterLength | src/converter/one/jfr/JfrReader.java:458-459 | after the length varint, getBytes returns the next `length` bytes |
| Codec.GetBytesRoundTrip | src/converter/one/jfr/JfrReader.java:457-461 | getBytes reads back every byte array written by EncodeBytes |
| Codec.EncodeChars | src/converter/one/jfr/JfrReader.java:445-447 | one varint per code unit, 1 to 3 bytes each |
| Codec.EncodeString | src/converter/one/jfr/JfrReader.java:435-455 | the encoding of each of getString's five forms: a tag byte, then the form's body |
| Codec.Latin1Units | src/converter/one/jfr/JfrReader.java:451 | ISO-8859-1 decoding maps each byte to the code unit of the same value |
| Codec.CharBits | src/converter/one/jfr/JfrReader.java:446 | the `(char)` cast of an int holding a code unit gives that code unit back |
| Codec.GetCharOf | src/converter/one/jfr/JfrReader.java:446 | a varint holding a code unit is read back as that code unit |
| Codec.CharsStep | src/converter/one/jfr/JfrReader.java:445-447 | one turn of the tag-4 loop appends the char read and counts one down |
| Codec.CharsRoundTrip | src/converter/one/jfr/JfrReader.java:445-447 | the tag-4 loop reads back every code unit sequence written by EncodeChars |
| Codec.GetCharsAfterCount | src/converter/one/jfr/JfrReader.java:444 | after a non-negative count, the tag-4 body is the loop over that many chars |
| Codec.GetCharsRoundTrip | src/converter/one/jfr/JfrReader.java:443-449 | the tag-4 body reads back its count and its code units |
| Codec.GetStringTag3 | src/converter/one/jfr/JfrReader.java:441-442 | tag 3 is the UTF-8 decoding of the byte array that follows |
| Codec.GetStringTag4 | src/converter/one/jfr/JfrReader.java:443-449 | tag 4 is the code unit array that follows |
| Codec.GetStringTag5 | src/converter/one/jfr/JfrReader.java:450-451 | tag 5 is the ISO-8859-1 decoding of the byte array that follows |
| Codec.GetShortRoundTrip | src/converter/one/jfr/JfrReader.java:437-440 | tag 0 reads back null and tag 1 the empty string |
| Codec.Utf8StringRoundTrip | src/converter/one/jfr/JfrReader.java:441-442 | a written UTF-8 string is read back as the decoding of its bytes |
| Codec.CharsStringRoundTrip | src/converter/one/jfr/JfrReader.java:443-449 | a written char-array string is read back exactly |
| Codec.Latin1StringRoundTrip | src/converter/one/jfr/JfrReader.java:450-451 | a written Latin-1 string is read back as the decoding of its bytes |
| Codec.GetStringRoundTrip | src/converter/one/jfr/JfrReader.java:435-455 | getString reads back every string form EncodeString writes, and stops just after it |
| Codec.GetUtf8RoundTrip | src/converter/one/jfr/JfrReader.java:441-442 | a tag-3 string written by EncodeString is read back as its decoding |
| Codec.GetCharsFormRoundTrip | src/converter/one/jfr/JfrReader.java:443-449 | a tag-4 string written by EncodeString is read back exactly |
| Codec.GetLatin1RoundTrip | src/converter/one/jfr/JfrReader.java:450-451 | a tag-5 string written by EncodeString is read back as its Latin-1 decoding |
| Codec.ReadTag | src/converter/one/jfr/JfrReader.java:436 | the tag byte of a written string is read first and the rest follows it |
| Codec.GetStringTags | src/converter/one/jfr/JfrReader.java:436-454 | getString's error cases and short forms: BufferUnderflow at the limit, null for tag 0, "" for tag 1, InvalidStringEncoding for a tag other than 0, 1, 3, 4 and 5 |
| Codec.EncodeInt | src/converter/one/jfr/JfrReader.java:182 | the four big-endian bytes `buf.getInt` reads |
| Codec.EncodeLong | src/converter/one/jfr/JfrReader.java:197 | the eight big-endian bytes `buf.getLong` reads |
| Codec.GetIntRoundTrip | src/converter/one/jfr/JfrReader.java:182 | `buf.getInt(index)` reads back the int whose big-endian bytes stand at index |
| Codec.GetLongRoundTrip | src/converter/one/jfr/JfrReader.java:197 | `buf.getLong(index)` reads back the long whose big-endian bytes stand at index |
| Records.ExecutionSampleAt | src/converter/one/jfr/JfrReader.java:141-147 | readExecutionSample makes an ExecutionSample from at least 4 bytes |
| Records.VarlongIf | src/converter/one/jfr/JfrReader.java:155 | `tlab ? getVarlong() : 0`: without the flag, 0 and nothing consumed |
| Records.AllocationSampleAt | src/converter/one/jfr/JfrReader.java:149-157 | readAllocationSample makes an AllocationSample from at least 5 bytes, with tlabSize 0 when tlab is false |
| Records.ContendedLockAt | src/converter/one/jfr/JfrReader.java:159-168 | readContendedLock makes a ContendedLock from at least 6 bytes |
| Records.LockEnd | src/converter/one/jfr/JfrReader.java:165-166 | the optional timeout and the address, within the limit |
| Records.EncodeExecutionSample | src/converter/one/jfr/JfrReader.java:141-147 | the record readExecutionSample inverts: 4 to 24 bytes |
| Records.EncodeAllocationSample | src/converter/one/jfr/JfrReader.java:149-157 | the record readAllocationSample inverts: 5 to 42 bytes |
| Records.EncodeContendedLock | src/converter/one/jfr/JfrReader.java:159-168 | the record readContendedLock inverts: 6 to 51 bytes |
| Records.ExecutionSampleReads | src/converter/one/jfr/JfrReader.java:141-147 | the event is made of the four fields in the order read |
| Records.ExecutionSampleRoundTrip | src/converter/one/jfr/JfrReader.java:141-147 | every execution sample written is read back, ending just after its record |
| Records.VarlongIfRoundTrip | src/converter/one/jfr/JfrReader.java:155 | the optional TLAB size is read back when present, and 0 otherwise |
| Records.AllocationSampleReads | src/converter/one/jfr/JfrReader.java:149-157 | the event is made of the six fields in the order read |
| Records.AllocationSampleRoundTrip | src/converter/one/jfr/JfrReader.java:149-157 | every allocation sample written is read back, with its TLAB size replaced by 0 when tlab is false |
| Records.LockTail | src/converter/one/jfr/JfrReader.java:165-166 | the timeout, when present, is skipped and the address read |
| Records.ContendedLockReads | src/converter/one/jfr/JfrReader.java:159-168 | the event keeps time, tid, stack trace, duration and class; the timeout and the address are dropped |
| Records.ContendedLockRoundTrip | src/converter/one/jfr/JfrReader.java:159-168 | every contended lock written is read back, whatever timeout and address follow |
| Stream.SetPosition | src/converter/one/jfr/JfrReader.java:136 | `buf.position(p)` succeeds exactly when 0 <= p <= limit, and otherwise raises IllegalArgument |
| Stream.SetLimit | src/converter/one/jfr/JfrReader.java:173-175 | `buf.limit(l)` succeeds exactly when 0 <= l <= capacity, and pulls the position back to l when it lies beyond |
| Stream.ChunkSize | src/converter/one/jfr/JfrReader.java:175 | `(int) buf.getLong(pos + 8)` is an int |
| Stream.MoveToNextChunk | src/converter/one/jfr/JfrReader.java:170-179 | moveToNextChunk leaves a valid buffer |
| Stream.ChunkEnd | src/converter/one/jfr/JfrReader.java:171-176 | the true branch of moveToNextChunk answers true with a valid buffer |
| Stream.MoveToNextChunkMoves | src/converter/one/jfr/JfrReader.java:170-179 | all cases of moveToNextChunk: false and nothing changed when no header fits; otherwise true, with limit = chunk start + chunk size and position past the header (clamped to the limit); IllegalArgument when that limit is outside the buffer |
| Stream.CheckHeaderCases | src/converter/one/jfr/JfrReader.java:182-189 | readChunk's header check: a wrong magic is NotValidJfr; a version outside 2.0 to 2.0xffff is UnsupportedVersion; it succeeds exactly when both hold, giving the version |
| Stream.CheckHeader | src/converter/one/jfr/JfrReader.java:182-189 | a header that passes answers a version between 0x20000 and 0x2ffff; CheckHeaderCases gives the magic and version tests |
| Stream.VersionRejected | src/converter/one/jfr/JfrReader.java:186-189 | a valid magic with an unsupported version raises UnsupportedVersion with that version |
| Stream.HeaderAccepted | src/converter/one/jfr/JfrReader.java:182-189 | the header is accepted exactly for the magic 0x464c5200 and a major version of 2 |
| Stream.RecordOf | src/converter/one/jfr/JfrReader.java:124-134 | a record type is known exactly when it is one of the six looked-up event ids |
| Stream.Body | src/converter/one/jfr/JfrReader.java:125-133 | each known record kind is read as its own event class |
| Stream.HasNext | src/converter/one/jfr/JfrReader.java:119 | the loop condition: true means bytes remain in the chunk or a next chunk was entered; false means the buffer is exhausted and nothing changed |
| Stream.RecordHeader | src/converter/one/jfr/JfrReader.java:121-122 | the size and type varints, within the limit |
| Stream.ReadRecord | src/converter/one/jfr/JfrReader.java:120-136 | one turn of readEvent's loop keeps the limit, and returns a record only if it is of the class asked for |
| Stream.NextRecord | src/converter/one/jfr/JfrReader.java:118-139 | readEvent up to the record it returns: the record is of the class asked for; null only when the last chunk is exhausted |
| Stream.NextEvent | src/converter/one/jfr/JfrReader.java:118-139 | readEvent(cls): the event returned matches cls; null only when the last chunk is exhausted |
| Stream.SkipRecord | src/converter/one/jfr/JfrReader.java:136 | a record that is not returned is skipped to its start plus its size, or raises IllegalArgument when that lies outside the chunk |
| Stream.SkippedTurn | src/converter/one/jfr/JfrReader.java:124-136 | the same skip, for one turn of the loop |
| Stream.KeptAfter | src/converter/one/jfr/JfrReader.java:106-108 | adding an event of the asked class keeps the collected list's invariant |
| Stream.AllEventsKeeps | src/converter/one/jfr/JfrReader.java:104-108 | readAllEvents' list extends what was collected before, and every event added is of the class asked for |
| Stream.AllEvents | src/converter/one/jfr/JfrReader.java:104-108 | readAllEvents' loop keeps the events collected before as the start of its list |
| Stream.NextTurn | src/converter/one/jfr/JfrReader.java:106-108 | one turn of the collecting loop either appends an event of the class asked for and goes on, or ends keeping the invariant |
| Stream.AllEventsNext | src/converter/one/jfr/JfrReader.java:106-107 | an event returned by readEvent is appended and the loop goes on from where readEvent left the buffer |
| Stream.AllEventsStep | src/converter/one/jfr/JfrReader.java:106-108 | one turn of the collecting loop, in all three cases (error, null, event) |
| Stream.InsertKeeps | src/converter/one/jfr/JfrReader.java:109 | insertion adds exactly the one event |
| Stream.InsertBounded | src/converter/one/jfr/JfrReader.java:109 | insertion keeps an upper bound on the times |
| Stream.InsertSorted | src/converter/one/jfr/JfrReader.java:109 | insertion into a time-sorted list keeps it sorted |
| Stream.SortByTimePermutes | src/converter/one/jfr/JfrReader.java:109 | `Collections.sort(events)` is a permutation of the events |
| Stream.SortByTime | src/converter/one/jfr/JfrReader.java:109 | `Collections.sort(events)` keeps the number of events; SortByTimePermutes and SortByTimeSorts give permutation and order |
| Stream.SortByTimeSorts | src/converter/one/jfr/JfrReader.java:109 | `Collections.sort(events)` orders the events by time |
| Meta.ParseInt | src/converter/one/jfr/JfrReader.java:234 | `Integer.parseInt` as the class and field constructors use it: an int, or NumberFormat |
| Meta.ParseDigits | src/converter/one/jfr/JfrReader.java:234 | a non-empty run of decimal digits below 2^31 parses to its value |
| Meta.ParseNegative | src/converter/one/jfr/JfrReader.java:234 | a minus sign before digits up to 2^31 parses to the negative value |
| Meta.ParseIntRoundTrip | src/converter/one/jfr/JfrReader.java:234 | every int's decimal text parses back to it |
| Meta.ToDecimalValue | src/converter/one/jfr/JfrReader.java:234 | the decimal text of a natural number is a non-empty run of digits with that value |
| Meta.ParseIntRejects | src/converter/one/jfr/JfrReader.java:234 | null, the empty string, a lone sign and a non-digit character are rejected |
| Meta.JfrClass.constructor | src/converter/one/jfr/JfrReader.java:234 | a new class has its id, its name and no fields |
| Meta.JfrClass.AddChild | src/converter/one/jfr/JfrReader.java:226 | a field child is appended to the fields; any other child leaves them unchanged |
| Meta.FieldNamed | src/converter/one/jfr/JfrReader.java:276-279 | `type.field(name)`: the field found has that name; none means no field has it; a field with a null name raises NullPointer |
| Meta.Create | src/converter/one/jfr/JfrReader.java:231-246 | createElement fails only with NullPointer (null name) or NumberFormat (an id or type that does not parse) |
| Meta.TypeId | src/converter/one/jfr/JfrReader.java:407-410 | getTypeId: the id registered under the name, or -1 when there is none |
| Meta.CreateRegisters | src/converter/one/jfr/JfrReader.java:233-239 | a class goes into typesByName under its name, and into types under its id only without a superType attribute; other elements register nothing |
| Meta.RegisteredTypeId | src/converter/one/jfr/JfrReader.java:238 | after a class is registered, getTypeId of its name is its id; other names keep -1 |
| Meta.FieldsOf | src/converter/one/jfr/JfrReader.java:225-227 | a class's fields are its field children, in order |
| Meta.RegisterNodeKeys | src/converter/one/jfr/JfrReader.java:214-229 | reading an element tree adds exactly the names of its class elements to typesByName, and exactly the ids of those without a super type to types |
| Meta.RegisterKidsKeys | src/converter/one/jfr/JfrReader.java:224-227 | the same for a list of children |
| Meta.UnknownTypeId | src/converter/one/jfr/JfrReader.java:407-410 | a name no class in the tree carries still has getTypeId -1 |
| Meta.FieldsOfSnoc | src/converter/one/jfr/JfrReader.java:226 | each child read adds its field, if it is one, at the end |
| Meta.RegisterKidsSnoc | src/converter/one/jfr/JfrReader.java:225-227 | registering children one by one is registering the list |
| Meta.DeclareTwice | src/converter/one/jfr/JfrReader.java:236 | `types.put` of the same id again replaces the earlier entry |
| Meta.InfosNodeKeys | src/converter/one/jfr/JfrReader.java:235-237 | the ids in `types` after a tree are those before plus the tree's classes without a super type |
| Meta.InfosKidsKeys | src/converter/one/jfr/JfrReader.java:224-227 | the same for a list of children |
| Meta.InfosKidsSnoc | src/converter/one/jfr/JfrReader.java:225-227 | declaring children one by one is declaring the list, and their ids add up |
| Meta.InfosNodeUpdate | src/converter/one/jfr/JfrReader.java:236 | a `types.put` before a tree is overridden by the tree for the ids it declares, and kept otherwise |
| Meta.InfosKidsUpdate | src/converter/one/jfr/JfrReader.java:236 | the same for a list of children |
| Meta.StringRef | src/converter/one/jfr/JfrReader.java:215 | `strings[getVarint()]`: a string from the table, or IndexOutOfBounds |
| Meta.AttrAt | src/converter/one/jfr/JfrReader.java:220 | one attribute (a key and a value from the string table), within the limit; MetaWriter.AttrRoundTrip gives the pair read |
| Meta.AttrsFrom | src/converter/one/jfr/JfrReader.java:219-221 | the attribute loop keeps every key put so far; MetaWriter.AttrsRoundTrip gives the map built |
| Meta.ElementHead | src/converter/one/jfr/JfrReader.java:215-221 | an element's name and attributes consume at least one byte, within the limit; MetaWriter.ElementHeadRoundTrip gives the name and map read |
| Meta.ElementAt | src/converter/one/jfr/JfrReader.java:214-229 | readElement consumes at least one byte and stays within the limit; MetaWriter.ElementMade and LeafRoundTrip give the node built |
| Meta.ElementFrom | src/converter/one/jfr/JfrReader.java:223-228 | readElement after its head (createElement, then the children), within the limit |
| Meta.ElementBody | src/converter/one/jfr/JfrReader.java:224-228 | the children of a created element; the node keeps that element |
| Meta.ChildrenFrom | src/converter/one/jfr/JfrReader.java:225-227 | the child loop reads exactly `count` children (none when negative) after those already read |
| Meta.StringsFrom | src/converter/one/jfr/JfrReader.java:207-210 | the string table holds exactly n strings after those already read |
| Meta.MetaHeader | src/converter/one/jfr/JfrReader.java:201-205 | the five header fields of the metadata event stay within the limit; MetaWriter.MetaHeaderRoundTrip gives what is consumed |
| Meta.MetaAt | src/converter/one/jfr/JfrReader.java:200-212 | readMeta: the string table and the root element, within the limit; MetaWriter.MetaRoundTrip gives the table and the root |
| Meta.MetaBody | src/converter/one/jfr/JfrReader.java:207-211 | a negative string count is NegativeArraySize; otherwise the table holds exactly that many strings |
| Meta.Register | src/converter/one/jfr/JfrReader.java:233-238 | a class element puts its name into typesByName with its id, keeping every other name, and adds its id to types only without a super type; other elements change nothing |
| Meta.PutAll | src/converter/one/jfr/JfrReader.java:220 | putting entries keeps every key already present |
| Meta.MetaTable | src/converter/one/jfr/JfrReader.java:208-211 | the root element after a string table of n entries, within the limit |
| Meta.ElementRejects | src/converter/one/jfr/JfrReader.java:215-223 | a name index outside the table is IndexOutOfBounds; a negative attribute count is IllegalArgument; a null name is NullPointer |
| MetaWriter.Pairs | src/converter/one/jfr/JfrReader.java:220 | the key and the value each pair of indices names, one pair per attribute |
| MetaWriter.PairsAt | src/converter/one/jfr/JfrReader.java:220 | pair k names the table's entries at its two indices |
| MetaWriter.AttrRoundTrip | src/converter/one/jfr/JfrReader.java:220 | an attribute reads back as the key and the value its two indices name, the key's index first |
| MetaWriter.AttrsRoundTrip | src/converter/one/jfr/JfrReader.java:217-221 | the attribute loop reads back every written list, putting the pairs in turn, so a later pair with the same key wins |
| MetaWriter.ElementHeadRoundTrip | src/converter/one/jfr/JfrReader.java:215-221 | readElement reads back the written name and the attribute map built from the pairs in order |
| MetaWriter.ElementMade | src/converter/one/jfr/JfrReader.java:223 | the element made of a written head is createElement's element for that name and map, and its failure is readElement's |
| MetaWriter.LeafRoundTrip | src/converter/one/jfr/JfrReader.java:214-229 | an element written without children reads back as createElement's element with no children |
| MetaWriter.StringsRoundTrip | src/converter/one/jfr/JfrReader.java:207-210 | the string loop reads back every written table, in order |
| MetaWriter.MetaHeaderRoundTrip | src/converter/one/jfr/JfrReader.java:201-205 | readMeta consumes exactly the two varints and three varlongs of a written header |
| MetaWriter.MetaHeaderFields | src/converter/one/jfr/JfrReader.java:201-205 | the header's five numbers are read in the order written |
| MetaWriter.MetaRoundTrip | src/converter/one/jfr/JfrReader.java:200-212 | readMeta reads back the written string table, then the root element against it |
| MetaWriter.MetaRejects | src/converter/one/jfr/JfrReader.java:207 | a negative table size after the header raises NegativeArraySize |
| Meta.PutAllLookup | src/converter/one/jfr/JfrReader.java:310 | after putting entries in turn, a key is present iff it was before or was put, and maps to the last value put for it (or its old value) |
| Meta.PutAllSnoc | src/converter/one/jfr/JfrReader.java:310 | putting one more entry is one more `put` |
| Pools.ThreadAt | src/converter/one/jfr/JfrReader.java:304-310 | one thread entry, within the limit; ThreadName and PoolWriter.ThreadRoundTrip give the id and the name kept |
| Pools.ThreadName | src/converter/one/jfr/JfrReader.java:304-310 | the thread's name is its Java name, or its OS name when the Java name is null |
| Pools.ClassAt | src/converter/one/jfr/JfrReader.java:317-323 | one class entry, within the limit; PoolWriter.ClassRoundTrip gives the entry read |
| Pools.MethodAt | src/converter/one/jfr/JfrReader.java:330-336 | one method entry, within the limit; PoolWriter.MethodRoundTrip gives the entry read |
| Pools.FrameAt | src/converter/one/jfr/JfrReader.java:355-358 | one frame, within the limit; PoolWriter.FrameRoundTrip gives the method and the type read |
| Pools.FramesFrom | src/converter/one/jfr/JfrReader.java:354-359 | the frame loop fills both arrays with exactly depth entries, after the ones already read |
| Pools.StackTraceBody | src/converter/one/jfr/JfrReader.java:350-361 | readStackTrace, within the limit; NegativeDepth and PoolWriter.StackTraceRoundTrip give the error and the frames read |
| Pools.NegativeDepth | src/converter/one/jfr/JfrReader.java:351-352 | a negative depth raises NegativeArraySize |
| Pools.StackTraceAt | src/converter/one/jfr/JfrReader.java:343-346 | one stack trace entry, within the limit; PoolWriter.StackTraceRoundTrip gives the id and the frames read |
| Pools.SymbolAt | src/converter/one/jfr/JfrReader.java:366-370 | one symbol entry, within the limit; PoolWriter.SymbolRoundTrip gives the id and the bytes read |
| Pools.SymbolEncodingChecked | src/converter/one/jfr/JfrReader.java:367-369 | a symbol whose encoding byte is not 3 raises InvalidSymbolEncoding |
| Pools.MapEntryAt | src/converter/one/jfr/JfrReader.java:377 | one map entry, within the limit; PoolWriter.MapEntryRoundTrip gives the key and the string read |
| Pools.ThreadsFrom | src/converter/one/jfr/JfrReader.java:303-311 | the thread loop appends exactly max(n, 0) entries to those already read |
| Pools.Threads | src/converter/one/jfr/JfrReader.java:301-312 | readThreads reads as many entries as its count says (none when negative) |
| Pools.ClassesFrom | src/converter/one/jfr/JfrReader.java:316-324 | the class loop appends exactly max(n, 0) entries to those already read |
| Pools.Classes | src/converter/one/jfr/JfrReader.java:314-325 | readClasses reads as many entries as its count says (none when negative) |
| Pools.MethodsFrom | src/converter/one/jfr/JfrReader.java:329-337 | the method loop appends exactly max(n, 0) entries to those already read |
| Pools.Methods | src/converter/one/jfr/JfrReader.java:327-338 | readMethods reads as many entries as its count says (none when negative) |
| Pools.StackTracesFrom | src/converter/one/jfr/JfrReader.java:342-347 | the stack trace loop appends exactly max(n, 0) entries to those already read |
| Pools.StackTraces | src/converter/one/jfr/JfrReader.java:340-348 | readStackTraces reads as many entries as its count says (none when negative) |
| Pools.SymbolsFrom | src/converter/one/jfr/JfrReader.java:365-371 | the symbol loop appends exactly max(n, 0) entries to those already read |
| Pools.Symbols | src/converter/one/jfr/JfrReader.java:363-372 | readSymbols reads as many entries as its count says (none when negative) |
| Pools.MapFrom | src/converter/one/jfr/JfrReader.java:376-378 | the map loop appends exactly max(n, 0) entries to those already read |
| Pools.MapEntries | src/converter/one/jfr/JfrReader.java:374-379 | readMap reads as many entries as its count says (none when negative) |
| Pools.Numeric | src/converter/one/jfr/JfrReader.java:384-388 | one flag per field, true exactly when the field is a constant pool reference or not of type String |
| Pools.FieldAt | src/converter/one/jfr/JfrReader.java:399-403 | one field value consumes at least one byte, within the limit; PoolWriter.FieldRoundTrip gives the varlong or string read |
| Pools.FieldsFrom | src/converter/one/jfr/JfrReader.java:397-405 | readFields from field i on, within the limit; PoolWriter.FieldsFromRoundTrip gives what it reads |
| Pools.OtherAt | src/converter/one/jfr/JfrReader.java:392-393 | one constant of another type stays within the limit; PoolWriter.OtherRoundTrip gives what it reads |
| Pools.OtherFrom | src/converter/one/jfr/JfrReader.java:391-394 | the constant loop of readOtherConstants, within the limit; PoolWriter.OtherFromRoundTrip gives what it reads |
| Pools.OtherConstants | src/converter/one/jfr/JfrReader.java:381-395 | readOtherConstants, within the limit; PoolWriter.OtherConstantsRoundTrip gives what it reads |
| Pools.ConstantsAt | src/converter/one/jfr/JfrReader.java:270-299 | readConstants: NullPointer for an unknown type or a null name; ChunkHeader skips 68 + 3 bytes in int arithmetic, IllegalArgument outside the limit; any other case grows the tables and changes only the one its name fills |
| Pools.DictionaryPoolAt | src/converter/one/jfr/JfrReader.java:275-280 | the thread and class cases: NullPointer when the field lookup fails; otherwise threads (classes) become the old table with every entry of readThreads (readClasses) put in turn, the "group" ("hidden") field deciding the extra number; other tables unchanged |
| Pools.IdPoolAt | src/converter/one/jfr/JfrReader.java:281-289 | the symbol, method and stack trace cases: each table becomes the old one with every entry its reader reads put in turn; other tables unchanged |
| Pools.MapPoolAt | src/converter/one/jfr/JfrReader.java:290-297 | frame types and thread states each become the old map with readMap's pairs put in turn; any other name leaves every table as it was and skips the constants as readOtherConstants does |
| Pools.PoolTypeAt | src/converter/one/jfr/JfrReader.java:259-260 | `types.get(type)`: NullPointer for a type id not registered; otherwise only the table of that type's name changes, and no key is lost |
| Pools.PoolTypesFrom | src/converter/one/jfr/JfrReader.java:257-261 | the inner loop loses no key of any table, and reads nothing when the count is not positive |
| Pools.PoolHeader | src/converter/one/jfr/JfrReader.java:250-257 | the pool event's header, within the limit; PoolWriter.PoolHeaderRoundTrip gives the delta (fifth number) and the count (seventh) |
| Pools.PoolAt | src/converter/one/jfr/JfrReader.java:250-261 | one pool: its delta is the header's, and the tables lose no key |
| Pools.PoolBody | src/converter/one/jfr/JfrReader.java:257-261 | the pool's constant sets; the delta read in the header is passed on unchanged |
| Pools.PoolNext | src/converter/one/jfr/JfrReader.java:263-266 | delta 0 stops at the pool's end; any other delta moves to the pool's start plus delta in int arithmetic, or IllegalArgument outside the limit; the tables are untouched |
| Pools.PoolTurn | src/converter/one/jfr/JfrReader.java:249-266 | one turn of the outer loop: the pool is read, the loop goes on iff its delta is not 0, from the jump target; no table loses a key |
| Pools.ConstantPool | src/converter/one/jfr/JfrReader.java:248-268 | readConstantPool follows the chain of deltas, within the limit, and no table loses a key; ConstantPoolTurn gives each step |
| Pools.ThreadsStep | src/converter/one/jfr/JfrReader.java:303-311 | one turn of the thread loop: readThread's failure, or the rest of the loop with its entry appended |
| Pools.Jump | src/converter/one/jfr/JfrReader.java:266 | `position += delta` in int arithmetic: congruent to the sum modulo 2^32, and equal to it when the sum is an int |
| Pools.ConstantPoolTurn | src/converter/one/jfr/JfrReader.java:248-268 | readConstantPool fails where the pool fails, stops after a pool with delta 0, goes on from position + delta in int arithmetic, and raises IllegalArgument when that is outside the limit |
| PoolWriter.ThreadEntries | src/converter/one/jfr/JfrReader.java:301-312 | one entry per written thread |
| PoolWriter.ThreadFields | src/converter/one/jfr/JfrReader.java:304-310 | the thread's id, OS name, OS thread id, Java name, Java thread id and, only with a "group" field, the group, in that order |
| PoolWriter.ThreadRoundTrip | src/converter/one/jfr/JfrReader.java:304-310 | a written thread reads back as its id with its Java name, or its OS name when the Java name is null |
| PoolWriter.ThreadsFromRoundTrip | src/converter/one/jfr/JfrReader.java:303-311 | the thread loop reads back every written list, appended to the entries read before |
| PoolWriter.ThreadsRoundTrip | src/converter/one/jfr/JfrReader.java:301-312 | readThreads reads back a written count and its threads |
| PoolWriter.ClassEntries | src/converter/one/jfr/JfrReader.java:314-325 | one entry per written class |
| PoolWriter.ClassFields | src/converter/one/jfr/JfrReader.java:317-323 | the class's id, loader, name, package, modifiers and, only with a "hidden" field, the hidden flag, in that order |
| PoolWriter.ClassRoundTrip | src/converter/one/jfr/JfrReader.java:317-323 | a written class reads back as its id with a ClassRef of its name |
| PoolWriter.ClassesFromRoundTrip | src/converter/one/jfr/JfrReader.java:316-324 | the class loop reads back every written list |
| PoolWriter.ClassesRoundTrip | src/converter/one/jfr/JfrReader.java:314-325 | readClasses reads back a written count and its classes |
| PoolWriter.MethodEntries | src/converter/one/jfr/JfrReader.java:327-338 | one entry per written method |
| PoolWriter.MethodFields | src/converter/one/jfr/JfrReader.java:330-336 | the method's id, class, name, signature, modifiers and hidden flag, in that order |
| PoolWriter.MethodRoundTrip | src/converter/one/jfr/JfrReader.java:330-336 | a written method reads back as its id with a MethodRef of its class, name and signature |
| PoolWriter.MethodsFromRoundTrip | src/converter/one/jfr/JfrReader.java:329-337 | the method loop reads back every written list |
| PoolWriter.MethodsRoundTrip | src/converter/one/jfr/JfrReader.java:327-338 | readMethods reads back a written count and its methods |
| PoolWriter.SymbolEntries | src/converter/one/jfr/JfrReader.java:363-372 | one entry per written symbol |
| PoolWriter.SymbolRoundTrip | src/converter/one/jfr/JfrReader.java:366-370 | a written symbol (id, encoding 3, bytes) reads back as its id and its bytes |
| PoolWriter.SymbolRejects | src/converter/one/jfr/JfrReader.java:367-369 | an encoding byte other than 3 after the id raises InvalidSymbolEncoding |
| PoolWriter.SymbolsFromRoundTrip | src/converter/one/jfr/JfrReader.java:365-371 | the symbol loop reads back every written list |
| PoolWriter.SymbolsRoundTrip | src/converter/one/jfr/JfrReader.java:363-372 | readSymbols reads back a written count and its symbols |
| PoolWriter.MapPairs | src/converter/one/jfr/JfrReader.java:374-379 | one pair per written map entry |
| PoolWriter.MapEntryRoundTrip | src/converter/one/jfr/JfrReader.java:377 | a written map entry reads back as its key and its string |
| PoolWriter.MapFromRoundTrip | src/converter/one/jfr/JfrReader.java:376-378 | the map loop reads back every written list |
| PoolWriter.MapRoundTrip | src/converter/one/jfr/JfrReader.java:374-379 | readMap reads back a written count and its entries |
| PoolWriter.FrameMethods | src/converter/one/jfr/JfrReader.java:354-359 | one method id per written frame |
| PoolWriter.FrameTypes | src/converter/one/jfr/JfrReader.java:354-359 | one frame type per written frame |
| PoolWriter.FrameRoundTrip | src/converter/one/jfr/JfrReader.java:355-358 | a written frame reads back as its method id and its type, the line and bci read and dropped |
| PoolWriter.FramesFromRoundTrip | src/converter/one/jfr/JfrReader.java:354-359 | the frame loop fills both arrays with the written frames' methods and types, after those already read |
| PoolWriter.StackTraceRoundTrip | src/converter/one/jfr/JfrReader.java:343-361 | a written stack trace reads back as its id with its frames' methods and types |
| PoolWriter.StackTraceEntries | src/converter/one/jfr/JfrReader.java:340-348 | one entry per written stack trace |
| PoolWriter.StackTracesFromRoundTrip | src/converter/one/jfr/JfrReader.java:342-347 | the stack trace loop reads back every written list |
| PoolWriter.StackTracesRoundTrip | src/converter/one/jfr/JfrReader.java:340-348 | readStackTraces reads back a written count and its stack traces |
| PoolWriter.FieldRoundTrip | src/converter/one/jfr/JfrReader.java:399-403 | a numeric field is read as a varlong and any other as a string, ending right after what was written |
| PoolWriter.FieldsFromRoundTrip | src/converter/one/jfr/JfrReader.java:397-405 | readFields reads each written field by its flag, ending after the last |
| PoolWriter.OtherRoundTrip | src/converter/one/jfr/JfrReader.java:392-393 | a written constant (its id, then its fields) is read to its end |
| PoolWriter.OtherFromRoundTrip | src/converter/one/jfr/JfrReader.java:391-394 | the constant loop reads every written constant to its end |
| PoolWriter.OtherConstantsRoundTrip | src/converter/one/jfr/JfrReader.java:381-395 | readOtherConstants reads a written count and its constants to their end |
| PoolWriter.PoolHeaderRoundTrip | src/converter/one/jfr/JfrReader.java:250-257 | the pool header reads back its delta (the fifth number) and its count (the seventh), ending after the header |
| PoolWriter.PoolTimesFields | src/converter/one/jfr/JfrReader.java:252-257 | the duration, delta, flush flag and count are read in the order written |
| Chunks.Seek | src/converter/one/jfr/JfrReader.java:191 | the position a header offset points to, inside the buffer |
| Chunks.ChunkMeta | src/converter/one/jfr/JfrReader.java:191-192 | readChunk's metadata step leaves the constant tables unchanged |
| Chunks.MetaLoaded | src/converter/one/jfr/JfrReader.java:192 | readMeta from a position leaves the constant tables unchanged |
| Chunks.ChunkPool | src/converter/one/jfr/JfrReader.java:194-195 | readChunk's constant pool step leaves the type tables unchanged |
| Chunks.PoolLoaded | src/converter/one/jfr/JfrReader.java:195 | readConstantPool from a position leaves the type tables unchanged |
| Chunks.ChunkAt | src/converter/one/jfr/JfrReader.java:181-198 | readChunk's answer is ChunkSize of the chunk, an int |
| Chunks.ChunkBody | src/converter/one/jfr/JfrReader.java:191-197 | readChunk after the header check answers ChunkSize of the chunk |
| Chunks.ChunkRest | src/converter/one/jfr/JfrReader.java:194-197 | readChunk after the metadata answers ChunkSize of the chunk |
| Chunks.ChunkAtSize | src/converter/one/jfr/JfrReader.java:197 | readChunk answers the long at offset 8 of the chunk, cut to an int |
| Chunks.ChunkSizeRoundTrip | src/converter/one/jfr/JfrReader.java:197 | a long written at offset 8 reads back as the chunk size, cut to an int |
| Chunks.ChunkEndNanos | src/converter/one/jfr/JfrReader.java:76 | the chunk's start time plus its duration in long arithmetic, and IndexOutOfBounds exactly when the two longs are not in the buffer |
| Chunks.MaxLong | src/converter/one/jfr/JfrReader.java:76 | `Math.max` on longs: one of the two, and not below either |
| Chunks.ChunkTurn | src/converter/one/jfr/JfrReader.java:75-77 | one turn of the constructor's loop: the next chunk starts at start + size in int arithmetic, and the end is the larger of the old end and this chunk's end |
| Chunks.ChunksFrom | src/converter/one/jfr/JfrReader.java:74-78 | the constructor's loop over chunks ends with the buffer's position inside it; ChunksStep gives each turn |
| Chunks.Spent | src/converter/one/jfr/JfrReader.java:75-77 | the loop bound decreases on every turn |
| Chunks.EventIdsOf | src/converter/one/jfr/JfrReader.java:85-90 | each of the six event ids is getTypeId of its event type's name |
| Chunks.Times | src/converter/one/jfr/JfrReader.java:80-83 | the start time, start ticks and tick rate are read exactly when the buffer holds 64 bytes, and IndexOutOfBounds otherwise |
| Chunks.Settle | src/converter/one/jfr/JfrReader.java:80-92 | the end of the constructor keeps the type and constant tables, and leaves a valid buffer |
| Chunks.Open | src/converter/one/jfr/JfrReader.java:73-91 | the constructor keeps the type and constant tables its chunk loop filled and leaves a valid buffer |
| Chunks.HeaderFirst | src/converter/one/jfr/JfrReader.java:182-189 | a chunk whose header check fails raises that error before anything is read |
| Chunks.ChunkCoherent | src/converter/one/jfr/JfrReader.java:191-195 | a chunk keeps the ids in `types` equal to the ids of the classes registered by id |
| Chunks.ChunksTurn | src/converter/one/jfr/JfrReader.java:75-77 | the loop over chunks is one turn followed by the loop from the next chunk |
| Chunks.ChunksStep | src/converter/one/jfr/JfrReader.java:75-77 | each turn moves on to start + ChunkSize in int arithmetic, keeps the tables coherent and sets endNanos to the larger of the old end and this chunk's end |
| Chunks.ChunksCoherent | src/converter/one/jfr/JfrReader.java:74-78 | the whole loop keeps `types` and the registered ids in step |
| Chunks.ChunksEnd | src/converter/one/jfr/JfrReader.java:74-78 | the final endNanos is at least its start value and at least the first chunk's end |
| Chunks.OpenCoherent | src/converter/one/jfr/JfrReader.java:70-93 | after the constructor, types and the registered ids agree, startNanos is the long at offset 32, and the buffer is positioned on the first chunk (limit = its size) |
| Chunks.EmptyFileRejected | src/converter/one/jfr/JfrReader.java:75-80 | an empty file skips the loop and fails reading the start time with IndexOutOfBounds |
| Reader.CharRead | src/converter/one/jfr/JfrReader.java:445-447 | one char read keeps the tag-4 loop on its way to CharsFrom's answer |
| Reader.EventRead | src/converter/one/jfr/JfrReader.java:106-108 | one readEvent call keeps readAllEvents' loop on its way to AllEvents' answer |
| Reader.ThreadRead | src/converter/one/jfr/JfrReader.java:303-311 | one thread entry keeps readThreads' loop on its way to Threads' answer |
| Reader.ClassRead | src/converter/one/jfr/JfrReader.java:316-324 | one class entry keeps readClasses' loop on its way to Classes' answer |
| Reader.MethodRead | src/converter/one/jfr/JfrReader.java:329-337 | one method entry keeps readMethods' loop on its way to Methods' answer |
| Reader.StackTraceRead | src/converter/one/jfr/JfrReader.java:342-347 | one stack trace keeps readStackTraces' loop on its way to StackTraces' answer |
| Reader.SymbolRead | src/converter/one/jfr/JfrReader.java:365-371 | one symbol keeps readSymbols' loop on its way to Symbols' answer |
| Reader.MapEntryRead | src/converter/one/jfr/JfrReader.java:376-378 | one map entry keeps readMap's loop on its way to MapEntries' answer |
| Reader.FrameRead | src/converter/one/jfr/JfrReader.java:354-359 | one frame keeps readStackTrace's loop on its way to FramesFrom's answer |
| Reader.FieldRead | src/converter/one/jfr/JfrReader.java:398-404 | one field keeps readFields' loop on its way to FieldsFrom's answer |
| Reader.OtherRead | src/converter/one/jfr/JfrReader.java:391-394 | one constant keeps readOtherConstants' loop on its way to OtherConstants' answer |
| Reader.PoolTypeRead | src/converter/one/jfr/JfrReader.java:258-261 | one constant set keeps the inner pool loop on its way to PoolTypesFrom's answer |
| Reader.PoolTurnRead | src/converter/one/jfr/JfrReader.java:249-267 | one pool keeps readConstantPool's loop on its way to ConstantPool's answer, which it reaches when the delta is 0 |
| Reader.AttrRead | src/converter/one/jfr/JfrReader.java:219-221 | one attribute keeps the attribute loop on its way to AttrsFrom's answer |
| Reader.ChildRead | src/converter/one/jfr/JfrReader.java:225-227 | one child keeps the child loop on its way to ChildrenFrom's answer |
| Reader.StringRead | src/converter/one/jfr/JfrReader.java:208-210 | one string keeps readMeta's table loop on its way to StringsFrom's answer |
| Reader.ChildPlaced | src/converter/one/jfr/JfrReader.java:225-227 | the classes a child adds to `types` are new objects under the child's ids, and the parent class stays the only entry under its own id |
| Reader.PlacedTrans | src/converter/one/jfr/JfrReader.java:225-227 | the classes added by successive children add up |
| Reader.AloneStep | src/converter/one/jfr/JfrReader.java:225-227 | the parent class is still the only entry under its id after a child adds new ones |
| Reader.InfoOf | src/converter/one/jfr/JfrReader.java:260 | `types.get(type)` seen by value: information exactly for a non-null class |
| Reader.JfrReader.constructor | src/converter/one/jfr/JfrReader.java:71-72 | the mapped buffer at position 0 with limit = capacity, and every table empty |
| Reader.JfrReader.GetTypeId | src/converter/one/jfr/JfrReader.java:407-410 | getTypeId over the reader's typesByName is TypeId of the registered names |
| Reader.JfrReader.Position | src/converter/one/jfr/JfrReader.java:136 | `buf.position(p)` moves the cursor as SetPosition says, or raises its error and leaves the position |
| Reader.JfrReader.Limit | src/converter/one/jfr/JfrReader.java:173-175 | `buf.limit(l)` moves the cursor as SetLimit says, or raises its error and leaves the cursor |
| Reader.JfrReader.GetByte | src/converter/one/jfr/JfrReader.java:415 | `buf.get()` returns Get's byte and position, and leaves the position on error |
| Reader.JfrReader.GetIntAt | src/converter/one/jfr/JfrReader.java:182 | `buf.getInt(index)` is GetInt |
| Reader.JfrReader.GetLongAt | src/converter/one/jfr/JfrReader.java:197 | `buf.getLong(index)` is GetLong |
| Reader.JfrReader.GetVarint | src/converter/one/jfr/JfrReader.java:412-421 | the loop returns Varint's value and position, or its error |
| Reader.JfrReader.GetVarlong | src/converter/one/jfr/JfrReader.java:423-433 | the loop returns Varlong's value and position, or its error |
| Reader.JfrReader.VarlongRest | src/converter/one/jfr/JfrReader.java:425-431 | the rest of the loop from a shift returns VarlongFrom's answer |
| Reader.JfrReader.LastVarlongByte | src/converter/one/jfr/JfrReader.java:432 | the ninth byte completes the value as VarlongFrom at shift 56 says |
| Reader.JfrReader.GetBytes | src/converter/one/jfr/JfrReader.java:457-461 | getBytes returns Wire.GetBytes' array and position, or its error |
| Reader.JfrReader.GetChars | src/converter/one/jfr/JfrReader.java:443-449 | the tag-4 body returns GetChars' code units and position |
| Reader.JfrReader.FillChars | src/converter/one/jfr/JfrReader.java:444-448 | the char array of a given count is CountedChars' answer |
| Reader.JfrReader.ReadChars | src/converter/one/jfr/JfrReader.java:445-447 | the loop over n chars is CharsFrom's answer |
| Reader.JfrReader.GetString | src/converter/one/jfr/JfrReader.java:435-455 | getString returns Wire.GetString's string and position, or its error |
| Reader.JfrReader.ReadExecutionSample | src/converter/one/jfr/JfrReader.java:141-147 | returns ExecutionSampleAt's event and position |
| Reader.JfrReader.ReadAllocationSample | src/converter/one/jfr/JfrReader.java:149-157 | returns AllocationSampleAt's event and position |
| Reader.JfrReader.ReadContendedLock | src/converter/one/jfr/JfrReader.java:159-168 | returns ContendedLockAt's event and position |
| Reader.JfrReader.ReadLockEnd | src/converter/one/jfr/JfrReader.java:165-166 | the optional timeout and the address, as LockEnd says |
| Reader.JfrReader.MoveToNextChunk | src/converter/one/jfr/JfrReader.java:170-179 | moveToNextChunk answers and moves the cursor as Stream.MoveToNextChunk says |
| Reader.JfrReader.EndChunk | src/converter/one/jfr/JfrReader.java:173-176 | the true branch, as ChunkEnd says |
| Reader.JfrReader.ReadBody | src/converter/one/jfr/JfrReader.java:125-133 | the body of a known record, as Body says |
| Reader.JfrReader.HasNextRecord | src/converter/one/jfr/JfrReader.java:119 | the loop condition, as HasNext says |
| Reader.JfrReader.ReadHeader | src/converter/one/jfr/JfrReader.java:121-122 | the size and type of a record, as RecordHeader says |
| Reader.JfrReader.ReadRecord | src/converter/one/jfr/JfrReader.java:120-136 | one turn of readEvent's loop, as Stream.ReadRecord says |
| Reader.JfrReader.ReadEvent | src/converter/one/jfr/JfrReader.java:118-139 | readEvent(cls) returns NextEvent's event and cursor, or its error |
| Reader.JfrReader.ReadTurn | src/converter/one/jfr/JfrReader.java:106-108 | one turn of readAllEvents' loop keeps it on its way to AllEvents' answer |
| Reader.JfrReader.ReadEvents | src/converter/one/jfr/JfrReader.java:105-108 | the collecting loop returns AllEvents' list |
| Reader.JfrReader.ReadAllEvents | src/converter/one/jfr/JfrReader.java:104-111 | readAllEvents(cls) returns AllEvents' list sorted by time, or its error |
| Reader.JfrReader.ReadThread | src/converter/one/jfr/JfrReader.java:304-310 | one thread entry, as ThreadAt says |
| Reader.JfrReader.ReadThreads | src/converter/one/jfr/JfrReader.java:301-312 | the threads table becomes the old one with Threads' entries put in order |
| Reader.JfrReader.ReadClass | src/converter/one/jfr/JfrReader.java:317-323 | one class entry, as ClassAt says |
| Reader.JfrReader.ReadClasses | src/converter/one/jfr/JfrReader.java:314-325 | the classes table becomes the old one with Classes' entries put in order |
| Reader.JfrReader.ReadMethod | src/converter/one/jfr/JfrReader.java:330-336 | one method entry, as MethodAt says |
| Reader.JfrReader.ReadMethods | src/converter/one/jfr/JfrReader.java:327-338 | the methods table becomes the old one with Methods' entries put in order |
| Reader.JfrReader.ReadFrame | src/converter/one/jfr/JfrReader.java:355-358 | one frame, as FrameAt says |
| Reader.JfrReader.ReadStackTrace | src/converter/one/jfr/JfrReader.java:350-361 | readStackTrace, as StackTraceBody says |
| Reader.JfrReader.FillFrames | src/converter/one/jfr/JfrReader.java:354-359 | the frame loop, as FramesFrom says |
| Reader.JfrReader.ReadStackTraceEntry | src/converter/one/jfr/JfrReader.java:343-346 | one stack trace entry, as StackTraceAt says |
| Reader.JfrReader.ReadStackTraces | src/converter/one/jfr/JfrReader.java:340-348 | the stackTraces table becomes the old one with StackTraces' entries put in order |
| Reader.JfrReader.ReadSymbol | src/converter/one/jfr/JfrReader.java:366-370 | one symbol entry, as SymbolAt says |
| Reader.JfrReader.ReadSymbols | src/converter/one/jfr/JfrReader.java:363-372 | the symbols table becomes the old one with Symbols' entries put in order |
| Reader.JfrReader.ReadMapEntry | src/converter/one/jfr/JfrReader.java:377 | one map entry, as MapEntryAt says |
| Reader.JfrReader.ReadMap | src/converter/one/jfr/JfrReader.java:374-379 | the map becomes the given one with MapEntries' entries put in order |
| Reader.JfrReader.ReadField | src/converter/one/jfr/JfrReader.java:399-403 | one field value, as FieldAt says |
| Reader.JfrReader.ReadFields | src/converter/one/jfr/JfrReader.java:397-405 | readFields over the flag array, as FieldsFrom says |
| Reader.JfrReader.ReadOtherConstant | src/converter/one/jfr/JfrReader.java:392-393 | one constant of another type, as OtherAt says |
| Reader.JfrReader.NumericFlags | src/converter/one/jfr/JfrReader.java:384-388 | the `numeric` array is a new array holding Numeric's flags |
| Reader.JfrReader.ReadOtherConstants | src/converter/one/jfr/JfrReader.java:381-395 | readOtherConstants, as OtherConstants says, with the flags Numeric computes |
| Reader.JfrReader.ReadConstants | src/converter/one/jfr/JfrReader.java:270-299 | readConstants leaves the constant tables and position that ConstantsAt gives |
| Reader.JfrReader.ReadDictionaryPool | src/converter/one/jfr/JfrReader.java:275-280 | the thread and class cases, as DictionaryPoolAt says |
| Reader.JfrReader.ReadIdPool | src/converter/one/jfr/JfrReader.java:281-289 | the symbol, method and stack trace cases, as IdPoolAt says |
| Reader.JfrReader.ReadMapPool | src/converter/one/jfr/JfrReader.java:290-297 | the map and default cases, as MapPoolAt says |
| Reader.JfrReader.ReadPoolType | src/converter/one/jfr/JfrReader.java:259-260 | one constant set, as PoolTypeAt says; the type tables are unchanged |
| Reader.JfrReader.ReadPoolHeader | src/converter/one/jfr/JfrReader.java:250-257 | the pool header, as PoolHeader says |
| Reader.JfrReader.ReadPool | src/converter/one/jfr/JfrReader.java:250-261 | one pool, as PoolAt says |
| Reader.JfrReader.ReadPoolBody | src/converter/one/jfr/JfrReader.java:257-261 | the pool's constant sets, as PoolBody says |
| Reader.JfrReader.ReadPoolTypes | src/converter/one/jfr/JfrReader.java:258-261 | the inner loop, as PoolTypesFrom says |
| Reader.JfrReader.ReadPoolTypeStep | src/converter/one/jfr/JfrReader.java:258-260 | one turn of the inner loop: it fails as the whole loop does, or leaves the loop one constant set further on the way to the same answer; the type tables are unchanged |
| Reader.JfrReader.ReadPoolTurn | src/converter/one/jfr/JfrReader.java:249-266 | one turn of the outer loop, as PoolTurn says |
| Reader.JfrReader.NextPool | src/converter/one/jfr/JfrReader.java:263-266 | the loop's exit or jump, as PoolNext says |
| Reader.JfrReader.ReadConstantPool | src/converter/one/jfr/JfrReader.java:248-268 | readConstantPool leaves the constant tables and position that ConstantPool gives; the type tables are unchanged |
| Reader.JfrReader.ReadPools | src/converter/one/jfr/JfrReader.java:249-267 | the outer loop reaches ConstantPool's answer |
| Reader.JfrReader.ReadPoolStep | src/converter/one/jfr/JfrReader.java:249-267 | one pool of the outer loop: an error or the final answer, or the loop goes on toward the same answer |
| Reader.JfrReader.ReadStringRef | src/converter/one/jfr/JfrReader.java:215 | `strings[getVarint()]`, as StringRef says |
| Reader.JfrReader.ReadAttribute | src/converter/one/jfr/JfrReader.java:220 | one attribute, as AttrAt says |
| Reader.JfrReader.ReadAttributes | src/converter/one/jfr/JfrReader.java:217-221 | the attribute map, as AttrsFrom says |
| Reader.JfrReader.ReadElementHead | src/converter/one/jfr/JfrReader.java:215-221 | the name and attributes, as ElementHead says |
| Reader.JfrReader.CreateElement | src/converter/one/jfr/JfrReader.java:231-246 | createElement makes the element Create describes and registers it as Register says |
| Reader.JfrReader.CreateClass | src/converter/one/jfr/JfrReader.java:233-240 | the "class" case: a new class, put into types (unless it has a superType) and into typesByName |
| Reader.JfrReader.PutTypeName | src/converter/one/jfr/JfrReader.java:238 | `typesByName.put(name, type)` |
| Reader.JfrReader.PutType | src/converter/one/jfr/JfrReader.java:236 | `types.put(id, type)` |
| Reader.JfrReader.ReadElement | src/converter/one/jfr/JfrReader.java:214-229 | readElement reads the tree ElementAt describes; the registries grow as RegisterNode and InfosNode say, and only new classes enter `types` |
| Reader.JfrReader.ReadElementFrom | src/converter/one/jfr/JfrReader.java:223-228 | readElement after its head, as ElementFrom says |
| Reader.JfrReader.ReadElementBody | src/converter/one/jfr/JfrReader.java:224-228 | the children of a created element, as ElementBody says; a class gets its field children as fields |
| Reader.JfrReader.ReadChildCount | src/converter/one/jfr/JfrReader.java:224 | the child count varint; the type tables are unchanged |
| Reader.JfrReader.ReadChildren | src/converter/one/jfr/JfrReader.java:225-227 | the child loop, as ChildrenFrom says; a class's fields become FieldsOf its children |
| Reader.JfrReader.ReadChild | src/converter/one/jfr/JfrReader.java:226 | one child read and added keeps the child loop on its way to ChildrenFrom's answer |
| Reader.JfrReader.Adopt | src/converter/one/jfr/JfrReader.java:226 | `e.addChild(child)`: a class gains the child's field, and `types` keeps its information in step |
| Reader.JfrReader.ReadMetaHeader | src/converter/one/jfr/JfrReader.java:201-205 | the metadata header, as MetaHeader says |
| Reader.JfrReader.ReadStrings | src/converter/one/jfr/JfrReader.java:207-210 | the string table, as StringsFrom says |
| Reader.JfrReader.ReadMeta | src/converter/one/jfr/JfrReader.java:200-212 | readMeta reads what MetaAt describes and registers the tree's classes |
| Reader.JfrReader.ReadMetaBody | src/converter/one/jfr/JfrReader.java:207-211 | the string table and root, as MetaBody says |
| Reader.JfrReader.ReadMetaTable | src/converter/one/jfr/JfrReader.java:208-211 | the root element after the table, as MetaTable says |
| Reader.JfrReader.ReadSeek | src/converter/one/jfr/JfrReader.java:191 | the position a header offset points to, as Seek says |
| Reader.JfrReader.ReadMetaLoaded | src/converter/one/jfr/JfrReader.java:192 | readMeta, seen on the reader's whole state, as MetaLoaded says |
| Reader.JfrReader.ReadPoolLoaded | src/converter/one/jfr/JfrReader.java:195 | readConstantPool, seen on the reader's whole state, as PoolLoaded says |
| Reader.JfrReader.ReadChunkMeta | src/converter/one/jfr/JfrReader.java:191-192 | the metadata step of readChunk, as ChunkMeta says |
| Reader.JfrReader.ReadChunkPool | src/converter/one/jfr/JfrReader.java:194-195 | the constant pool step of readChunk, as ChunkPool says |
| Reader.JfrReader.CheckChunkHeader | src/converter/one/jfr/JfrReader.java:182-189 | the magic and version check, as CheckHeader says |
| Reader.JfrReader.ReadChunk | src/converter/one/jfr/JfrReader.java:181-198 | readChunk returns ChunkAt's size and leaves ChunkAt's state |
| Reader.JfrReader.ReadChunkBody | src/converter/one/jfr/JfrReader.java:191-197 | readChunk after its header check, as ChunkBody says |
| Reader.JfrReader.ReadChunkRest | src/converter/one/jfr/JfrReader.java:194-197 | readChunk after its metadata, as ChunkRest says |
| Reader.JfrReader.ReadChunkTurn | src/converter/one/jfr/JfrReader.java:75-77 | one turn of the constructor's loop keeps it on its way to ChunksFrom's answer |
| Reader.JfrReader.ReadChunkStep | src/converter/one/jfr/JfrReader.java:76-77 | endNanos and the next chunk start, as ChunkTurn says |
| Reader.JfrReader.Load | src/converter/one/jfr/JfrReader.java:74-92 | the constructor after mapping: on success the reader's state is exactly Open's, otherwise Open's error |
| Reader.JfrReader.Finish | src/converter/one/jfr/JfrReader.java:80-92 | the end of the constructor, as Settle says |
| Reader.JfrReader.MoveToFirstChunk | src/converter/one/jfr/JfrReader.java:92 | `moveToNextChunk(0)`; the tables are unchanged |
| Reader.JfrReader.ReadTimes | src/converter/one/jfr/JfrReader.java:80-83 | the header times, as Times says |
| Reader.JfrReader.SetTimes | src/converter/one/jfr/JfrReader.java:80-83 | sets the four time fields; the tables are unchanged |
| Reader.JfrReader.SetEventIds | src/converter/one/jfr/JfrReader.java:85-90 | the six event ids are EventIdsOf the registered names |

## Left out

- Opening and mapping the file and `close()` are not modelled. The buffer's
  contents and the UTF-8 decoder of the Java library are the constructor's
  parameters.
- Reader.JfrReader.constructor requires the file to be shorter than 2^31
  bytes. Java's `FileChannel.map` raises an exception for a larger file; that
  exception is not modelled.
- The constructor's chunk loop, readEvent's loop and readConstantPool's
  chain of deltas do not terminate in Java on some inputs: a chunk of size 0,
  a skipped record of size 0, a delta that leads back to an earlier pool.
  The model bounds each with a `fuel` parameter and answers `OutOfFuel` when
  the bound runs out. It does not say what Java does past that bound, which
  is to loop forever.
- The bodies of JfrClass, JfrField, Element, Dictionary, ClassRef, MethodRef,
  StackTrace and the event classes are not part of this model's source. They
  are modelled from their use in JfrReader:
  - a class has an id parsed from "id", the "name" attribute and its field
    children;
  - a field has a name, a type id parsed from "class" and whether
    "constantPool" is "true";
  - `Dictionary.preallocate(n)` returns n and `put` is a map update.
- Chunks.Settle: the contract does not relate durationNanos to the chunks
  beyond its definition (the largest chunk end minus the first start, in long
  arithmetic). Only ChunksEnd bounds that largest end.
- Meta.ParseInt: only the ASCII digits 0-9 are taken as digits. Java's
  `Integer.parseInt` also accepts every other Unicode decimal digit (Arabic-Indic,
  fullwidth and so on), where the model answers NumberFormat; ParseIntRejects
  states that narrower rejection. Type ids in the metadata are assumed ASCII.
- The entry readers of Pools and the parse functions of Meta listed below state
  only bounds in their own contracts. What they read is stated by the
  PoolWriter and MetaWriter round trips, which cover well-formed written input.
  The error cases are stated by NegativeDepth, SymbolRejects, ElementRejects,
  MetaRejects and the Wire and Codec lemmas.
- Pools.ThreadAt: own contract states only the bounds; ThreadName and
  PoolWriter.ThreadRoundTrip give the entry.
- Pools.ClassAt: own contract states only the bounds; PoolWriter.ClassRoundTrip
  gives the entry.
- Pools.MethodAt: own contract states only the bounds;
  PoolWriter.MethodRoundTrip gives the entry.
- Pools.FrameAt: own contract states only the bounds; PoolWriter.FrameRoundTrip
  gives the method and type.
- Pools.StackTraceBody: own contract states only the bounds; NegativeDepth and
  PoolWriter.StackTraceRoundTrip give the error and the frames.
- Pools.StackTraceAt: own contract states only the bounds;
  PoolWriter.StackTraceRoundTrip gives the entry.
- Pools.SymbolAt: own contract states only the bounds; SymbolEncodingChecked,
  PoolWriter.SymbolRejects and PoolWriter.SymbolRoundTrip give its behaviour.
- Pools.MapEntryAt: own contract states only the bounds;
  PoolWriter.MapEntryRoundTrip gives the pair.
- Pools.FieldAt: own contract states only that at least one byte is consumed;
  PoolWriter.FieldRoundTrip gives the varlong-or-string choice.
- Pools.FieldsFrom: own contract states only the bounds;
  PoolWriter.FieldsFromRoundTrip gives the fields read.
- Pools.OtherAt: own contract states only the bounds; PoolWriter.OtherRoundTrip
  gives what is read.
- Pools.OtherFrom: own contract states only the bounds;
  PoolWriter.OtherFromRoundTrip gives what is read.
- Pools.OtherConstants: own contract states only the bounds;
  PoolWriter.OtherConstantsRoundTrip gives what is read. The values are skipped
  as in the source and are not kept.
- Pools.PoolHeader: own contract states only the bounds;
  PoolWriter.PoolHeaderRoundTrip gives the delta and the count.
- Pools.ConstantPool: own contract states the bounds and that no table loses a
  key; ConstantPoolTurn gives each step of the chain. No lemma follows the whole
  chain of a written file.
- Meta.AttrAt: own contract states only the bounds; MetaWriter.AttrRoundTrip
  gives the pair.
- Meta.AttrsFrom: own contract states that earlier keys stay;
  MetaWriter.AttrsRoundTrip gives the map.
- Meta.ElementHead: own contract states only the bounds; ElementRejects and
  MetaWriter.ElementHeadRoundTrip give the errors and the name and map.
- Meta.ElementAt: own contract states only the bounds; MetaWriter.ElementMade
  gives the element made, and MetaWriter.LeafRoundTrip the whole node for an
  element without children. No round trip covers a written tree with
  children; RegisterNodeKeys and InfosNodeKeys state what any tree registers.
- Meta.ElementFrom: own contract states only the bounds; ChildrenFrom gives the
  number of children.
- Meta.MetaHeader: own contract states only the bounds;
  MetaWriter.MetaHeaderRoundTrip gives what is consumed.
- Meta.MetaAt: own contract states only the bounds; MetaWriter.MetaRoundTrip
  and MetaRejects give the table, the root and the negative-size error.
- Meta.MetaTable: own contract states only the bounds; MetaWriter.MetaRoundTrip
  gives the table and the root.
- Stream.MoveToNextChunk: own ensures state only validity;
  MoveToNextChunkMoves gives every case.
- Chunks.ChunksFrom: own ensures state only the bounds; ChunksStep gives each
  turn (the next start, the later end, coherent tables) and ChunksEnd bounds
  the end.
- `Collections.sort` is modelled as a stable insertion sort by event time
  (the ordering of Event's `compareTo`, whose body is not part of this
  model's source). Only sortedness and permutation are proved, not stability.
- The time fields the constructor reads and the records' fields are stored
  as the raw Java longs. Nothing is converted to wall-clock time.
