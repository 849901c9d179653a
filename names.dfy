/** The string constants JfrReader compares names with, as UTF-16 code units
    (each written out beside its text). */
module Names {

  /** "class" */
  const CLASS: seq<bv16> := [0x63, 0x6c, 0x61, 0x73, 0x73]
  /** "field" */
  const FIELD: seq<bv16> := [0x66, 0x69, 0x65, 0x6c, 0x64]
  /** "superType" */
  const SUPER_TYPE: seq<bv16> := [0x73, 0x75, 0x70, 0x65, 0x72, 0x54, 0x79, 0x70, 0x65]
  /** "id" */
  const ID: seq<bv16> := [0x69, 0x64]
  /** "name" */
  const NAME: seq<bv16> := [0x6e, 0x61, 0x6d, 0x65]
  /** "constantPool" */
  const CONSTANT_POOL: seq<bv16> := [0x63, 0x6f, 0x6e, 0x73, 0x74, 0x61, 0x6e, 0x74, 0x50, 0x6f, 0x6f, 0x6c]
  /** "true" */
  const TRUE: seq<bv16> := [0x74, 0x72, 0x75, 0x65]
  /** "group" */
  const GROUP: seq<bv16> := [0x67, 0x72, 0x6f, 0x75, 0x70]
  /** "hidden" */
  const HIDDEN: seq<bv16> := [0x68, 0x69, 0x64, 0x64, 0x65, 0x6e]
  /** "java.lang.String" */
  const JAVA_LANG_STRING: seq<bv16> :=
    [0x6a, 0x61, 0x76, 0x61, 0x2e, 0x6c, 0x61, 0x6e, 0x67, 0x2e, 0x53, 0x74,
     0x72, 0x69, 0x6e, 0x67]
  /** "jdk.types.ChunkHeader" */
  const CHUNK_HEADER: seq<bv16> :=
    [0x6a, 0x64, 0x6b, 0x2e, 0x74, 0x79, 0x70, 0x65, 0x73, 0x2e, 0x43, 0x68,
     0x75, 0x6e, 0x6b, 0x48, 0x65, 0x61, 0x64, 0x65, 0x72]
  /** "java.lang.Thread" */
  const JAVA_LANG_THREAD: seq<bv16> :=
    [0x6a, 0x61, 0x76, 0x61, 0x2e, 0x6c, 0x61, 0x6e, 0x67, 0x2e, 0x54, 0x68,
     0x72, 0x65, 0x61, 0x64]
  /** "java.lang.Class" */
  const JAVA_LANG_CLASS: seq<bv16> :=
    [0x6a, 0x61, 0x76, 0x61, 0x2e, 0x6c, 0x61, 0x6e, 0x67, 0x2e, 0x43, 0x6c,
     0x61, 0x73, 0x73]
  /** "jdk.types.Symbol" */
  const SYMBOL: seq<bv16> :=
    [0x6a, 0x64, 0x6b, 0x2e, 0x74, 0x79, 0x70, 0x65, 0x73, 0x2e, 0x53, 0x79,
     0x6d, 0x62, 0x6f, 0x6c]
  /** "jdk.types.Method" */
  const METHOD: seq<bv16> :=
    [0x6a, 0x64, 0x6b, 0x2e, 0x74, 0x79, 0x70, 0x65, 0x73, 0x2e, 0x4d, 0x65,
     0x74, 0x68, 0x6f, 0x64]
  /** "jdk.types.StackTrace" */
  const STACK_TRACE: seq<bv16> :=
    [0x6a, 0x64, 0x6b, 0x2e, 0x74, 0x79, 0x70, 0x65, 0x73, 0x2e, 0x53, 0x74,
     0x61, 0x63, 0x6b, 0x54, 0x72, 0x61, 0x63, 0x65]
  /** "jdk.types.FrameType" */
  const FRAME_TYPE: seq<bv16> :=
    [0x6a, 0x64, 0x6b, 0x2e, 0x74, 0x79, 0x70, 0x65, 0x73, 0x2e, 0x46, 0x72,
     0x61, 0x6d, 0x65, 0x54, 0x79, 0x70, 0x65]
  /** "jdk.types.ThreadState" */
  const THREAD_STATE: seq<bv16> :=
    [0x6a, 0x64, 0x6b, 0x2e, 0x74, 0x79, 0x70, 0x65, 0x73, 0x2e, 0x54, 0x68,
     0x72, 0x65, 0x61, 0x64, 0x53, 0x74, 0x61, 0x74, 0x65]
  /** "jdk.ExecutionSample" */
  const EXECUTION_SAMPLE: seq<bv16> :=
    [0x6a, 0x64, 0x6b, 0x2e, 0x45, 0x78, 0x65, 0x63, 0x75, 0x74, 0x69, 0x6f,
     0x6e, 0x53, 0x61, 0x6d, 0x70, 0x6c, 0x65]
  /** "jdk.NativeMethodSample" */
  const NATIVE_METHOD_SAMPLE: seq<bv16> :=
    [0x6a, 0x64, 0x6b, 0x2e, 0x4e, 0x61, 0x74, 0x69, 0x76, 0x65, 0x4d, 0x65,
     0x74, 0x68, 0x6f, 0x64, 0x53, 0x61, 0x6d, 0x70, 0x6c, 0x65]
  /** "jdk.ObjectAllocationInNewTLAB" */
  const ALLOCATION_IN_NEW_TLAB: seq<bv16> :=
    [0x6a, 0x64, 0x6b, 0x2e, 0x4f, 0x62, 0x6a, 0x65, 0x63, 0x74, 0x41, 0x6c,
     0x6c, 0x6f, 0x63, 0x61, 0x74, 0x69, 0x6f, 0x6e, 0x49, 0x6e, 0x4e, 0x65,
     0x77, 0x54, 0x4c, 0x41, 0x42]
  /** "jdk.ObjectAllocationOutsideTLAB" */
  const ALLOCATION_OUTSIDE_TLAB: seq<bv16> :=
    [0x6a, 0x64, 0x6b, 0x2e, 0x4f, 0x62, 0x6a, 0x65, 0x63, 0x74, 0x41, 0x6c,
     0x6c, 0x6f, 0x63, 0x61, 0x74, 0x69, 0x6f, 0x6e, 0x4f, 0x75, 0x74, 0x73,
     0x69, 0x64, 0x65, 0x54, 0x4c, 0x41, 0x42]
  /** "jdk.JavaMonitorEnter" */
  const MONITOR_ENTER: seq<bv16> :=
    [0x6a, 0x64, 0x6b, 0x2e, 0x4a, 0x61, 0x76, 0x61, 0x4d, 0x6f, 0x6e, 0x69,
     0x74, 0x6f, 0x72, 0x45, 0x6e, 0x74, 0x65, 0x72]
  /** "jdk.ThreadPark" */
  const THREAD_PARK: seq<bv16> :=
    [0x6a, 0x64, 0x6b, 0x2e, 0x54, 0x68, 0x72, 0x65, 0x61, 0x64, 0x50, 0x61,
     0x72, 0x6b]

  const MINUS: bv16 := 0x2d
  const PLUS: bv16 := 0x2b
  /** The ASCII digits '0' .. '9'. */
  const DIGITS: seq<bv16> := [0x30, 0x31, 0x32, 0x33, 0x34, 0x35, 0x36, 0x37, 0x38, 0x39]
}
