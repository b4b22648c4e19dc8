/** The PHP runtime notions the plugins rely on: values, array keys, thrown
    objects, and the frames `debug_backtrace` returns. */
module Php {
  import opened Common
  import opened Bytes

  /** An array key: PHP arrays are ordered maps from integers or strings. */
  datatype Key = IntKey(i: int) | StrKey(s: ByteString)

  /** An object reference: its class (`get_class`) and identity token
      (`spl_object_hash`), both opaque here. */
  datatype ObjectRef = ObjectRef(cls: ByteString, id: ByteString)

  /** A PHP value, one constructor per `gettype` answer. Floats are opaque. */
  datatype Value =
    | PNull
    | PBool(b: bool)
    | PInt(i: int)
    | PFloat(token: ByteString)
    | PString(s: ByteString)
    | PArray(entries: seq<(Key, Value)>)
    | PObject(ref: ObjectRef)
    | PResource(kind: ByteString)
    | PClosedResource

  type PhpArray = seq<(Key, Value)>

  /** The names `gettype` returns for the kinds no other branch handles. */
  function TypeName(v: Value): ByteString
  {
    match v
    case PNull => "NULL"
    case PBool(_) => "boolean"
    case PInt(_) => "integer"
    case PFloat(_) => "double"
    case PString(_) => "string"
    case PArray(_) => "array"
    case PObject(_) => "object"
    case PResource(_) => "resource"
    case PClosedResource => "resource (closed)"
  }

  /** Something thrown: `catch (\Exception $e)` catches only the first kind. */
  datatype Throwable = Exception(message: ByteString) | Error(message: ByteString)

  /** How a hook call ended: it returned a value, or something escaped it. */
  datatype Outcome<+T> = Returned(value: T) | Raised(thrown: Throwable)

  /** One frame as `debug_backtrace` reports it; every key may be absent.
      `object` is only present with DEBUG_BACKTRACE_PROVIDE_OBJECT, `args` only
      without DEBUG_BACKTRACE_IGNORE_ARGS. */
  datatype RawFrame = RawFrame(
    file: Option<ByteString>,
    line: Option<int>,
    func: Option<ByteString>,
    cls: Option<ByteString>,
    callType: Option<ByteString>,
    obj: Option<ObjectRef>,
    args: Option<PhpArray>)

  /** `$item['key'] ?? ''` for the string-valued keys of a frame. */
  function OrEmpty(o: Option<ByteString>): ByteString
  {
    if o.Some? then o.value else ""
  }

  /** The runtime hands `debug_backtrace`'s limit on as a C `int`: the low
      32 bits of the integer, read as two's complement. */
  function Int32Of(l: int): (r: int)
    ensures -0x8000_0000 <= r < 0x8000_0000
    ensures -0x8000_0000 <= l < 0x8000_0000 ==> r == l
    ensures (l - r) % 0x1_0000_0000 == 0
    ensures l >= 0 ==> r <= l
  {
    (l + 0x8000_0000) % 0x1_0000_0000 - 0x8000_0000
  }

  /** `debug_backtrace(options, $limit)` applied to the call stack seen from the
      capture point. The limit is first cut to 32 bits; then a positive limit
      keeps that many innermost frames, 0 keeps them all, and a negative limit
      yields no frame (the runtime's loop runs while
      `limit == 0 || frameno < limit`). */
  function Capture(stack: seq<RawFrame>, limit: int): (r: seq<RawFrame>)
    ensures Int32Of(limit) > 0 ==> |r| == Min(Int32Of(limit), |stack|)
    ensures Int32Of(limit) == 0 ==> r == stack
    ensures Int32Of(limit) < 0 ==> r == []
    ensures 0 < limit < 0x8000_0000 ==> |r| == Min(limit, |stack|)
    ensures -0x8000_0000 <= limit < 0 ==> r == []
    ensures r == stack[..|r|]
  {
    var n := Int32Of(limit);
    if n > 0 then stack[..Min(n, |stack|)]
    else if n == 0 then stack
    else []
  }

  /** Limits beyond the 32-bit range wrap: `PHP_INT_MAX` and 2^31 capture
      nothing, 2^32 captures every frame, and 2^32 + 5 captures five. */
  lemma WrappedLimits(stack: seq<RawFrame>)
    ensures Capture(stack, 0x7fff_ffff_ffff_ffff) == []
    ensures Capture(stack, 0x8000_0000) == []
    ensures Capture(stack, 0x1_0000_0000) == stack
    ensures Capture(stack, 0x1_0000_0005) == stack[..Min(5, |stack|)]
  {
    assert Int32Of(0x7fff_ffff_ffff_ffff) == -1;
    assert Int32Of(0x8000_0000) == -0x8000_0000;
    assert Int32Of(0x1_0000_0000) == 0;
    assert Int32Of(0x1_0000_0005) == 5;
  }

  /** A frame as captured with DEBUG_BACKTRACE_IGNORE_ARGS and without
      DEBUG_BACKTRACE_PROVIDE_OBJECT: neither arguments nor object. */
  function Bare(f: RawFrame): (r: RawFrame)
    ensures r.args.None? && r.obj.None?
    ensures r.file == f.file && r.line == f.line && r.func == f.func
    ensures r.cls == f.cls && r.callType == f.callType
  {
    f.(args := None, obj := None)
  }

  function CaptureBare(stack: seq<RawFrame>, limit: int): (r: seq<RawFrame>)
    ensures |r| == |Capture(stack, limit)|
    ensures forall i :: 0 <= i < |r| ==> r[i] == Bare(stack[i])
  {
    var c := Capture(stack, limit);
    seq(|c|, i requires 0 <= i < |c| => Bare(c[i]))
  }
}
