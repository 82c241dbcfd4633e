/** The dynamic MessagePack value every wire datum is exchanged as, and the
    narrowing calls (`AsList`, `AsInt32`, ...) with which the client code
    reads it. A narrowing of the wrong shape throws in the MessagePack
    library; here it is `Failure(TypeMismatch)`. The library returns null
    when a string, binary, list or dictionary narrowing meets `Nil`; null
    references are not modelled, so `Nil` is a mismatch here too. */
module Values {
  import opened Wrappers

  type byte = x: int | 0 <= x < 256

  /** A decoded MessagePack object. Raw strings and binaries share `Str`:
      their payload is kept as text under a one-byte-per-character code page.
      `Map` keeps the entries in wire order, which is the order a dictionary
      enumerates them. `Ext` is an extension object: type code and body. */
  datatype Value =
    | Nil
    | Bool(b: bool)
    | Int(i: int)
    | Str(s: string)
    | Array(items: seq<Value>)
    | Map(entries: seq<(Value, Value)>)
    | Ext(code: int, body: seq<byte>)

  /** The exceptions the modelled code can raise. */
  datatype Fault =
    | TypeMismatch        // a narrowing As... call on a value of another shape or range
    | IndexOutOfRange     // a list or array indexer past the end (or negative)
    | ArgumentOutOfRange  // List.RemoveRange with a negative index or count
    | KeyNotFound         // a Dictionary indexer on a missing key
    | DuplicateKey        // Dictionary.Add on a key already present
    | AlreadyCompleted    // TaskCompletionSource.SetResult on a completed slot
    | Truncated           // the unpacker found no complete object at the read offset
    | WrongThread         // a window property set off the thread that owns the window

  const Int32Min: int := -0x8000_0000
  const Int32Max: int := 0x7FFF_FFFF
  const Int64Min: int := -0x8000_0000_0000_0000
  const Int64Max: int := 0x7FFF_FFFF_FFFF_FFFF
  const UInt32Max: int := 0xFFFF_FFFF

  predicate InInt32(i: int) { Int32Min <= i <= Int32Max }
  predicate InInt64(i: int) { Int64Min <= i <= Int64Max }

  function AsList(v: Value): Result<seq<Value>, Fault> {
    if v.Array? then Success(v.items) else Failure(TypeMismatch)
  }

  function AsString(v: Value): Result<string, Fault> {
    if v.Str? then Success(v.s) else Failure(TypeMismatch)
  }

  /** `AsBinary`: the raw payload (see `Str`). */
  function AsBinary(v: Value): Result<string, Fault> {
    if v.Str? then Success(v.s) else Failure(TypeMismatch)
  }

  function AsBoolean(v: Value): Result<bool, Fault> {
    if v.Bool? then Success(v.b) else Failure(TypeMismatch)
  }

  function AsDictionary(v: Value): Result<seq<(Value, Value)>, Fault> {
    if v.Map? then Success(v.entries) else Failure(TypeMismatch)
  }

  function AsExtBody(v: Value): Result<seq<byte>, Fault> {
    if v.Ext? then Success(v.body) else Failure(TypeMismatch)
  }

  /** Integer narrowings succeed only when the value fits the target type. */
  function AsIntIn(v: Value, lo: int, hi: int): Result<int, Fault> {
    if v.Int? && lo <= v.i <= hi then Success(v.i) else Failure(TypeMismatch)
  }

  function AsInt32(v: Value): Result<int, Fault> { AsIntIn(v, Int32Min, Int32Max) }
  function AsInt64(v: Value): Result<int, Fault> { AsIntIn(v, Int64Min, Int64Max) }
  function AsUInt32(v: Value): Result<int, Fault> { AsIntIn(v, 0, UInt32Max) }
  function AsByte(v: Value): Result<int, Fault> { AsIntIn(v, 0, 255) }
  function AsSByte(v: Value): Result<int, Fault> { AsIntIn(v, -128, 127) }

  /** The C# list indexer `xs[i]`. */
  function At<T>(xs: seq<T>, i: int): Result<T, Fault> {
    if 0 <= i < |xs| then Success(xs[i]) else Failure(IndexOutOfRange)
  }

  /** Narrows every element to a list, in order, stopping at the first
      element that is not an array, as the loop that collects argument
      tuples does. */
  function AsLists(xs: seq<Value>): (r: Result<seq<seq<Value>>, Fault>)
    ensures r.Success? <==> forall i | 0 <= i < |xs| :: xs[i].Array?
    ensures r.Success? ==>
              && |r.value| == |xs|
              && forall i | 0 <= i < |xs| :: xs[i] == Array(r.value[i])
  {
    if |xs| == 0 then Success([])
    else
      var head :- AsList(xs[0]);
      var tail :- AsLists(xs[1..]);
      Success([head] + tail)
  }
}
