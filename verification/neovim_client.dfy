/** The typed client over the transport: the decoding of Neovim's handle
    extension objects (`ExtToInt64`), the filter that turns `redraw`
    notifications into redraw events, and the fixed `(method, params)` pair
    plus result projection of every typed request wrapper. */
module NeovimClient {
  import opened Wrappers
  import opened Values
  import opened MsgPackIO

  // ---------------------------------------------------------------------
  // ExtToInt64: little-endian two's complement over a zero-extended body
  // ---------------------------------------------------------------------

  const Two63: int := 0x8000_0000_0000_0000
  const Two64: int := 0x1_0000_0000_0000_0000

  function Pow256(n: nat): (r: nat)
    ensures r > 0
  {
    if n == 0 then 1 else 256 * Pow256(n - 1)
  }

  /** The unsigned little-endian reading of a byte string: byte i weighs 256^i. */
  function LittleEndian(b: seq<byte>): nat {
    if |b| == 0 then 0 else b[0] + 256 * LittleEndian(b[1..])
  }

  function Zeros(n: nat): (r: seq<byte>)
    ensures |r| == n && forall i | 0 <= i < n :: r[i] == 0
  {
    seq(n, _ => 0)
  }

  /** The body resized to 8 bytes when it is shorter: zero bytes are added
      at the high end. A longer body is kept whole. */
  function Widen(b: seq<byte>): (r: seq<byte>)
    ensures |r| >= 8
    ensures |b| < 8 ==> r == b + Zeros(8 - |b|)
    ensures |b| >= 8 ==> r == b
  {
    if |b| < 8 then b + Zeros(8 - |b|) else b
  }

  /** Reinterpretation of an unsigned 64-bit value as a signed one. */
  function ToSigned64(u: int): int {
    if u >= Two63 then u - Two64 else u
  }

  /** An n-byte reading is below 256^n. */
  lemma {:induction false} LittleEndianBound(b: seq<byte>)
    ensures LittleEndian(b) < Pow256(|b|)
  {
    if |b| > 0 {
      LittleEndianBound(b[1..]);
      assert LittleEndian(b[1..]) <= Pow256(|b| - 1) - 1;
      assert 256 * LittleEndian(b[1..]) <= 256 * Pow256(|b| - 1) - 256;
    }
  }

  lemma Pow256Eight()
    ensures Pow256(7) == 0x100_0000_0000_0000
    ensures Pow256(8) == Two64
  {
    assert Pow256(1) == 256;
    assert Pow256(2) == 0x1_0000;
    assert Pow256(3) == 0x100_0000;
    assert Pow256(4) == 0x1_0000_0000;
    assert Pow256(5) == 0x100_0000_0000;
    assert Pow256(6) == 0x1_0000_0000_0000;
  }

  /** The 8 bytes `BitConverter.ToInt64` reads from the widened body. */
  function Word(body: seq<byte>): (r: seq<byte>)
    ensures |r| == 8
    ensures |body| < 8 ==> r == body + Zeros(8 - |body|)
    ensures |body| >= 8 ==> r == body[..8]
  {
    Widen(body)[..8]
  }

  /** `ExtToInt64` on a little-endian host: the body zero-extended to 8
      bytes, its first 8 bytes read as a signed little-endian 64-bit integer. */
  function ExtToInt64(body: seq<byte>): (r: int)
    ensures InInt64(r)
  {
    var word := Word(body);
    LittleEndianBound(word);
    Pow256Eight();
    ToSigned64(LittleEndian(word))
  }

  /** Zero bytes at the high end do not change the reading. */
  lemma {:induction false} LittleEndianZeroExtend(b: seq<byte>, n: nat)
    ensures LittleEndian(b + Zeros(n)) == LittleEndian(b)
  {
    if |b| == 0 {
      assert b + Zeros(n) == Zeros(n);
      ZerosRead(n);
    } else {
      assert (b + Zeros(n))[1..] == b[1..] + Zeros(n);
      LittleEndianZeroExtend(b[1..], n);
    }
  }

  lemma {:induction false} ZerosRead(n: nat)
    ensures LittleEndian(Zeros(n)) == 0
  {
    if n > 0 {
      assert Zeros(n)[1..] == Zeros(n - 1);
      ZerosRead(n - 1);
    }
  }

  /** A body of at most 8 bytes is read as if zero-extended; one of at most
      7 bytes is never negative and is its plain little-endian value, so a
      one-byte body `[k]` gives `k`. */
  lemma ShortBody(body: seq<byte>)
    requires |body| <= 8
    ensures ExtToInt64(body) == ToSigned64(LittleEndian(body))
    ensures |body| < 8 ==> ExtToInt64(body) == LittleEndian(body)
    ensures |body| == 1 ==> ExtToInt64(body) == body[0]
  {
    WidenedReading(body);
    if |body| < 8 {
      ShortReadingIsSmall(body);
    }
    if |body| == 1 {
      assert body[1..] == [];
      assert LittleEndian(body) == body[0] + 256 * LittleEndian(body[1..]);
    }
  }

  /** Widening a body of at most 8 bytes leaves its reading unchanged. */
  lemma WidenedReading(body: seq<byte>)
    requires |body| <= 8
    ensures LittleEndian(Word(body)) == LittleEndian(body)
  {
    var word := Word(body);
    if |body| < 8 {
      ZeroExtendedReading(body, 8 - |body|, word);
    } else {
      SameReading(body, word);
    }
  }

  lemma ZeroExtendedReading(b: seq<byte>, n: nat, word: seq<byte>)
    requires word == b + Zeros(n)
    ensures LittleEndian(word) == LittleEndian(b)
  {
    LittleEndianZeroExtend(b, n);
  }

  lemma SameReading(body: seq<byte>, word: seq<byte>)
    requires |body| == 8 && word == body[..8]
    ensures LittleEndian(word) == LittleEndian(body)
  {
    assert body[..8] == body;
  }

  /** A reading of at most 7 bytes is below 2^63. */
  lemma ShortReadingIsSmall(b: seq<byte>)
    requires |b| < 8
    ensures LittleEndian(b) < Two63
  {
    LittleEndianBound(b);
    Pow256Monotone(|b|, 7);
    Pow256Eight();
  }

  lemma {:induction false} Pow256Monotone(m: nat, n: nat)
    requires m <= n
    ensures Pow256(m) <= Pow256(n)
  {
    if m < n {
      Pow256Monotone(m, n - 1);
    }
  }

  /** Bytes after the eighth are ignored. */
  lemma LongBody(body: seq<byte>)
    requires |body| >= 8
    ensures ExtToInt64(body) == ExtToInt64(body[..8])
  {
    assert body[..8][..8] == body[..8];
  }

  /** The `k`-byte little-endian encoding of `n` (taken modulo 256^k). */
  function EncodeLittleEndian(n: nat, k: nat): (r: seq<byte>)
    ensures |r| == k
  {
    if k == 0 then [] else [n % 256] + EncodeLittleEndian(n / 256, k - 1)
  }

  lemma {:induction false} DecodeEncode(n: nat, k: nat)
    requires n < Pow256(k)
    ensures LittleEndian(EncodeLittleEndian(n, k)) == n
  {
    if k > 0 {
      var e := EncodeLittleEndian(n, k);
      assert e[1..] == EncodeLittleEndian(n / 256, k - 1);
      DecodeEncode(n / 256, k - 1);
    }
  }

  lemma {:induction false} EncodeDecode(b: seq<byte>)
    ensures EncodeLittleEndian(LittleEndian(b), |b|) == b
  {
    if |b| > 0 {
      var n := LittleEndian(b);
      assert n % 256 == b[0] && n / 256 == LittleEndian(b[1..]);
      EncodeDecode(b[1..]);
    }
  }

  /** The 8-byte little-endian two's complement encoding of a long. */
  function Int64Bytes(n: int): (r: seq<byte>)
    requires InInt64(n)
    ensures |r| == 8
  {
    EncodeLittleEndian(if n < 0 then n + Two64 else n, 8)
  }

  /** Round trip: every long survives encoding into an 8-byte body and
      decoding with `ExtToInt64`, and every 8-byte body survives the reverse. */
  lemma ExtRoundTrip(n: int, body: seq<byte>)
    requires InInt64(n)
    ensures ExtToInt64(Int64Bytes(n)) == n
    ensures |body| == 8 ==> Int64Bytes(ExtToInt64(body)) == body
  {
    Pow256Eight();
    var u := if n < 0 then n + Two64 else n;
    DecodeEncode(u, 8);
    ShortBody(Int64Bytes(n));
    if |body| == 8 {
      ShortBody(body);
      LittleEndianBound(body);
      EncodeDecode(body);
    }
  }

  // ---------------------------------------------------------------------
  // The redraw filter
  // ---------------------------------------------------------------------

  /** `OnNotificationReceived`: a notification not named `redraw` is
      ignored; a `redraw` notification raises a redraw event whose function
      list is its params, narrowed to a list (a non-list throws). */
  function OnNotificationReceived(notice: Notice): (r: Result<Option<seq<Value>>, Fault>)
    ensures r.Failure? <==> notice.name == "redraw" && !notice.params.Array?
    ensures r.Success? && r.value.Some? <==> notice.name == "redraw" && notice.params.Array?
    ensures r.Success? && r.value.Some? ==> Array(r.value.value) == notice.params
  {
    if notice.name != "redraw" then Success(None)
    else
      var list :- AsList(notice.params);
      Success(Some(list))
  }

  // ---------------------------------------------------------------------
  // Typed request wrappers
  // ---------------------------------------------------------------------

  /** How a wrapper reads element `[1]` of the response pair. */
  datatype ResultKind =
    | Nothing     // void wrappers: the reply is awaited and discarded
    | Long        // AsInt64
    | Text        // AsString
    | Flag        // AsBoolean
    | Object      // ToObject: the value itself (the CLR conversion is left out)
    | Raw         // the MessagePackObject itself
    | Longs       // AsList, then AsInt64 per element
    | Texts       // AsList, then AsString per element
    | Handle      // the extension body, then ExtToInt64
    | Handles     // AsList, then ExtToInt64 of each element's extension body

  /** The name, the number of C# parameters and the result kind of a wrapper. */
  datatype Signature = Signature(name: string, arity: nat, kind: ResultKind)

  datatype Api =
    | BufferLineCount | BufferGetLine | BufferSetLine | BufferDelLine
    | BufferGetLineSlice | BufferSetLineSlice | BufferGetVar | BufferSetVar
    | BufferGetOption | BufferSetOption | BufferGetNumber | BufferGetName
    | BufferIsValid | BufferInsert | BufferGetMark
    | UiAttach | UiDetach | UiTryResize
    | VimCommand | VimFeedkeys | VimInput | VimReplaceTermcodes
    | VimCommandOutput | VimEval | VimStrwidth | VimListRuntimePaths
    | VimChangeDirectory | VimGetCurrentLine | VimSetCurrentLine
    | VimDelCurrentLine | VimGetVar | VimSetVar | VimGetVvar
    | VimGetOption | VimSetOption | VimOutWrite | VimErrWrite
    | VimReportError | VimGetBuffers | VimGetCurrentBuffer
    | VimSetCurrentBuffer | VimGetWindows | VimGetCurrentWindow
    | VimSetCurrentWindow | VimGetTabpages | VimGetCurrentTabpage
    | VimSetCurrentTabpage | VimSubscribe | VimUnsubscribe
    | VimNameToColor | VimGetColorMap | VimGetApiInfo
    | WindowGetBuffer | WindowGetCursor | WindowSetCursor
    | WindowGetHeight | WindowSetHeight | WindowGetWidth
    | WindowSetWidth | WindowGetVar | WindowSetVar | WindowGetOption
    | WindowSetOption | WindowGetPosition | WindowGetTabpage
    | WindowIsValid

  function Sig(a: Api): Signature {
    match a
    case BufferLineCount => Signature("buffer_line_count", 1, Long)
    case BufferGetLine => Signature("buffer_get_line", 2, Text)
    case BufferSetLine => Signature("buffer_set_line", 3, Nothing)
    case BufferDelLine => Signature("buffer_del_line", 2, Nothing)
    case BufferGetLineSlice => Signature("buffer_get_line_slice", 5, Texts)
    case BufferSetLineSlice => Signature("buffer_set_line_slice", 6, Nothing)
    case BufferGetVar => Signature("buffer_get_var", 2, Object)
    case BufferSetVar => Signature("buffer_set_var", 3, Nothing)
    case BufferGetOption => Signature("buffer_get_option", 2, Object)
    case BufferSetOption => Signature("buffer_set_option", 3, Nothing)
    case BufferGetNumber => Signature("buffer_get_number", 1, Long)
    case BufferGetName => Signature("buffer_get_name", 1, Text)
    case BufferIsValid => Signature("buffer_is_valid", 1, Flag)
    case BufferInsert => Signature("buffer_insert", 3, Nothing)
    case BufferGetMark => Signature("buffer_get_mark", 2, Longs)
    case UiAttach => Signature("ui_attach", 3, Nothing)
    case UiDetach => Signature("ui_detach", 0, Nothing)
    case UiTryResize => Signature("ui_try_resize", 2, Nothing)
    case VimCommand => Signature("vim_command", 1, Nothing)
    case VimFeedkeys => Signature("vim_feedkeys", 3, Nothing)
    case VimInput => Signature("vim_input", 1, Long)
    case VimReplaceTermcodes => Signature("vim_replace_termcodes", 4, Text)
    case VimCommandOutput => Signature("vim_command_output", 1, Text)
    case VimEval => Signature("vim_eval", 1, Object)
    case VimStrwidth => Signature("vim_strwidth", 1, Long)
    case VimListRuntimePaths => Signature("vim_list_runtime_paths", 4, Texts)
    case VimChangeDirectory => Signature("vim_change_directory", 1, Nothing)
    case VimGetCurrentLine => Signature("vim_get_current_line", 0, Text)
    case VimSetCurrentLine => Signature("vim_set_current_line", 1, Nothing)
    case VimDelCurrentLine => Signature("vim_del_current_line", 0, Nothing)
    case VimGetVar => Signature("vim_get_var", 1, Object)
    case VimSetVar => Signature("vim_set_var", 2, Nothing)
    case VimGetVvar => Signature("vim_get_vvar", 1, Object)
    case VimGetOption => Signature("vim_get_option", 1, Text)
    case VimSetOption => Signature("vim_set_option", 2, Nothing)
    case VimOutWrite => Signature("vim_out_write", 1, Nothing)
    case VimErrWrite => Signature("vim_err_write", 1, Nothing)
    case VimReportError => Signature("vim_report_error", 1, Nothing)
    case VimGetBuffers => Signature("vim_get_buffers", 0, Handles)
    case VimGetCurrentBuffer => Signature("vim_get_current_buffer", 0, Handle)
    case VimSetCurrentBuffer => Signature("vim_set_current_buffer", 1, Nothing)
    case VimGetWindows => Signature("vim_get_windows", 0, Handles)
    case VimGetCurrentWindow => Signature("vim_get_current_window", 0, Handle)
    case VimSetCurrentWindow => Signature("vim_set_current_window", 1, Nothing)
    case VimGetTabpages => Signature("vim_get_tabpages", 0, Handles)
    case VimGetCurrentTabpage => Signature("vim_get_current_tabpage", 0, Handle)
    case VimSetCurrentTabpage => Signature("vim_set_current_tabpage", 1, Nothing)
    case VimSubscribe => Signature("vim_subscribe", 1, Nothing)
    case VimUnsubscribe => Signature("vim_unsubscribe", 1, Nothing)
    case VimNameToColor => Signature("vim_name_to_color", 1, Long)
    case VimGetColorMap => Signature("vim_get_color_map", 0, Raw)
    case VimGetApiInfo => Signature("vim_get_api_info", 0, Raw)
    case WindowGetBuffer => Signature("window_get_buffer", 1, Handle)
    case WindowGetCursor => Signature("window_get_cursor", 1, Longs)
    case WindowSetCursor => Signature("window_set_cursor", 2, Nothing)
    case WindowGetHeight => Signature("window_get_height", 1, Long)
    case WindowSetHeight => Signature("window_set_height", 2, Nothing)
    case WindowGetWidth => Signature("window_get_width", 1, Long)
    case WindowSetWidth => Signature("window_set_width", 2, Nothing)
    case WindowGetVar => Signature("window_get_var", 2, Object)
    case WindowSetVar => Signature("window_set_var", 3, Nothing)
    case WindowGetOption => Signature("window_get_option", 2, Object)
    case WindowSetOption => Signature("window_set_option", 3, Nothing)
    case WindowGetPosition => Signature("window_get_position", 1, Longs)
    case WindowGetTabpage => Signature("window_get_tabpage", 1, Handle)
    case WindowIsValid => Signature("window_is_valid", 1, Flag)
  }

  /** The params array a wrapper sends for its C# arguments (already packed):
      the arguments in order, except that `buffer_insert` leaves out `lnum`. */
  function Params(a: Api, args: seq<Value>): seq<Value>
    requires |args| == Sig(a).arity
  {
    if a == BufferInsert then [args[0], args[2]] else args
  }

  /** A wrapper call: a `Request` (type 0) whose reply is always awaited. */
  function Invoke(io: Io, a: Api, args: seq<Value>): Result<Sent, Fault>
    requires |args| == Sig(a).arity
  {
    RequestAsync(io, TypeCode(Request), Sig(a).name, Params(a, args), true)
  }

  /** Each wrapper writes the request frame `[0, id, name, params]` with its
      fixed method name and exactly its listed arguments, in order; only
      `buffer_insert` drops one (its `lnum`), and `ui_attach` sends
      `[width, height, rgb]`. */
  lemma InvokeSendsListedParams(io: Io, a: Api, args: seq<Value>)
    requires |args| == Sig(a).arity
    requires Invoke(io, a, args).Success?
    ensures var f := Invoke(io, a, args).value.frame;
            && f == Array([Int(0), Int(io.nextId), Str(Sig(a).name), f.items[3]])
            && f.items[3].Array?
            && (a != BufferInsert ==> f.items[3].items == args)
            && (a == BufferInsert ==> f.items[3].items == [args[0], args[2]] && |args| == 3)
            && (a == UiAttach ==> Sig(a).name == "ui_attach" && f.items[3].items == args && |args| == 3)
    ensures Invoke(io, a, args).value.awaiting == Some(io.nextId as int)
  {
  }

  /** The typed value a wrapper returns. */
  datatype Typed =
    | Done
    | LongValue(n: int)
    | TextValue(s: string)
    | FlagValue(b: bool)
    | ValueOf(v: Value)
    | LongList(ns: seq<int>)
    | TextList(ss: seq<string>)

  function AsInt64s(xs: seq<Value>): (r: Result<seq<int>, Fault>)
    ensures r.Success? <==> forall i | 0 <= i < |xs| :: xs[i].Int? && InInt64(xs[i].i)
    ensures r.Success? ==> |r.value| == |xs| && forall i | 0 <= i < |xs| :: xs[i] == Int(r.value[i])
  {
    if |xs| == 0 then Success([])
    else
      var head :- AsInt64(xs[0]);
      var tail :- AsInt64s(xs[1..]);
      Success([head] + tail)
  }

  function AsStrings(xs: seq<Value>): (r: Result<seq<string>, Fault>)
    ensures r.Success? <==> forall i | 0 <= i < |xs| :: xs[i].Str?
    ensures r.Success? ==> |r.value| == |xs| && forall i | 0 <= i < |xs| :: xs[i] == Str(r.value[i])
  {
    if |xs| == 0 then Success([])
    else
      var head :- AsString(xs[0]);
      var tail :- AsStrings(xs[1..]);
      Success([head] + tail)
  }

  /** The extension bodies of a list, in order. */
  function ExtBodies(xs: seq<Value>): (r: Result<seq<seq<byte>>, Fault>)
    ensures r.Success? <==> forall i | 0 <= i < |xs| :: xs[i].Ext?
    ensures r.Success? ==> |r.value| == |xs| && forall i | 0 <= i < |xs| :: r.value[i] == xs[i].body
  {
    if |xs| == 0 then Success([])
    else
      var head :- AsExtBody(xs[0]);
      var tail :- ExtBodies(xs[1..]);
      Success([head] + tail)
  }

  /** The handles of a list of extension objects: each element's body
      decoded with `ExtToInt64`, in list order. */
  function HandlesOf(xs: seq<Value>): (r: Result<seq<int>, Fault>)
    ensures r.Success? <==> forall i | 0 <= i < |xs| :: xs[i].Ext?
    ensures r.Success? ==>
              && |r.value| == |xs|
              && forall i | 0 <= i < |xs| :: r.value[i] == ExtToInt64(xs[i].body)
  {
    var bodies :- ExtBodies(xs);
    Success(seq(|bodies|, i requires 0 <= i < |bodies| => ExtToInt64(bodies[i])))
  }

  /** The projection of the response's `result` element to the wrapper's
      return type. */
  function Unmarshal(kind: ResultKind, result: Value): Result<Typed, Fault> {
    match kind
    case Nothing => Success(Done)
    case Long => var n :- AsInt64(result); Success(LongValue(n))
    case Text => var s :- AsString(result); Success(TextValue(s))
    case Flag => var b :- AsBoolean(result); Success(FlagValue(b))
    case Object => Success(ValueOf(result))
    case Raw => Success(ValueOf(result))
    case Longs => var xs :- AsList(result); var ns :- AsInt64s(xs); Success(LongList(ns))
    case Texts => var xs :- AsList(result); var ss :- AsStrings(xs); Success(TextList(ss))
    case Handle => var body :- AsExtBody(result); Success(LongValue(ExtToInt64(body)))
    case Handles => var xs :- AsList(result); var ns :- HandlesOf(xs); Success(LongList(ns))
  }

  /** The whole synchronous call: send the request, handle the response frame
      `[1, id, error, result]` in the int-keyed reader, resume the caller with
      its reply, and project element `[1]` of the reply. */
  function Call(io: Io, a: Api, args: seq<Value>, error: Value, result: Value): (r: Result<(Io, Typed), Fault>)
    requires |args| == Sig(a).arity
  {
    CallAs(io, Sig(a).name, Params(a, args), Sig(a).kind, error, result)
  }

  /** `Call` for a method `name` with its params array and result kind. */
  function CallAs(io: Io, name: string, parameters: seq<Value>, kind: ResultKind, error: Value, result: Value)
    : Result<(Io, Typed), Fault>
  {
    var sent :- RequestAsync(io, TypeCode(Request), name, parameters, true);
    var response := Array([Int(TypeCode(Response)), Int(io.nextId), error, result]);
    var step :- HandleFrame(IntKeyed, sent.io, response);
    match Resume(step.io, io.nextId)
    case None => Failure(KeyNotFound)
    case Some((io', reply)) =>
      var typed :- Unmarshal(kind, reply.result);
      Success((io', typed))
  }

  /** A call from a well-formed state whose id has not wrapped returns
      exactly the projection of the response's `result`, leaves no slot behind
      and advances the id by one; the response's `error` is never inspected. */
  lemma CallProjectsResult(io: Io, a: Api, args: seq<Value>, error: Value, result: Value)
    requires Inv(io) && io.nextId < Int32Max
    requires |args| == Sig(a).arity
    ensures Unmarshal(Sig(a).kind, result).Success? ==>
              Call(io, a, args, error, result)
              == Success((Io(io.nextId + 1, io.pending), Unmarshal(Sig(a).kind, result).value))
    ensures Unmarshal(Sig(a).kind, result).Failure? ==>
              Call(io, a, args, error, result) == Failure(Unmarshal(Sig(a).kind, result).error)
  {
    CallAsProjectsResult(io, Sig(a).name, Params(a, args), Sig(a).kind, error, result);
  }

  lemma CallAsProjectsResult(io: Io, name: string, parameters: seq<Value>, kind: ResultKind,
                             error: Value, result: Value)
    requires Inv(io) && io.nextId < Int32Max
    ensures Unmarshal(kind, result).Success? ==>
              CallAs(io, name, parameters, kind, error, result)
              == Success((Io(io.nextId + 1, io.pending), Unmarshal(kind, result).value))
    ensures Unmarshal(kind, result).Failure? ==>
              CallAs(io, name, parameters, kind, error, result) == Failure(Unmarshal(kind, result).error)
  {
    Exchange(io, name, parameters, error, result);
  }

  /** The request/response exchange underneath every call: from a
      well-formed state, the response to the request just sent resumes its
      caller with `(error, result)` and leaves the table as it was. */
  lemma Exchange(io: Io, name: string, parameters: seq<Value>, error: Value, result: Value)
    requires Inv(io) && io.nextId < Int32Max
    ensures var sent := RequestAsync(io, TypeCode(Request), name, parameters, true);
            var response := Array([Int(TypeCode(Response)), Int(io.nextId), error, result]);
            && sent.Success?
            && HandleFrame(IntKeyed, sent.value.io, response).Success?
            && Resume(HandleFrame(IntKeyed, sent.value.io, response).value.io, io.nextId)
               == Some((Io(io.nextId + 1, io.pending), Reply(error, result)))
  {
    RoundTrip(IntKeyed, io, TypeCode(Request), name, parameters, error, result);
    InvPreserved(IntKeyed, io, TypeCode(Request), name, parameters, true, Nil, 0);
    var sent := RequestAsync(io, TypeCode(Request), name, parameters, true).value;
    assert io.nextId !in io.pending;
    assert sent.io.pending - {io.nextId as int} == io.pending;
  }

  /** Handle-list wrappers (result kind `Handles`) decode every element with
      `ExtToInt64`, keeping length and order. */
  lemma HandleListsElementwise(result: Value)
    requires result.Array? && forall i | 0 <= i < |result.items| :: result.items[i].Ext?
    ensures Unmarshal(Handles, result).Success?
    ensures var ns := Unmarshal(Handles, result).value.ns;
            && |ns| == |result.items|
            && forall i | 0 <= i < |ns| :: ns[i] == ExtToInt64(result.items[i].body)
  {
  }
}
