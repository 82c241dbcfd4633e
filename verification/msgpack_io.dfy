/** The request/response bookkeeping of the MessagePack-RPC transport class
    `MsgPackIO`, of which the repository holds two copies. Requests are
    `[0, msgid, method, params]`, responses `[1, msgid, error, result]` and
    notifications `[2, method, params]`. The byte stream, the unpacker and the
    threads are left out: a read arrives as the sequence of objects the
    unpacker decoded from it, each with the number of bytes it consumed, and
    every call is one atomic step. */
module MsgPackIO {
  import opened Wrappers
  import opened Values

  /** The first element of every frame. */
  datatype MessageType = Request | Response | Notification

  function TypeCode(t: MessageType): int {
    match t
    case Request => 0
    case Response => 1
    case Notification => 2
  }

  /** The two copies differ only in how a response id is read: the client
      library copy (`LongKeyed`) narrows it to a long and looks it up in a
      long-keyed table, the application copy (`IntKeyed`) narrows it to an int. */
  datatype Variant = LongKeyed | IntKeyed

  type int32 = x: int | Int32Min <= x <= Int32Max

  /** The pair `[error, result]` a completed request hands back. */
  datatype Reply = Reply(error: Value, result: Value)

  /** `_msgId` and the table of completion slots: `None` while the request
      is awaited, `Some` once its response has been stored. */
  datatype Io = Io(nextId: int32, pending: map<int, Option<Reply>>)

  /** A raised notification event. */
  datatype Notice = Notice(name: string, params: Value)

  const Initial: Io := Io(0, map[])

  /** `_msgId++` on a C# int, unchecked: arithmetic modulo 2^32 in the signed range. */
  function Increment(id: int32): (r: int32)
    ensures id < Int32Max ==> r == id + 1
    ensures id == Int32Max ==> r == Int32Min
  {
    (id + 1 - Int32Min) % 0x1_0000_0000 + Int32Min
  }

  /** What `RequestAsync` wrote and left behind: the new state, the frame and,
      when the caller awaits a response, the id of its slot. */
  datatype Sent = Sent(io: Io, frame: Value, awaiting: Option<int>)

  /** `RequestAsync`: packs `[type, _msgId, method, params]`, registers a slot
      under the current id when a return value is wanted (a duplicate id makes
      `Dictionary.Add` throw before anything is written), writes the frame and
      increments the id whether or not a slot was registered. */
  function RequestAsync(io: Io, kind: int, name: string, parameters: seq<Value>, returnValue: bool)
    : (r: Result<Sent, Fault>)
    ensures r.Failure? <==> returnValue && io.nextId in io.pending
    ensures r.Failure? ==> r.error == DuplicateKey
    ensures r.Success? ==>
              && r.value.frame.Array?
              && |r.value.frame.items| == 4
              && r.value.frame.items[0] == Int(kind)
              && r.value.frame.items[1] == Int(io.nextId)
              && r.value.frame.items[2] == Str(name)
              && r.value.frame.items[3] == Array(parameters)
    ensures r.Success? ==> r.value.io.nextId == Increment(io.nextId)
    ensures r.Success? && returnValue ==>
              && r.value.awaiting == Some(io.nextId)
              && io.nextId !in io.pending
              && r.value.io.pending == io.pending[io.nextId := None]
    ensures r.Success? && !returnValue ==>
              r.value.awaiting.None? && r.value.io.pending == io.pending
  {
    var frame := Array([Int(kind), Int(io.nextId), Str(name), Array(parameters)]);
    var id := io.nextId;
    if returnValue && id in io.pending then Failure(DuplicateKey)
    else
      var pending := if returnValue then io.pending[id := None] else io.pending;
      Success(Sent(Io(Increment(id), pending), frame, if returnValue then Some(id) else None))
  }

  /** The awaiting caller resumes once its slot holds a reply: it takes the
      reply and removes the slot. `None` means the caller is still waiting. */
  function Resume(io: Io, id: int): (r: Option<(Io, Reply)>)
    ensures r.Some? <==> id in io.pending && io.pending[id].Some?
    ensures r.Some? ==>
              && r.value.1 == io.pending[id].value
              && r.value.0.nextId == io.nextId
              && r.value.0.pending.Keys == io.pending.Keys - {id}
              && forall k | k in r.value.0.pending :: r.value.0.pending[k] == io.pending[k]
  {
    if id in io.pending && io.pending[id].Some? then
      Some((Io(io.nextId, io.pending - {id}), io.pending[id].value))
    else None
  }

  /** Completing the slot of a response id: a missing id throws, and so does
      a slot that already holds a reply. */
  function Resolve(io: Io, id: int, reply: Reply): (r: Result<Io, Fault>)
    ensures r.Success? <==> id in io.pending && io.pending[id].None?
    ensures id !in io.pending ==> r == Failure(KeyNotFound)
    ensures r.Success? ==>
              && r.value.nextId == io.nextId
              && r.value.pending.Keys == io.pending.Keys
              && r.value.pending[id] == Some(reply)
              && forall k | k in io.pending && k != id :: r.value.pending[k] == io.pending[k]
  {
    if id !in io.pending then Failure(KeyNotFound)
    else if io.pending[id].Some? then Failure(AlreadyCompleted)
    else Success(Io(io.nextId, io.pending[id := Some(reply)]))
  }

  function ReadId(v: Variant, x: Value): Result<int, Fault> {
    match v
    case LongKeyed => AsInt64(x)
    case IntKeyed => AsInt32(x)
  }

  datatype Step = Step(io: Io, notice: Option<Notice>)

  /** A response frame for request `id`. */
  predicate IsResponseTo(v: Variant, frame: Value, id: int) {
    frame.Array? && |frame.items| == 4 && ReadId(v, frame.items[1]) == Success(id)
  }

  /** One pass of the read loop over a decoded object. A non-array throws.
      Four elements: the type is read (a wrong type only breaks into the
      debugger) and the slot keyed by element 1 gets `[element 2, element 3]`.
      Three elements: a notification named by element 1 carrying element 2.
      Any other length is ignored. */
  function HandleFrame(v: Variant, io: Io, frame: Value): (r: Result<Step, Fault>)
    ensures r.Success? ==> frame.Array? && r.value.io.nextId == io.nextId
    ensures r.Success? ==> r.value.io.pending.Keys == io.pending.Keys
    ensures r.Success? && |frame.items| == 4 ==>
              && r.value.notice.None?
              && ReadId(v, frame.items[1]).Success?
              && var id := ReadId(v, frame.items[1]).value;
                 && IsResponseTo(v, frame, id)
                 && id in io.pending && io.pending[id].None?
                 && r.value.io.pending[id] == Some(Reply(frame.items[2], frame.items[3]))
                 && forall k | k in io.pending && k != id :: r.value.io.pending[k] == io.pending[k]
    ensures r.Success? && |frame.items| == 3 ==>
              && r.value.io == io
              && frame.items[1].Str?
              && r.value.notice == Some(Notice(frame.items[1].s, frame.items[2]))
    ensures r.Success? && |frame.items| != 3 && |frame.items| != 4 ==> r.value == Step(io, None)
    ensures frame.Array? && |frame.items| == 4 && frame.items[0].Int? && InInt64(frame.items[0].i) ==>
              (r.Success? <==> exists id :: IsResponseTo(v, frame, id) && id in io.pending && io.pending[id].None?)
  {
    var items :- AsList(frame);
    if |items| == 4 then
      var _ :- AsInt64(items[0]);
      var id :- ReadId(v, items[1]);
      var io' :- Resolve(io, id, Reply(items[2], items[3]));
      Success(Step(io', None))
    else if |items| == 3 then
      var _ :- AsInt64(items[0]);
      var name :- AsString(items[1]);
      Success(Step(io, Some(Notice(name, items[2]))))
    else
      Success(Step(io, None))
  }

  /** The effect of a run of frames: the final state and the notifications raised in order. */
  datatype Outcome = Outcome(io: Io, notices: seq<Notice>)

  function NoticesOf(o: Option<Notice>): seq<Notice> {
    match o
    case Some(n) => [n]
    case None => []
  }

  /** The frames handled one after another; the first exception stops the run. */
  function HandleFrames(v: Variant, io: Io, frames: seq<Value>): (r: Result<Outcome, Fault>)
    ensures r.Success? ==>
              && r.value.io.nextId == io.nextId
              && r.value.io.pending.Keys == io.pending.Keys
              && |r.value.notices| <= |frames|
    decreases |frames|
  {
    if |frames| == 0 then Success(Outcome(io, []))
    else
      var step :- HandleFrame(v, io, frames[0]);
      var rest :- HandleFrames(v, step.io, frames[1..]);
      Success(Outcome(rest.io, NoticesOf(step.notice) + rest.notices))
  }

  /** Handling `a + b` is handling `a`, then `b` from where `a` left off. */
  lemma {:induction false} HandleFramesAppend(v: Variant, io: Io, a: seq<Value>, b: seq<Value>)
    ensures HandleFrames(v, io, a + b) ==
            match HandleFrames(v, io, a)
            case Failure(e) => Failure(e)
            case Success(x) =>
              match HandleFrames(v, x.io, b)
              case Failure(e) => Failure(e)
              case Success(y) => Success(Outcome(y.io, x.notices + y.notices))
    decreases |a|
  {
    if |a| == 0 {
      assert a + b == b;
      match HandleFrames(v, io, b)
      case Failure(e) =>
      case Success(y) => assert [] + y.notices == y.notices;
    } else {
      assert (a + b)[0] == a[0];
      assert (a + b)[1..] == a[1..] + b;
      match HandleFrame(v, io, a[0])
      case Failure(e) =>
      case Success(step) =>
        HandleFramesAppend(v, step.io, a[1..], b);
        match HandleFrames(v, step.io, a[1..])
        case Failure(e) =>
        case Success(x) =>
          match HandleFrames(v, x.io, b)
          case Failure(e) =>
          case Success(y) =>
            assert NoticesOf(step.notice) + (x.notices + y.notices)
                == (NoticesOf(step.notice) + x.notices) + y.notices;
    }
  }

  /** A slot is filled only by a response carrying its own id: if an awaited
      slot holds a reply after a run of frames, one of those frames is a
      response to that id carrying exactly that reply, whatever order the
      responses came in. */
  lemma {:induction false} SlotFilledOnlyByItsResponse(v: Variant, io: Io, frames: seq<Value>, id: int)
    requires HandleFrames(v, io, frames).Success?
    requires id in io.pending && io.pending[id].None?
    requires HandleFrames(v, io, frames).value.io.pending[id].Some?
    ensures exists j | 0 <= j < |frames| ::
              && IsResponseTo(v, frames[j], id)
              && HandleFrames(v, io, frames).value.io.pending[id]
                 == Some(Reply(frames[j].items[2], frames[j].items[3]))
    decreases |frames|
  {
    var step := HandleFrame(v, io, frames[0]).value;
    var out := HandleFrames(v, io, frames).value;
    assert out.io == HandleFrames(v, step.io, frames[1..]).value.io;
    if step.io.pending[id].None? {
      SlotFilledOnlyByItsResponse(v, step.io, frames[1..], id);
      var j :| 0 <= j < |frames[1..]| && IsResponseTo(v, frames[1..][j], id)
               && out.io.pending[id] == Some(Reply(frames[1..][j].items[2], frames[1..][j].items[3]));
      assert frames[1..][j] == frames[j + 1];
    } else {
      SlotKeepsReply(v, step.io, frames[1..], id);
      assert IsResponseTo(v, frames[0], id);
    }
  }

  /** Once a slot holds a reply, later frames never change it. */
  lemma {:induction false} SlotKeepsReply(v: Variant, io: Io, frames: seq<Value>, id: int)
    requires HandleFrames(v, io, frames).Success?
    requires id in io.pending && io.pending[id].Some?
    ensures HandleFrames(v, io, frames).value.io.pending[id] == io.pending[id]
    decreases |frames|
  {
    if |frames| > 0 {
      var step := HandleFrame(v, io, frames[0]).value;
      SlotKeepsReply(v, step.io, frames[1..], id);
    }
  }

  /** The bookkeeping invariant while the id has not wrapped: `_msgId` is
      non-negative and every pending id was issued before, that is, lies in
      `[0, _msgId)`. Map keys are distinct by construction. */
  ghost predicate Inv(io: Io) {
    && 0 <= io.nextId
    && forall id | id in io.pending :: 0 <= id < io.nextId
  }

  /** While the id has not wrapped, a request never hits a duplicate id and
      keeps the invariant; frames and resumption keep it too. */
  lemma InvPreserved(v: Variant, io: Io, kind: int, name: string, parameters: seq<Value>,
                     returnValue: bool, frame: Value, id: int)
    requires Inv(io)
    ensures io.nextId < Int32Max ==>
              && RequestAsync(io, kind, name, parameters, returnValue).Success?
              && Inv(RequestAsync(io, kind, name, parameters, returnValue).value.io)
    ensures HandleFrame(v, io, frame).Success? ==> Inv(HandleFrame(v, io, frame).value.io)
    ensures Resume(io, id).Some? ==> Inv(Resume(io, id).value.0)
  {
    if io.nextId < Int32Max {
      assert io.nextId !in io.pending;
      var after := RequestAsync(io, kind, name, parameters, returnValue).value.io;
      assert after.nextId == io.nextId + 1;
      forall k | k in after.pending
        ensures 0 <= k < after.nextId
      {
        if k != io.nextId {
          assert k in io.pending;
        }
      }
    }
  }

  /** A caller that issued a request and then sees its response handled
      resumes with exactly that response's `[error, result]`. */
  lemma {:induction false} RoundTrip(v: Variant, io: Io, kind: int, name: string,
                                     parameters: seq<Value>, error: Value, result: Value)
    requires Inv(io) && io.nextId < Int32Max
    ensures
      var sent := RequestAsync(io, kind, name, parameters, true).value;
      var response := Array([Int(TypeCode(Response)), Int(io.nextId), error, result]);
      && sent.awaiting == Some(io.nextId)
      && HandleFrame(v, sent.io, response).Success?
      && Resume(HandleFrame(v, sent.io, response).value.io, io.nextId)
         == Some((sent.io.(pending := sent.io.pending - {io.nextId}), Reply(error, result)))
  {
    var sent := RequestAsync(io, kind, name, parameters, true).value;
    var response := Array([Int(TypeCode(Response)), Int(io.nextId), error, result]);
    assert ReadId(v, response.items[1]) == Success(io.nextId as int);
    var after := HandleFrame(v, sent.io, response).value.io;
    assert after.pending == sent.io.pending[io.nextId := Some(Reply(error, result))];
    assert after.pending - {io.nextId} == sent.io.pending - {io.nextId};
  }

  /** A decoded object together with the byte count the unpacker consumed. */
  datatype Frame = Frame(value: Value, size: nat)

  /** The buffer offset at which frame `k` starts. */
  function Offset(frames: seq<Frame>, k: nat): nat
    requires k <= |frames|
  {
    if k == 0 then 0 else Offset(frames, k - 1) + frames[k - 1].size
  }

  function ValuesOf(frames: seq<Frame>): (r: seq<Value>)
    ensures |r| == |frames| && forall k | 0 <= k < |frames| :: r[k] == frames[k].value
  {
    seq(|frames|, k requires 0 <= k < |frames| => frames[k].value)
  }

  /** One more frame extends a successful run by that frame's step. */
  lemma HandleOneMore(v: Variant, io: Io, frames: seq<Frame>, k: nat, acc: Outcome)
    requires k < |frames|
    requires HandleFrames(v, io, ValuesOf(frames[..k])) == Success(acc)
    ensures HandleFrames(v, io, ValuesOf(frames[..k + 1])) ==
            match HandleFrame(v, acc.io, frames[k].value)
            case Failure(e) => Failure(e)
            case Success(s) => Success(Outcome(s.io, acc.notices + NoticesOf(s.notice)))
  {
    var last := [frames[k].value];
    assert frames[..k + 1] == frames[..k] + [frames[k]];
    assert ValuesOf(frames[..k + 1]) == ValuesOf(frames[..k]) + last;
    HandleFramesAppend(v, io, ValuesOf(frames[..k]), last);
    assert last[1..] == [];
    match HandleFrame(v, acc.io, frames[k].value)
    case Failure(e) =>
    case Success(s) => assert NoticesOf(s.notice) + [] == NoticesOf(s.notice);
  }

  /** `OutputCallback` for one read of `count` bytes: unpacks at offset 0,
      advances by each object's byte count and handles the objects in buffer
      order while the offset is below `count`; the unpacker failing to find
      another object before `count` throws. `handled` is the number of objects
      taken from the read. */
  method OutputCallback(v: Variant, io: Io, frames: seq<Frame>, count: int)
    returns (r: Result<Outcome, Fault>, handled: nat)
    requires forall k | 0 <= k < |frames| :: frames[k].size > 0
    ensures handled <= |frames|
    ensures forall k | 0 <= k < handled :: Offset(frames, k) < count
    ensures r.Success? ==>
              && Offset(frames, handled) >= count
              && r == HandleFrames(v, io, ValuesOf(frames[..handled]))
    ensures r.Failure? ==>
              || r == HandleFrames(v, io, ValuesOf(frames[..handled]))
              || (handled == |frames| && Offset(frames, handled) < count && r == Failure(Truncated))
  {
    var readCount := 0;
    var k := 0;
    var acc := Outcome(io, []);
    while count > readCount
      invariant k <= |frames|
      invariant readCount == Offset(frames, k)
      invariant forall j | 0 <= j < k :: Offset(frames, j) < count
      invariant HandleFrames(v, io, ValuesOf(frames[..k])) == Success(acc)
      decreases |frames| - k
    {
      if k == |frames| {
        return Failure(Truncated), k;
      }
      var frame := frames[k];
      readCount := readCount + frame.size;
      HandleOneMore(v, io, frames, k, acc);
      var step := HandleFrame(v, acc.io, frame.value);
      if step.Failure? {
        return Failure(step.error), k + 1;
      }
      acc := Outcome(step.value.io, acc.notices + NoticesOf(step.value.notice));
      k := k + 1;
    }
    return Success(acc), k;
  }
}
