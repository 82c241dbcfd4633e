/** The redraw notification parser of the client library: a batch list
    `[[name, tuple1, tuple2, ...], ...]` becomes an ordered list of typed
    redraw methods. Names outside the fixed 16-entry table are dropped. */
module NotificationParser {
  import opened Wrappers
  import opened Values

  datatype RedrawMethodType =
    | Clear
    | Resize
    | UpdateForeground
    | UpdateBackground
    | HighlightSet
    | EolClear
    | SetTitle
    | Put
    | CursorGoto
    | Scroll
    | SetScrollRegion
    | ModeChange
    | BusyStart
    | BusyStop
    | MouseOn
    | MouseOff

  /** One parsed batch: its method and its argument tuples (batch elements 1..n). */
  datatype RedrawMethod = RedrawMethod(kind: RedrawMethodType, params: seq<seq<Value>>)

  /** The wire name of each method type. */
  function WireName(t: RedrawMethodType): string {
    match t
    case Clear => "clear"
    case Resize => "resize"
    case UpdateForeground => "update_fg"
    case UpdateBackground => "update_bg"
    case HighlightSet => "highlight_set"
    case EolClear => "eol_clear"
    case SetTitle => "set_title"
    case Put => "put"
    case CursorGoto => "cursor_goto"
    case Scroll => "scroll"
    case SetScrollRegion => "set_scroll_region"
    case ModeChange => "mode_change"
    case BusyStart => "busy_start"
    case BusyStop => "busy_stop"
    case MouseOn => "mouse_on"
    case MouseOff => "mouse_off"
  }

  /** The `switch (function)` of the parser: the method type a name selects, if any. */
  function MethodOf(name: string): (r: Option<RedrawMethodType>)
    ensures r.Some? ==> WireName(r.value) == name
    ensures r.None? ==> forall t: RedrawMethodType :: WireName(t) != name
  {
    if name == "clear" then Some(Clear)
    else if name == "resize" then Some(Resize)
    else if name == "update_fg" then Some(UpdateForeground)
    else if name == "update_bg" then Some(UpdateBackground)
    else if name == "highlight_set" then Some(HighlightSet)
    else if name == "eol_clear" then Some(EolClear)
    else if name == "set_title" then Some(SetTitle)
    else if name == "put" then Some(Put)
    else if name == "cursor_goto" then Some(CursorGoto)
    else if name == "scroll" then Some(Scroll)
    else if name == "set_scroll_region" then Some(SetScrollRegion)
    else if name == "mode_change" then Some(ModeChange)
    else if name == "busy_start" then Some(BusyStart)
    else if name == "busy_stop" then Some(BusyStop)
    else if name == "mouse_on" then Some(MouseOn)
    else if name == "mouse_off" then Some(MouseOff)
    else None
  }

  /** The name table is exact: every method type is selected by its own wire
      name, so no two method types share a name. */
  lemma NameTableExact(t: RedrawMethodType, u: RedrawMethodType)
    ensures MethodOf(WireName(t)) == Some(t)
    ensures WireName(t) == WireName(u) ==> t == u
  {
    SelectsOwnName(t);
    SelectsOwnName(u);
  }

  lemma SelectsOwnName(t: RedrawMethodType)
    ensures MethodOf(WireName(t)) == Some(t)
  {
    if t.Clear? || t.Resize? || t.UpdateForeground? || t.UpdateBackground? {
      SelectsOwnName0(t);
    } else if t.HighlightSet? || t.EolClear? || t.SetTitle? || t.Put? {
      SelectsOwnName1(t);
    } else if t.CursorGoto? || t.Scroll? || t.SetScrollRegion? || t.ModeChange? {
      SelectsOwnName2(t);
    } else {
      SelectsOwnName3(t);
    }
  }

  lemma SelectsOwnName0(t: RedrawMethodType)
    requires t.Clear? || t.Resize? || t.UpdateForeground? || t.UpdateBackground?
    ensures MethodOf(WireName(t)) == Some(t)
  {
  }

  lemma SelectsOwnName1(t: RedrawMethodType)
    requires t.HighlightSet? || t.EolClear? || t.SetTitle? || t.Put?
    ensures MethodOf(WireName(t)) == Some(t)
  {
  }

  lemma SelectsOwnName2(t: RedrawMethodType)
    requires t.CursorGoto? || t.Scroll? || t.SetScrollRegion? || t.ModeChange?
    ensures MethodOf(WireName(t)) == Some(t)
  {
  }

  lemma SelectsOwnName3(t: RedrawMethodType)
    requires t.BusyStart? || t.BusyStop? || t.MouseOn? || t.MouseOff?
    ensures MethodOf(WireName(t)) == Some(t)
  {
  }

  /** A batch is recognised when it is a non-empty array whose first element
      is a string naming a table entry. */
  predicate Recognised(f: Value) {
    f.Array? && |f.items| > 0 && f.items[0].Str? && MethodOf(f.items[0].s).Some?
  }

  /** One iteration of the parser loop. A batch that is not an array, is empty,
      has a non-string name or a non-array tuple throws; an unknown name gives
      nothing; a known name gives one entry holding the tuples after the name. */
  function ParseBatch(f: Value): (r: Result<Option<RedrawMethod>, Fault>)
    ensures r.Success? <==>
              && f.Array? && |f.items| > 0 && f.items[0].Str?
              && forall i | 1 <= i < |f.items| :: f.items[i].Array?
    ensures r.Success? ==> (r.value.Some? <==> Recognised(f))
    ensures r.Success? && r.value.Some? ==>
              && WireName(r.value.value.kind) == f.items[0].s
              && |r.value.value.params| == |f.items| - 1
              && forall i | 0 <= i < |r.value.value.params| ::
                   f.items[i + 1] == Array(r.value.value.params[i])
  {
    var list :- AsList(f);
    var nameValue :- At(list, 0);
    var name :- AsString(nameValue);
    var args :- AsLists(list[1..]);
    match MethodOf(name)
    case Some(t) => Success(Some(RedrawMethod(t, args)))
    case None => Success(None)
  }

  function Entries<T>(o: Option<T>): seq<T> {
    match o
    case Some(m) => [m]
    case None => []
  }

  /** `ParseRedraw`: the batches in order; the first malformed batch throws. */
  function ParseRedraw(batches: seq<Value>): (r: Result<seq<RedrawMethod>, Fault>)
    ensures r.Success? <==> forall i | 0 <= i < |batches| :: ParseBatch(batches[i]).Success?
    ensures r.Success? ==> |r.value| <= |batches|
  {
    if |batches| == 0 then Success([])
    else
      var head :- ParseBatch(batches[0]);
      var tail :- ParseRedraw(batches[1..]);
      Success(Entries(head) + tail)
  }

  /** Sequencing of two parse results: the first failure wins. */
  function Concat(a: Result<seq<RedrawMethod>, Fault>, b: Result<seq<RedrawMethod>, Fault>)
    : Result<seq<RedrawMethod>, Fault>
  {
    match a
    case Failure(e) => Failure(e)
    case Success(x) =>
      match b
      case Failure(e) => Failure(e)
      case Success(y) => Success(x + y)
  }

  /** Parsing distributes over concatenation of batch lists. */
  lemma {:induction false} ParseRedrawAppend(a: seq<Value>, b: seq<Value>)
    ensures ParseRedraw(a + b) == Concat(ParseRedraw(a), ParseRedraw(b))
  {
    if |a| == 0 {
      assert a + b == b;
      ConcatUnit(ParseRedraw(b));
    } else {
      var ab := a + b;
      assert ab[0] == a[0] && ab[1..] == a[1..] + b;
      ParseRedrawCons(ab);
      ParseRedrawCons(a);
      ParseRedrawAppend(a[1..], b);
      ConcatAssoc(Lift(ParseBatch(a[0])), ParseRedraw(a[1..]), ParseRedraw(b));
    }
  }

  /** The entries one batch contributes, or its failure. */
  function Lift(r: Result<Option<RedrawMethod>, Fault>): Result<seq<RedrawMethod>, Fault> {
    match r
    case Failure(e) => Failure(e)
    case Success(h) => Success(Entries(h))
  }

  lemma ParseRedrawCons(s: seq<Value>)
    requires |s| > 0
    ensures ParseRedraw(s) == Concat(Lift(ParseBatch(s[0])), ParseRedraw(s[1..]))
  {
  }

  lemma ConcatUnit(y: Result<seq<RedrawMethod>, Fault>)
    ensures Concat(Success([]), y) == y
  {
    match y
    case Success(v) => assert [] + v == v;
    case Failure(_) =>
  }

  lemma ConcatAssoc(x: Result<seq<RedrawMethod>, Fault>, y: Result<seq<RedrawMethod>, Fault>,
                    z: Result<seq<RedrawMethod>, Fault>)
    ensures Concat(Concat(x, y), z) == Concat(x, Concat(y, z))
  {
    if x.Success? && y.Success? && z.Success? {
      assert (x.value + y.value) + z.value == x.value + (y.value + z.value);
    }
  }

  /** A single batch yields exactly one entry when its name is in the table
      and none otherwise. */
  lemma SingleBatch(f: Value)
    requires ParseBatch(f).Success?
    ensures Recognised(f) ==> ParseRedraw([f]) == Success([ParseBatch(f).value.value])
    ensures !Recognised(f) ==> ParseRedraw([f]) == Success([])
  {
    assert [f][0] == f && [f][1..] == [];
    assert ParseRedraw([f][1..]) == Success([]);
    assert Entries(ParseBatch(f).value) + [] == Entries(ParseBatch(f).value);
  }

  predicate StrictlyIncreasing(idx: seq<nat>) {
    forall k, l | 0 <= k < l < |idx| :: idx[k] < idx[l]
  }

  /** `idx` lists, ascending, exactly the positions at which `parsed` holds
      an entry, and `out[k]` is the entry at position `idx[k]`. */
  ghost predicate OrderedImage<T>(parsed: seq<Option<T>>, out: seq<T>, idx: seq<nat>) {
    && |idx| == |out|
    && StrictlyIncreasing(idx)
    && (forall k | 0 <= k < |idx| :: idx[k] < |parsed| && parsed[idx[k]] == Some(out[k]))
    && (forall i | 0 <= i < |parsed| && parsed[i].Some? :: i in idx)
  }

  function Shift(idx: seq<nat>): (r: seq<nat>)
    ensures |r| == |idx| && forall k | 0 <= k < |idx| :: r[k] == idx[k] + 1
  {
    seq(|idx|, k requires 0 <= k < |idx| => idx[k] + 1)
  }

  /** Prepending a position without an entry shifts every position by one. */
  lemma ImageSkip<T>(rest: seq<Option<T>>, out: seq<T>, idx: seq<nat>)
    requires OrderedImage(rest, out, idx)
    ensures OrderedImage([None] + rest, out, Shift(idx))
  {
    var b := [None] + rest;
    var s := Shift(idx);
    forall k | 0 <= k < |s|
      ensures s[k] < |b| && b[s[k]] == Some(out[k])
    {
      assert b[s[k]] == rest[idx[k]];
    }
    forall i | 0 <= i < |b| && b[i].Some?
      ensures i in s
    {
      assert b[i] == rest[i - 1];
      var k :| 0 <= k < |idx| && idx[k] == i - 1;
      assert s[k] == i;
    }
  }

  /** Prepending an entry puts it first, at position 0. */
  lemma ImageKeep<T>(m: T, rest: seq<Option<T>>, out: seq<T>, idx: seq<nat>)
    requires OrderedImage(rest, out, idx)
    ensures OrderedImage([Some(m)] + rest, [m] + out, [0] + Shift(idx))
  {
    KeepIncreasing(idx);
    KeepEntries(m, rest, out, idx);
    KeepCovers(m, rest, out, idx);
  }

  lemma KeepIncreasing(idx: seq<nat>)
    requires StrictlyIncreasing(idx)
    ensures StrictlyIncreasing([0] + Shift(idx))
  {
    var s := [0] + Shift(idx);
    forall k, l | 0 <= k < l < |s|
      ensures s[k] < s[l]
    {
      assert s[l] == idx[l - 1] + 1;
      if k > 0 {
        assert s[k] == idx[k - 1] + 1;
      }
    }
  }

  lemma KeepEntries<T>(m: T, rest: seq<Option<T>>, out: seq<T>, idx: seq<nat>)
    requires OrderedImage(rest, out, idx)
    ensures var b, s, o := [Some(m)] + rest, [0] + Shift(idx), [m] + out;
            forall k | 0 <= k < |s| :: s[k] < |b| && b[s[k]] == Some(o[k])
  {
    var b, s, o := [Some(m)] + rest, [0] + Shift(idx), [m] + out;
    forall k | 0 <= k < |s|
      ensures s[k] < |b| && b[s[k]] == Some(o[k])
    {
      if k > 0 {
        assert s[k] == idx[k - 1] + 1;
        assert b[s[k]] == rest[idx[k - 1]];
      }
    }
  }

  lemma KeepCovers<T>(m: T, rest: seq<Option<T>>, out: seq<T>, idx: seq<nat>)
    requires OrderedImage(rest, out, idx)
    ensures var b, s := [Some(m)] + rest, [0] + Shift(idx);
            forall i | 0 <= i < |b| && b[i].Some? :: i in s
  {
    var b, s := [Some(m)] + rest, [0] + Shift(idx);
    forall i | 0 <= i < |b| && b[i].Some?
      ensures i in s
    {
      if i > 0 {
        assert b[i] == rest[i - 1];
        var k :| 0 <= k < |idx| && idx[k] == i - 1;
        assert s[k + 1] == i;
      }
    }
  }

  /** What each batch yields on its own, position by position. */
  function PerBatch(batches: seq<Value>): (r: seq<Option<RedrawMethod>>)
    requires forall i | 0 <= i < |batches| :: ParseBatch(batches[i]).Success?
    ensures |r| == |batches|
    ensures forall i | 0 <= i < |batches| ::
              r[i].Some? <==> Recognised(batches[i])
  {
    seq(|batches|, i requires 0 <= i < |batches| => ParseBatch(batches[i]).value)
  }

  /** The output is the image of the recognised batches in input order: the
      returned `idx` lists exactly the positions of the recognised batches,
      ascending, and entry k is what batch `idx[k]` yields on its own. */
  lemma {:induction false} ParseRedrawIsOrderedImage(batches: seq<Value>) returns (idx: seq<nat>)
    requires ParseRedraw(batches).Success?
    ensures OrderedImage(PerBatch(batches), ParseRedraw(batches).value, idx)
  {
    if |batches| == 0 {
      idx := [];
    } else {
      var rest := ParseRedrawIsOrderedImage(batches[1..]);
      var head, per, tail := PerBatchCons(batches);
      idx := ImageCons(head, per, tail, rest);
    }
  }

  /** Prepending one position: an entry goes first at position 0, a gap
      only shifts the positions. */
  lemma ImageCons<T>(h: Option<T>, rest: seq<Option<T>>, out: seq<T>, idx: seq<nat>) returns (idx': seq<nat>)
    requires OrderedImage(rest, out, idx)
    ensures OrderedImage([h] + rest, Entries(h) + out, idx')
  {
    if h.Some? {
      ImageKeep(h.value, rest, out, idx);
      assert [h] + rest == [Some(h.value)] + rest;
      assert Entries(h) + out == [h.value] + out;
      idx' := [0] + Shift(idx);
    } else {
      ImageSkip(rest, out, idx);
      assert [h] + rest == [None] + rest;
      assert Entries(h) + out == out;
      idx' := Shift(idx);
    }
  }

  /** A non-empty successful parse splits into its first batch and the rest. */
  lemma PerBatchCons(batches: seq<Value>) returns (head: Option<RedrawMethod>, per: seq<Option<RedrawMethod>>,
                                                   tail: seq<RedrawMethod>)
    requires |batches| > 0 && ParseRedraw(batches).Success?
    ensures ParseRedraw(batches[1..]) == Success(tail) && per == PerBatch(batches[1..])
    ensures PerBatch(batches) == [head] + per
    ensures ParseRedraw(batches).value == Entries(head) + tail
  {
    head := ParseBatch(batches[0]).value;
    tail := ParseRedraw(batches[1..]).value;
    per := PerBatch(batches[1..]);
    var whole := PerBatch(batches);
    forall i | 0 <= i < |whole|
      ensures whole[i] == ([head] + per)[i]
    {
      if i > 0 {
        assert batches[1..][i - 1] == batches[i];
      }
    }
  }
}
