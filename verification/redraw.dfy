/** The redraw handlers of the two WPF front ends. Each walks the function
    list of a redraw event, splits every batch `[name, tuple1, ...]` into
    its name and argument tuples, and applies the named operation to the
    window's terminal. The two handlers differ in `scroll` (a signed byte
    and scrolling by copying cell attributes, or an unsigned byte and
    scrolling by moving row objects), in `normal_mode` and in `set_title`.
    The `Gui` handler runs on the window's own thread. The `Wpf` handler
    runs on the reader's callback thread and hands every terminal update to
    the dispatcher, but it sets the window title directly, which throws
    because the window belongs to another thread. */
module Redraw {
  import opened Wrappers
  import opened Values
  import opened Terminals
  import MsgPackIO
  import NeovimClient

  /** `Gui` is the handler whose terminal scrolls by copying (`Scroll(sbyte)`);
      `Wpf` is the one whose terminal scrolls by moving rows (`Scroll(byte)`). */
  datatype Front = Gui | Wpf

  /** What a redraw can change: the terminal and the window title. */
  datatype Window = Window(term: Terminal, title: string)

  const White: Color := Color(255, 255, 255)

  // ---------------------------------------------------------------------
  // highlight_set
  // ---------------------------------------------------------------------

  /** The colour of an unsigned 32-bit colour number: red, green and blue
      are its third, second and first bytes from the low end, each taken by
      a cast to a byte that keeps the low eight bits of a right shift. */
  function Rgb(c: int): (r: Color)
    requires 0 <= c <= UInt32Max
  {
    Color((c / 0x1_0000) % 256, (c / 0x100) % 256, c % 256)
  }

  lemma Split8(hi: int, lo: int)
    requires 0 <= lo < 0x100
    ensures (hi * 0x100 + lo) / 0x100 == hi && (hi * 0x100 + lo) % 0x100 == lo
  {
  }

  lemma Split16(hi: int, lo: int)
    requires 0 <= lo < 0x1_0000
    ensures (hi * 0x1_0000 + lo) / 0x1_0000 == hi && (hi * 0x1_0000 + lo) % 0x1_0000 == lo
  {
  }

  /** `Rgb` reads back the three components packed as `0xRRGGBB`, and the
      top byte of the colour number is ignored. */
  lemma RgbComponents(r: byte, g: byte, b: byte, top: byte)
    ensures Rgb(r * 0x1_0000 + g * 0x100 + b) == Color(r, g, b)
    ensures Rgb(top * 0x100_0000 + r * 0x1_0000 + g * 0x100 + b) == Color(r, g, b)
  {
    Split8(r * 0x100 + g, b);
    Split8(r, g);
    Split16(r, g * 0x100 + b);
    Split8(top * 0x1_0000 + r * 0x100 + g, b);
    Split8(top * 0x100 + r, g);
    Split16(top * 0x100 + r, g * 0x100 + b);
    Split8(top, r);
  }

  /** The three attributes `highlight_set` collects. */
  datatype Style = Style(foreground: Color, bold: bool, italic: bool)

  /** Every `highlight_set` starts again from white, normal weight, upright. */
  const Plain: Style := Style(White, false, false)

  /** One dictionary entry: the key is read as a string; `foreground` reads
      an unsigned 32-bit colour, `bold` and `italic` read a boolean, any
      other key is skipped. */
  function ApplyEntry(s: Style, key: Value, value: Value): (r: Result<Style, Fault>)
    ensures r.Success? <==>
              && key.Str?
              && (key.s == "foreground" ==> AsUInt32(value).Success?)
              && (key.s == "bold" || key.s == "italic" ==> value.Bool?)
    ensures r.Success? && key.s == "foreground" ==> r.value.foreground == Rgb(value.i)
    ensures r.Success? && key.s == "bold" ==> r.value.bold == value.b
    ensures r.Success? && key.s == "italic" ==> r.value.italic == value.b
    ensures r.Success? && key.s != "foreground" ==> r.value.foreground == s.foreground
    ensures r.Success? && key.s != "bold" ==> r.value.bold == s.bold
    ensures r.Success? && key.s != "italic" ==> r.value.italic == s.italic
  {
    var name :- AsString(key);
    if name == "foreground" then
      var c :- AsUInt32(value);
      Success(s.(foreground := Rgb(c)))
    else if name == "bold" then
      var b :- AsBoolean(value);
      Success(s.(bold := b))
    else if name == "italic" then
      var b :- AsBoolean(value);
      Success(s.(italic := b))
    else Success(s)
  }

  /** The entries of one dictionary, in order. */
  function ApplyEntries(s: Style, entries: seq<(Value, Value)>): (r: Result<Style, Fault>)
    ensures r.Success? <==> forall i | 0 <= i < |entries| :: ApplyEntry(s, entries[i].0, entries[i].1).Success?
    decreases |entries|
  {
    if |entries| == 0 then Success(s)
    else
      var next :- ApplyEntry(s, entries[0].0, entries[0].1);
      assert forall i | 0 <= i < |entries| ::
               ApplyEntry(s, entries[i].0, entries[i].1).Success? == ApplyEntry(next, entries[i].0, entries[i].1).Success?;
      ApplyEntries(next, entries[1..])
  }

  /** The dictionary in element 0 of every tuple, tuple after tuple. */
  function ApplyTuples(s: Style, args: seq<seq<Value>>): (r: Result<Style, Fault>)
    ensures |args| == 0 ==> r == Success(s)
    decreases |args|
  {
    if |args| == 0 then Success(s)
    else
      var first :- At(args[0], 0);
      var dict :- AsDictionary(first);
      var next :- ApplyEntries(s, dict);
      ApplyTuples(next, args[1..])
  }

  /** Sequencing a second list of tuples after a first. */
  function Then(a: Result<Style, Fault>, rest: seq<seq<Value>>): Result<Style, Fault> {
    match a
    case Failure(e) => Failure(e)
    case Success(s) => ApplyTuples(s, rest)
  }

  /** Applying tuples `a + b` is applying `a` and then `b`. */
  lemma {:induction false} ApplyTuplesAppend(s: Style, a: seq<seq<Value>>, b: seq<seq<Value>>)
    ensures ApplyTuples(s, a + b) == Then(ApplyTuples(s, a), b)
    decreases |a|
  {
    if |a| == 0 {
      assert a + b == b;
    } else {
      assert (a + b)[0] == a[0] && (a + b)[1..] == a[1..] + b;
      var first := At(a[0], 0);
      if first.Success? && AsDictionary(first.value).Success? {
        var next := ApplyEntries(s, AsDictionary(first.value).value);
        if next.Success? {
          ApplyTuplesAppend(next.value, a[1..], b);
        }
      }
    }
  }

  /** Some dictionary entry of the tuples is keyed by the string `key`. */
  predicate NamesKey(args: seq<seq<Value>>, key: string) {
    exists i, j | 0 <= i < |args| && |args[i]| > 0 && args[i][0].Map? && 0 <= j < |args[i][0].entries| ::
      args[i][0].entries[j].0 == Str(key)
  }

  /** An attribute no entry names keeps its value through a dictionary. */
  lemma {:induction false} EntriesKeepUnnamed(s: Style, entries: seq<(Value, Value)>, key: string)
    requires ApplyEntries(s, entries).Success?
    requires forall j | 0 <= j < |entries| :: entries[j].0 != Str(key)
    ensures key == "foreground" ==> ApplyEntries(s, entries).value.foreground == s.foreground
    ensures key == "bold" ==> ApplyEntries(s, entries).value.bold == s.bold
    ensures key == "italic" ==> ApplyEntries(s, entries).value.italic == s.italic
    decreases |entries|
  {
    if |entries| > 0 {
      var next := ApplyEntry(s, entries[0].0, entries[0].1).value;
      assert ApplyEntries(s, entries) == ApplyEntries(next, entries[1..]);
      EntriesKeepUnnamed(next, entries[1..], key);
    }
  }

  /** An attribute no entry of any tuple names keeps its value through the
      whole fold. */
  lemma {:induction false} TuplesKeepUnnamed(s: Style, args: seq<seq<Value>>, key: string)
    requires ApplyTuples(s, args).Success?
    requires !NamesKey(args, key)
    ensures key == "foreground" ==> ApplyTuples(s, args).value.foreground == s.foreground
    ensures key == "bold" ==> ApplyTuples(s, args).value.bold == s.bold
    ensures key == "italic" ==> ApplyTuples(s, args).value.italic == s.italic
    decreases |args|
  {
    if |args| > 0 {
      var dict := args[0][0].entries;
      forall j | 0 <= j < |dict|
        ensures dict[j].0 != Str(key)
      {
        assert args[0][0].entries[j] == dict[j];
      }
      EntriesKeepUnnamed(s, dict, key);
      var next := ApplyEntries(s, dict).value;
      var tail: seq<seq<Value>> := args[1..];
      forall i, j | 0 <= i < |tail| && |tail[i]| > 0 && tail[i][0].Map? && 0 <= j < |tail[i][0].entries|
        ensures tail[i][0].entries[j].0 != Str(key)
      {
        assert tail[i] == args[i + 1];
      }
      TuplesKeepUnnamed(next, args[1..], key);
    }
  }

  /** The dictionary `{foreground: c, bold: b, italic: i}`. */
  function FullStyle(c: int, bold: bool, italic: bool): Value {
    Map([(Str("foreground"), Int(c)), (Str("bold"), Bool(bold)), (Str("italic"), Bool(italic))])
  }

  /** A tuple naming all three attributes decides the style, whatever the
      tuples before it said. */
  lemma HighlightLastWins(s: Style, a: seq<seq<Value>>, c: int, bold: bool, italic: bool)
    requires ApplyTuples(s, a).Success? && 0 <= c <= UInt32Max
    ensures ApplyTuples(s, a + [[FullStyle(c, bold, italic)]]) == Success(Style(Rgb(c), bold, italic))
  {
    ApplyTuplesAppend(s, a, [[FullStyle(c, bold, italic)]]);
    var u := ApplyTuples(s, a).value;
    var e := FullStyle(c, bold, italic).entries;
    var s1 := u.(foreground := Rgb(c));
    var s2 := s1.(bold := bold);
    assert ApplyEntries(s2, e[2..]) == Success(Style(Rgb(c), bold, italic)) by {
      assert e[2..][1..] == [];
    }
    assert ApplyEntries(s1, e[1..]) == ApplyEntries(s2, e[2..]) by {
      assert e[1..][1..] == e[2..];
    }
    assert ApplyEntries(u, e) == ApplyEntries(s1, e[1..]);
    assert [[FullStyle(c, bold, italic)]][1..] == [];
  }

  /** Tuples whose dictionaries are empty leave the style as it was. */
  lemma {:induction false} EmptyDictionariesKeepStyle(s: Style, args: seq<seq<Value>>)
    requires forall i | 0 <= i < |args| :: |args[i]| > 0 && args[i][0] == Map([])
    ensures ApplyTuples(s, args) == Success(s)
    decreases |args|
  {
    if |args| > 0 {
      EmptyDictionariesKeepStyle(s, args[1..]);
    }
  }

  // ---------------------------------------------------------------------
  // put
  // ---------------------------------------------------------------------

  /** The payloads of element 0 of every tuple, concatenated in order. */
  function PutPayload(args: seq<seq<Value>>): (r: Result<string, Fault>)
    ensures r.Success? <==> forall i | 0 <= i < |args| :: |args[i]| > 0 && args[i][0].Str?
    decreases |args|
  {
    if |args| == 0 then Success("")
    else
      var first :- At(args[0], 0);
      var bytes :- AsBinary(first);
      var rest :- PutPayload(args[1..]);
      Success(bytes + rest)
  }

  /** The payload of `a + b` is the payload of `a` followed by that of `b`. */
  lemma {:induction false} PutPayloadAppend(a: seq<seq<Value>>, b: seq<seq<Value>>)
    requires PutPayload(a).Success? && PutPayload(b).Success?
    ensures PutPayload(a + b) == Success(PutPayload(a).value + PutPayload(b).value)
    decreases |a|
  {
    if |a| == 0 {
      assert a + b == b;
      assert PutPayload(a).value + PutPayload(b).value == PutPayload(b).value;
    } else {
      var ab := a + b;
      assert ab[0] == a[0] && ab[1..] == a[1..] + b;
      PutPayloadCons(a);
      PutPayloadAppend(a[1..], b);
      PutPayloadCons(ab);
      var x, ta, tb := a[0][0].s, PutPayload(a[1..]).value, PutPayload(b).value;
      assert x + (ta + tb) == (x + ta) + tb;
    }
  }

  /** A payload that can start with the first tuple's string does. */
  lemma PutPayloadCons(args: seq<seq<Value>>)
    requires |args| > 0 && |args[0]| > 0 && args[0][0].Str? && PutPayload(args[1..]).Success?
    ensures PutPayload(args) == Success(args[0][0].s + PutPayload(args[1..]).value)
  {
  }

  // ---------------------------------------------------------------------
  // Dispatch
  // ---------------------------------------------------------------------

  /** The names a handler acts on; every other name is accepted and ignored. */
  predicate Handled(front: Front, name: string) {
    || name == "clear" || name == "resize" || name == "highlight_set" || name == "eol_clear"
    || name == "set_title" || name == "put" || name == "cursor_goto" || name == "scroll"
    || (front == Wpf && name == "normal_mode")
  }

  function Arg(args: seq<seq<Value>>, i: int, j: int): (r: Result<Value, Fault>)
    ensures r.Success? <==> 0 <= i < |args| && 0 <= j < |args[i]|
    ensures r.Success? ==> r.value == args[i][j]
  {
    var tuple :- At(args, i);
    At(tuple, j)
  }

  function WithTerm(w: Window, t: Result<Terminal, Fault>): (r: Result<Window, Fault>)
    ensures r.Success? <==> t.Success?
    ensures r.Success? ==> r.value == w.(term := t.value)
  {
    var term :- t;
    Success(w.(term := term))
  }

  /** The `switch (function)` of the handler, on the argument tuples. */
  function Dispatch(front: Front, w: Window, name: string, args: seq<seq<Value>>): (r: Result<Window, Fault>)
    requires Valid(w.term)
    ensures r.Success? ==> Valid(r.value.term)
    ensures r.Success? && front == Gui && Unaliased(w.term) ==> Unaliased(r.value.term)
    ensures r.Success? && (name != "set_title" || front == Wpf) ==> r.value.title == w.title
    ensures !Handled(front, name) ==> r == Success(w)
  {
    if name == "clear" then Success(w.(term := Clear(w.term)))
    else if name == "resize" then
      var tuple :- At(args, 0);
      var rows :- At(tuple, 1);
      var rows :- AsInt32(rows);
      var cols :- AsInt32(tuple[0]);
      WithTerm(w, Resize(w.term, rows, cols))
    else if name == "highlight_set" then
      var s :- ApplyTuples(Plain, args);
      WithTerm(w, Highlight(w.term, s.foreground, s.bold, s.italic))
    else if name == "eol_clear" then WithTerm(w, ClearToEnd(w.term))
    else if name == "set_title" then
      var title :- Arg(args, 0, 0);
      var title :- AsString(title);
      if front == Wpf then Failure(WrongThread) else Success(w.(title := title))
    else if name == "put" then
      var text :- PutPayload(args);
      WithTerm(w, PutText(w.term, text))
    else if name == "cursor_goto" then
      var row :- Arg(args, 0, 0);
      var row :- AsInt32(row);
      var col :- Arg(args, 0, 1);
      var col :- AsInt32(col);
      WithTerm(w, MoveCaret(w.term, row, col))
    else if name == "scroll" then
      var d :- Arg(args, 0, 0);
      match front
      case Gui =>
        var d :- AsSByte(d);
        WithTerm(w, ScrollByCopy(w.term, d))
      case Wpf =>
        var d :- AsByte(d);
        WithTerm(w, ScrollByRef(w.term, d))
    else if name == "normal_mode" && front == Wpf then
      // reads the width of cell (0, 0) for the caret rectangle
      var _ :- CellAt(w.term, 0, 0);
      Success(w)
    else Success(w)
  }

  /** A batch the handler can read: a list holding a name and argument tuples. */
  predicate WellFormed(f: Value) {
    && f.Array? && |f.items| > 0 && f.items[0].Str?
    && forall i | 1 <= i < |f.items| :: f.items[i].Array?
  }

  /** One batch: a list whose element 0 is the name and whose other elements
      are the argument tuples; all of it is read before the name is looked at. */
  function ApplyBatch(front: Front, w: Window, f: Value): (r: Result<Window, Fault>)
    requires Valid(w.term)
    ensures r.Success? ==> Valid(r.value.term)
    ensures r.Success? && front == Gui && Unaliased(w.term) ==> Unaliased(r.value.term)
    ensures r.Success? ==> WellFormed(f)
    ensures WellFormed(f) && !Handled(front, f.items[0].s) ==> r == Success(w)
  {
    var list :- AsList(f);
    var name :- At(list, 0);
    var name :- AsString(name);
    var args :- AsLists(list[1..]);
    Dispatch(front, w, name, args)
  }

  /** `OnRedraw`: the batches in order; the first that throws ends the handler. */
  function OnRedraw(front: Front, w: Window, functions: seq<Value>): (r: Result<Window, Fault>)
    requires Valid(w.term)
    ensures r.Success? ==> Valid(r.value.term)
    ensures r.Success? && front == Gui && Unaliased(w.term) ==> Unaliased(r.value.term)
    decreases |functions|
  {
    if |functions| == 0 then Success(w)
    else
      var next :- ApplyBatch(front, w, functions[0]);
      OnRedraw(front, next, functions[1..])
  }

  /** Running a second batch list after a first. */
  function Continue(front: Front, a: Result<Window, Fault>, rest: seq<Value>): Result<Window, Fault>
    requires a.Success? ==> Valid(a.value.term)
  {
    match a
    case Failure(e) => Failure(e)
    case Success(w) => OnRedraw(front, w, rest)
  }

  /** Handling batches `a + b` in one event is handling `a` and then `b`. */
  lemma {:induction false} OnRedrawAppend(front: Front, w: Window, a: seq<Value>, b: seq<Value>)
    requires Valid(w.term)
    ensures OnRedraw(front, w, a + b) == Continue(front, OnRedraw(front, w, a), b)
    decreases |a|
  {
    if |a| == 0 {
      assert a + b == b;
    } else {
      assert (a + b)[0] == a[0] && (a + b)[1..] == a[1..] + b;
      var next := ApplyBatch(front, w, a[0]);
      if next.Success? {
        OnRedrawAppend(front, next.value, a[1..], b);
      }
    }
  }

  /** A notification reaches the handler only when it is a redraw; any
      other notification leaves the window as it was. */
  function Deliver(front: Front, w: Window, notice: MsgPackIO.Notice): (r: Result<Window, Fault>)
    requires Valid(w.term)
    ensures notice.name != "redraw" ==> r == Success(w)
    ensures notice.name == "redraw" && !notice.params.Array? ==> r.Failure?
    ensures notice.name == "redraw" && notice.params.Array? ==> r == OnRedraw(front, w, notice.params.items)
  {
    var event :- NeovimClient.OnNotificationReceived(notice);
    match event
    case None => Success(w)
    case Some(functions) => OnRedraw(front, w, functions)
  }

  // ---------------------------------------------------------------------
  // Properties of single operations
  // ---------------------------------------------------------------------

  /** A batch whose name the handler ignores changes nothing when it is
      well formed, and throws when it is not. */
  lemma IgnoredBatch(front: Front, w: Window, name: string, tuples: seq<Value>)
    requires Valid(w.term) && !Handled(front, name)
    ensures var r := ApplyBatch(front, w, Array([Str(name)] + tuples));
            && (r.Success? <==> forall i | 0 <= i < |tuples| :: tuples[i].Array?)
            && (r.Success? ==> r.value == w)
  {
    var list := [Str(name)] + tuples;
    assert list[1..] == tuples;
  }

  /** `resize` reads `[columns, rows]`: a rectangular grid shrunk this way
      keeps its top-left region. */
  lemma ResizeReadsColumnsThenRows(front: Front, w: Window, h: nat, wd: nat, rows: nat, cols: nat)
    requires Rect(w.term, h, wd) && 1 <= rows <= h && cols <= wd && cols <= Int32Max && rows <= Int32Max
    requires rows != h || cols != wd
    ensures var r := Dispatch(front, w, "resize", [[Int(cols), Int(rows)]]);
            && r.Success? && Rect(r.value.term, rows, cols)
            && forall i | 0 <= i < rows :: Grid(r.value.term)[i] == Grid(w.term)[i][..cols]
  {
    ResizeShrinks(w.term, h, wd, rows, cols);
  }

  /** `cursor_goto` reads `[row, column]` and puts the caret there. */
  lemma CursorGotoReadsRowThenColumn(front: Front, w: Window, h: nat, wd: nat, row: nat, col: nat)
    requires Rect(w.term, h, wd) && row < h && col < wd && row <= Int32Max && col <= Int32Max
    ensures var r := Dispatch(front, w, "cursor_goto", [[Int(row), Int(col)]]);
            && r.Success?
            && r.value.term.caret == Caret(row, col, Grid(w.term)[row][col].text)
            && Grid(r.value.term) == Grid(w.term)
  {
  }

  /** `set_title` on the window's thread changes the title and nothing
      else; from the reader's thread it throws. */
  lemma SetTitleOnlyRenames(w: Window, title: string, rest: seq<Value>)
    requires Valid(w.term)
    ensures Dispatch(Gui, w, "set_title", [[Str(title)] + rest]) == Success(w.(title := title))
    ensures Dispatch(Wpf, w, "set_title", [[Str(title)] + rest]) == Failure(WrongThread)
  {
  }

  /** `highlight_set` does not accumulate: it highlights with the style its
      tuples build from `Plain`, so an attribute no entry names falls back to
      white, normal weight, upright. */
  lemma HighlightResetsOmitted(front: Front, w: Window, args: seq<seq<Value>>)
    requires Valid(w.term) && ApplyTuples(Plain, args).Success?
    ensures var s := ApplyTuples(Plain, args).value;
            && Dispatch(front, w, "highlight_set", args) == WithTerm(w, Highlight(w.term, s.foreground, s.bold, s.italic))
            && (!NamesKey(args, "foreground") ==> s.foreground == White)
            && (!NamesKey(args, "bold") ==> !s.bold)
            && (!NamesKey(args, "italic") ==> !s.italic)
  {
    if !NamesKey(args, "foreground") { TuplesKeepUnnamed(Plain, args, "foreground"); }
    if !NamesKey(args, "bold") { TuplesKeepUnnamed(Plain, args, "bold"); }
    if !NamesKey(args, "italic") { TuplesKeepUnnamed(Plain, args, "italic"); }
  }

  /** A `put` batch of several tuples writes their texts one after another:
      it does what two `put` batches splitting the tuples would do. */
  lemma PutSplits(front: Front, w: Window, a: seq<seq<Value>>, b: seq<seq<Value>>)
    requires Valid(w.term) && PutPayload(a).Success? && PutPayload(b).Success?
    ensures var first := Dispatch(front, w, "put", a);
            Dispatch(front, w, "put", a + b)
            == if first.Success? then Dispatch(front, first.value, "put", b) else first
  {
    PutPayloadAppend(a, b);
    PutTextAppend(w.term, PutPayload(a).value, PutPayload(b).value);
  }

  /** The unsigned-byte handler cannot scroll down: reading -1 as a byte
      throws. The signed-byte handler scrolls a non-empty grid down. */
  lemma ScrollDownDiffers(w: Window)
    requires Valid(w.term) && |w.term.rows| > 0
    ensures Dispatch(Wpf, w, "scroll", [[Int(-1)]]).Failure?
    ensures Dispatch(Gui, w, "scroll", [[Int(-1)]]) == WithTerm(w, ScrollByCopy(w.term, -1))
  {
  }

  /** Scrolling up in the unsigned-byte handler leaves two slots of a grid
      of two or more rows holding one row object; the signed-byte handler
      never aliases rows. */
  lemma ScrollUpAliasesOnlyInWpf(w: Window, h: nat, wd: nat)
    requires Rect(w.term, h, wd) && h >= 2
    ensures var r := Dispatch(Wpf, w, "scroll", [[Int(1)]]);
            r.Success? && !Unaliased(r.value.term)
    ensures var r := Dispatch(Gui, w, "scroll", [[Int(1)]]);
            r.Success? ==> Unaliased(r.value.term)
  {
    ScrollUpByRef(w.term, h, wd);
  }

  // ---------------------------------------------------------------------
  // The read loop with the Wpf window subscribed
  // ---------------------------------------------------------------------

  /** The transport state and the window the reader drives. */
  datatype Session = Session(io: MsgPackIO.Io, window: Window)

  /** Delivers notices one after another; the first that throws ends the run. */
  function DeliverAll(front: Front, w: Window, notices: seq<MsgPackIO.Notice>): (r: Result<Window, Fault>)
    requires Valid(w.term)
    ensures r.Success? ==> Valid(r.value.term)
    ensures |notices| == 0 ==> r == Success(w)
    decreases |notices|
  {
    if |notices| == 0 then Success(w)
    else
      var next :- Deliver(front, w, notices[0]);
      DeliverAll(front, next, notices[1..])
  }

  /** Delivering `a + b` is delivering `a` and then `b`. */
  lemma {:induction false} DeliverAllAppend(front: Front, w: Window, a: seq<MsgPackIO.Notice>, b: seq<MsgPackIO.Notice>)
    requires Valid(w.term)
    ensures DeliverAll(front, w, a + b) ==
            match DeliverAll(front, w, a)
            case Failure(e) => Failure(e)
            case Success(x) => DeliverAll(front, x, b)
    decreases |a|
  {
    if |a| == 0 {
      assert a + b == b;
    } else {
      assert (a + b)[0] == a[0] && (a + b)[1..] == a[1..] + b;
      var next := Deliver(front, w, a[0]);
      if next.Success? {
        DeliverAllAppend(front, next.value, a[1..], b);
      }
    }
  }

  /** The application copy's read loop with the `Wpf` window subscribed
      directly: a notification a frame raises goes through the `redraw`
      filter and the handler before the next frame is looked at, so an
      exception in either ends the read, as one in the transport does. */
  function WpfRead(s: Session, frames: seq<Value>): (r: Result<Session, Fault>)
    requires Valid(s.window.term)
    ensures r.Success? ==> Valid(r.value.window.term)
    ensures r.Success? ==> r.value.io.nextId == s.io.nextId && r.value.io.pending.Keys == s.io.pending.Keys
    decreases |frames|
  {
    if |frames| == 0 then Success(s)
    else
      var step :- MsgPackIO.HandleFrame(MsgPackIO.IntKeyed, s.io, frames[0]);
      var w :- DeliverAll(Wpf, s.window, MsgPackIO.NoticesOf(step.notice));
      WpfRead(Session(step.io, w), frames[1..])
  }

  /** Handling inside the loop agrees with handling the whole read first and
      delivering its notices afterwards: one succeeds exactly when the other
      does, and then both end in the same transport state and window. */
  lemma {:induction false} WpfReadIsHandleThenDeliver(s: Session, frames: seq<Value>)
    requires Valid(s.window.term)
    ensures var h := MsgPackIO.HandleFrames(MsgPackIO.IntKeyed, s.io, frames);
            && (WpfRead(s, frames).Success? <==> h.Success? && DeliverAll(Wpf, s.window, h.value.notices).Success?)
            && (WpfRead(s, frames).Success? ==>
                  WpfRead(s, frames).value == Session(h.value.io, DeliverAll(Wpf, s.window, h.value.notices).value))
    decreases |frames|
  {
    if |frames| > 0 {
      var step := MsgPackIO.HandleFrame(MsgPackIO.IntKeyed, s.io, frames[0]);
      if step.Success? {
        var first := MsgPackIO.NoticesOf(step.value.notice);
        var rest := MsgPackIO.HandleFrames(MsgPackIO.IntKeyed, step.value.io, frames[1..]);
        if rest.Success? {
          DeliverAllAppend(Wpf, s.window, first, rest.value.notices);
        }
        var d := DeliverAll(Wpf, s.window, first);
        if d.Success? {
          WpfReadIsHandleThenDeliver(Session(step.value.io, d.value), frames[1..]);
        }
      }
    }
  }

  /** The notification frame `[2, "redraw", [["set_title", [title]]]]`. */
  function TitleFrame(title: string): Value {
    Array([Int(2), Str("redraw"), Array([Array([Str("set_title"), Array([Str(title)])])])])
  }

  /** A `set_title` from Neovim throws inside the `Wpf` read loop, so nothing
      after it in the read is handled, whatever it is. */
  lemma WpfTitleEndsRead(s: Session, title: string, rest: seq<Value>)
    requires Valid(s.window.term)
    ensures WpfRead(s, [TitleFrame(title)] + rest) == Failure(WrongThread)
  {
    var batch := Array([Str("set_title"), Array([Str(title)])]);
    var notice := MsgPackIO.Notice("redraw", Array([batch]));
    assert MsgPackIO.HandleFrame(MsgPackIO.IntKeyed, s.io, TitleFrame(title)) == Success(MsgPackIO.Step(s.io, Some(notice)));
    assert [Array([Str(title)])][1..] == [];
    assert batch.items[1..] == [Array([Str(title)])];
    assert ApplyBatch(Wpf, s.window, batch) == Failure(WrongThread);
    assert Deliver(Wpf, s.window, notice) == Failure(WrongThread);
    assert ([TitleFrame(title)] + rest)[0] == TitleFrame(title);
  }

  /** A `redraw` whose params are not a list makes the filter throw inside
      the loop, which likewise ends the read. */
  lemma MalformedRedrawEndsRead(s: Session, params: Value, rest: seq<Value>)
    requires Valid(s.window.term) && !params.Array?
    ensures WpfRead(s, [Array([Int(2), Str("redraw"), params])] + rest) == Failure(TypeMismatch)
  {
    var frame := Array([Int(2), Str("redraw"), params]);
    assert MsgPackIO.HandleFrame(MsgPackIO.IntKeyed, s.io, frame)
           == Success(MsgPackIO.Step(s.io, Some(MsgPackIO.Notice("redraw", params))));
    assert ([frame] + rest)[0] == frame;
  }
}
