/** Report groups of libdm-report.c in JSON mode: reports and arrays are pushed, output
    and popped, and the text is printed piece by piece. */
module JsonGroup {
  import opened Options

  const UNIT := 4

  /** What is printed: an opening brace, a name with an opening bracket, closing brackets
      and braces, a comma, or the object of one row. */
  datatype Text = OpenObject | OpenArray(name: string) | CloseArray | CloseObject | Comma | RowObject

  datatype Piece = Piece(text: Text, indent: int)

  // ---- a reader of JSON (sections 2 to 5 of RFC 8259) ----

  /** What has been read of an object or array: nothing, an element, or a comma. */
  datatype Progress = Fresh | AfterElement | AfterComma

  datatype Frame = Frame(isObject: bool, progress: Progress) {
    predicate TakesElement() { progress != AfterElement }
    predicate Closes() { progress != AfterComma }
  }

  /** The open objects and arrays, the innermost last. */
  datatype Reader = Unstarted | Reading(open: seq<Frame>) | Complete | Wrong

  /** Reading one piece: members belong into objects and values into arrays, a comma
      stands between two elements, every bracket closes the innermost open one, and each
      piece is indented by the number of brackets around it. */
  function Read(r: Reader, p: Piece): Reader {
    if r == Unstarted then
      if p == Piece(OpenObject, 0) then Reading([Frame(true, Fresh)]) else Wrong
    else if !r.Reading? || r.open == [] then Wrong
    else
      var n := |r.open| - 1;
      var top, below := r.open[n], r.open[..n];
      var marked := below + [top.(progress := AfterElement)];
      var closed := if below == [] then Complete else Reading(below);
      if p.indent != 4 * (n + if p.text.CloseArray? || p.text.CloseObject? then 0 else 1) then Wrong
      else
        match p.text
        case OpenObject => if !top.isObject && top.TakesElement() then Reading(marked + [Frame(true, Fresh)]) else Wrong
        case OpenArray(_) => if top.isObject && top.TakesElement() then Reading(marked + [Frame(false, Fresh)]) else Wrong
        case RowObject => if !top.isObject && top.TakesElement() then Reading(marked) else Wrong
        case Comma =>
          if top.progress == AfterElement then Reading(below + [top.(progress := AfterComma)]) else Wrong
        case CloseArray => if !top.isObject && top.Closes() then closed else Wrong
        case CloseObject => if top.isObject && top.Closes() then closed else Wrong
  }

  function ReadAll(out: seq<Piece>): Reader {
    if out == [] then Unstarted else Read(ReadAll(out[..|out| - 1]), out[|out| - 1])
  }

  lemma ReadOne(out: seq<Piece>, p: Piece)
    ensures ReadAll(out + [p]) == Read(ReadAll(out), p)
  {
    assert (out + [p])[..|out|] == out;
  }

  // ---- the group ----

  /** A stacked item. The parent of an item is the position of the nearest item below
      that is no report; the root's is -1. rows are those still to be output, each with
      whether it is displayed. */
  datatype Item = Item(report: bool, name: Option<string>, parent: int, finished: nat,
                       done: bool, closing: bool, rows: seq<bool>)

  /** Reports in a JSON group are named. */
  function NameOf(it: Item): string { if it.name.Some? then it.name.value else "" }

  const ROOT := Item(false, None, -1, 0, false, false, [])

  /** The stack grows to the right. */
  datatype Group = Group(items: seq<Item>, indent: int, out: seq<Piece>)

  const EMPTY := Group([ROOT], 0, [])

  function Print(g: Group, t: Text, at: int): Group { g.(out := g.out + [Piece(t, at)]) }

  function Nearest(items: seq<Item>): (k: int)
    ensures -1 <= k < |items| && (k >= 0 ==> !items[k].report)
  {
    if items == [] then -1
    else if !items[|items| - 1].report then |items| - 1
    else Nearest(items[..|items| - 1])
  }

  /** _json_output_start. */
  function Started(g: Group): Group {
    if g.indent == 0 then Print(g, OpenObject, 0).(indent := UNIT) else g
  }

  /** The item below is a named array, so that the child needs an object of its own. */
  predicate InArray(items: seq<Item>, parent: int) {
    0 <= parent < |items| && items[parent].parent >= 0 && items[parent].name.Some?
  }

  predicate HasSiblings(items: seq<Item>, parent: int) { 0 <= parent < |items| && items[parent].finished > 0 }

  function Separated(g: Group, parent: int): Group {
    if HasSiblings(g.items, parent) then Print(g, Comma, g.indent) else g
  }

  function ObjectOpened(g: Group): Group { Print(g, OpenObject, g.indent).(indent := g.indent + UNIT) }

  function ArrayOpened(g: Group, name: string): Group {
    Print(g, OpenArray(name), g.indent).(indent := g.indent + UNIT)
  }

  /** _json_output_array_start. */
  function ArrayStarted(g: Group, parent: int, name: string): Group {
    var g := Separated(g, parent);
    var g := if InArray(g.items, parent) then ObjectOpened(g) else g;
    ArrayOpened(g, name)
  }

  function Stacked(g: Group, it: Item): Group { g.(items := g.items + [it]) }

  /** dm_report_group_push of a report: nothing is printed yet. */
  function ReportPushed(g: Group, name: string, rows: seq<bool>): Group {
    Stacked(g, Item(true, Some(name), Nearest(g.items), 0, false, false, rows))
  }

  /** dm_report_group_push without a report, with or without a name. */
  function ItemPushed(g: Group, name: Option<string>): (Group, bool) {
    var parent := Nearest(g.items);
    var it := Item(false, name, parent, 0, true, true, []);
    var g := Started(g);
    if name.Some? then (Stacked(ArrayStarted(g, parent, name.value), it), true)
    else if parent < 0 || g.items[parent].parent < 0 then (g, false)
    else (Stacked(ObjectOpened(Separated(g, parent)), it), true)
  }

  /** The rows that are displayed. */
  function Displayed(rows: seq<bool>): nat {
    if rows == [] then 0 else Displayed(rows[..|rows| - 1]) + if rows[|rows| - 1] then 1 else 0
  }

  /** n objects with commas between them. */
  function RowsPrinted(g: Group, n: nat): (r: Group)
    ensures r.items == g.items && r.indent == g.indent
  {
    if n == 0 then g
    else
      var g := RowsPrinted(g, n - 1);
      Print(if n == 1 then g else Print(g, Comma, g.indent), RowObject, g.indent)
  }

  function Replaced(g: Group, k: nat, it: Item): Group
    requires k < |g.items|
  {
    g.(items := g.items[k := it])
  }

  /** dm_report_output of the report at position k. */
  function Output(g: Group, k: nat): (r: (Group, bool))
    requires k < |g.items|
    ensures |r.0.items| == |g.items|
  {
    var g := Started(g);
    var it := g.items[k];
    if it.done && it.rows == [] then (g, true)
    else if k != |g.items| - 1 || it.closing then (g, false)
    else
      var g := ArrayStarted(g, it.parent, NameOf(it));
      (Replaced(RowsPrinted(g, Displayed(it.rows)), k, it.(rows := [], done := true, closing := true)), true)
  }

  function ArrayClosed(g: Group): Group { Print(g.(indent := g.indent - UNIT), CloseArray, g.indent - UNIT) }

  function ObjectClosed(g: Group): Group { Print(g.(indent := g.indent - UNIT), CloseObject, g.indent - UNIT) }

  function Finished(items: seq<Item>, k: int): seq<Item> {
    if 0 <= k < |items| then items[k := items[k].(finished := items[k].finished + 1)] else items
  }

  /** _report_group_pop_json. */
  function ItemClosed(g: Group, it: Item): Group {
    if it.done && it.closing then
      var g := if it.name.Some? then ArrayClosed(g) else g;
      if InArray(g.items, it.parent) then ObjectClosed(g) else g
    else g
  }

  /** dm_report_group_pop. */
  function Popped(g: Group): (r: Group)
    requires g.items != []
    ensures |r.items| == |g.items| - 1
  {
    var n := |g.items| - 1;
    var it := g.items[n];
    var g := ItemClosed(g, it);
    g.(items := Finished(g.items[..n], it.parent))
  }

  /** The end of the text: the outermost object is closed, or made if it is empty. */
  function Completed(g: Group): Group
    requires g.items != []
  {
    var g := Started(g.(items := [g.items[0].(finished := 0)]));
    Print(g, CloseObject, 0).(indent := g.indent - UNIT)
  }

  /** dm_report_group_output_and_pop_all. */
  function AllPopped(g: Group): (Group, bool)
    requires g.items != []
    decreases |g.items|
  {
    var n := |g.items| - 1;
    if n == 0 then (Completed(g), true)
    else
      var (g, ok) := if g.items[n].report then Output(g, n) else (g, true);
      if ok then AllPopped(Popped(g)) else (g, false)
  }

  // ---- what legal use keeps ----

  /** The item at position i is stacked as the operations leave it. */
  ghost predicate ItemOk(items: seq<Item>, i: nat)
    requires i < |items|
  {
    var it := items[i];
    && it.parent == Nearest(items[..i])
    && (it.report ==> it.name.Some? && it.done == it.closing && (it.done ==> it.rows == [] && i == |items| - 1))
    && (!it.report ==> it.done && it.closing && (it.name.None? ==> InArray(items[..i], it.parent)))
  }

  ghost predicate Shaped(items: seq<Item>) {
    && items != [] && items[0].parent == -1 && !items[0].report && items[0].name.None?
    && forall i :: 0 < i < |items| ==> ItemOk(items, i)
  }

  /** How far the object or array of an item has come; busy says that a child is open. */
  function ProgressOf(it: Item, busy: bool): Progress {
    if busy || it.finished > 0 then AfterElement else Fresh
  }

  function FramesOf(it: Item, inArray: bool): nat { if it.name.Some? && inArray then 2 else 1 }

  /** The open objects and arrays are those of the stacked items. */
  ghost predicate Fits(fs: seq<Frame>, items: seq<Item>, busy: bool) {
    items != [] &&
    var n := |items| - 1;
    var it, below, m := items[n], items[..n], |fs|;
    if n == 0 then fs == [Frame(true, ProgressOf(it, busy))]
    else if !it.closing then Fits(fs, below, busy)
    else
      var k := FramesOf(it, InArray(below, it.parent));
      && m > k
      && Fits(fs[..m - k], below, true)
      && fs[m - 1].isObject == it.name.None?
      && (k == 2 ==> fs[m - 2] == Frame(true, AfterElement))
      && (if it.report then !busy && fs[m - 1].progress != AfterComma
          else fs[m - 1].progress == ProgressOf(it, busy))
  }

  /** What is printed so far can be read, and the indentation is four for each bracket
      that is open. */
  ghost predicate Inv(g: Group) {
    && Shaped(g.items)
    && (g.indent == 0 ==> ReadAll(g.out) == Unstarted && forall i :: 0 <= i < |g.items| ==> Untouched(g.items[i]))
    && (g.indent != 0 ==>
          && ReadAll(g.out).Reading?
          && g.indent == UNIT * |ReadAll(g.out).open|
          && Fits(ReadAll(g.out).open, g.items, false))
  }

  predicate Untouched(it: Item) { !it.closing && it.finished == 0 }

  lemma {:induction false} NothingOpen(items: seq<Item>)
    requires items != [] && forall i :: 0 <= i < |items| ==> Untouched(items[i])
    ensures Fits([Frame(true, Fresh)], items, false)
  {
    if |items| > 1 {
      assert forall i :: 0 <= i < |items| - 1 ==> items[..|items| - 1][i] == items[i];
      NothingOpen(items[..|items| - 1]);
    }
  }

  lemma StartedInv(g: Group)
    requires Inv(g)
    ensures Inv(Started(g)) && Started(g).indent != 0 && Started(g).items == g.items
  {
    if g.indent == 0 {
      hide Shaped, Fits;
      NothingOpen(g.items);
      ReadOne(g.out, Piece(OpenObject, 0));
    }
  }

  lemma ShapedBelow(items: seq<Item>)
    requires Shaped(items) && |items| > 1
    ensures Shaped(items[..|items| - 1])
  {
    var below := items[..|items| - 1];
    forall i | 0 < i < |below| ensures ItemOk(below, i) {
      assert below[..i] == items[..i] && ItemOk(items, i);
    }
  }

  /** No report that has been output is on top, so that a new element can be opened. */
  predicate Free(items: seq<Item>) {
    items != [] && !(items[|items| - 1].report && items[|items| - 1].closing)
  }

  lemma {:induction false} NearestFound(items: seq<Item>)
    requires items != [] && !items[0].report
    ensures Nearest(items) >= 0
  {
    if items[|items| - 1].report {
      NearestFound(items[..|items| - 1]);
    }
  }

  /** The innermost open bracket belongs to the item that a new child gets as parent. */
  lemma {:induction false} InnermostFrame(fs: seq<Frame>, items: seq<Item>)
    requires Shaped(items) && Free(items) && Fits(fs, items, false)
    ensures var k := Nearest(items);
            && k >= 0 && fs != []
            && fs[|fs| - 1] == Frame(!InArray(items, k), ProgressOf(items[k], false))
  {
    var n := |items| - 1;
    if n > 0 {
      assert ItemOk(items, n);
      if !items[n].closing {
        ShapedBelow(items);
        assert n > 1 ==> ItemOk(items, n - 1);
        InnermostFrame(fs, items[..n]);
      } else {
        NearestFound(items[..n]);
      }
    }
  }

  function Marked(fs: seq<Frame>): seq<Frame>
    requires fs != []
  {
    fs[..|fs| - 1] + [fs[|fs| - 1].(progress := AfterElement)]
  }

  lemma {:induction false} MarkedFits(fs: seq<Frame>, items: seq<Item>)
    requires Shaped(items) && Free(items) && Fits(fs, items, false) && fs != []
    ensures Fits(Marked(fs), items, true)
  {
    var n := |items| - 1;
    if n > 0 {
      assert ItemOk(items, n);
      if !items[n].closing {
        ShapedBelow(items);
        assert n > 1 ==> ItemOk(items, n - 1);
        MarkedFits(fs, items[..n]);
      } else {
        var k := FramesOf(items[n], InArray(items[..n], items[n].parent));
        assert Marked(fs)[..|fs| - k] == fs[..|fs| - k];
      }
    }
  }

  // ---- opening an element ----

  /** The reader stands in fs, and the indentation agrees. */
  ghost predicate At(g: Group, fs: seq<Frame>) {
    fs != [] && ReadAll(g.out) == Reading(fs) && g.indent == UNIT * |fs|
  }

  /** The innermost bracket once a comma has been read where one is due. */
  function Ready(fs: seq<Frame>): seq<Frame>
    requires fs != []
  {
    var top := fs[|fs| - 1];
    if top.progress == AfterElement then fs[..|fs| - 1] + [top.(progress := AfterComma)] else fs
  }

  lemma ReadyMarked(fs: seq<Frame>)
    requires fs != []
    ensures |Ready(fs)| == |fs| && Marked(Ready(fs)) == Marked(fs)
    ensures Ready(fs)[|fs| - 1].isObject == fs[|fs| - 1].isObject && Ready(fs)[|fs| - 1].TakesElement()
  {
  }

  lemma SeparatedAt(g: Group, parent: int, fs: seq<Frame>)
    requires At(g, fs) && (HasSiblings(g.items, parent) <==> fs[|fs| - 1].progress == AfterElement)
    ensures At(Separated(g, parent), Ready(fs))
  {
    hide At, Read;
    AtNotEmpty(g, fs);
    ReadyMarked(fs);
    if HasSiblings(g.items, parent) {
      CommaPrintedAt(g, fs);
    }
  }

  lemma ReadComma(fs: seq<Frame>)
    requires fs != [] && fs[|fs| - 1].progress == AfterElement
    ensures Read(Reading(fs), Piece(Comma, UNIT * |fs|)) == Reading(Ready(fs))
  {
  }

  lemma CommaPrintedAt(g: Group, fs: seq<Frame>)
    requires At(g, fs) && fs[|fs| - 1].progress == AfterElement
    ensures At(Print(g, Comma, g.indent), Ready(fs))
  {
    hide ReadAll, Read;
    ReadComma(fs);
    ReadOne(g.out, Piece(Comma, g.indent));
  }

  lemma ObjectOpenedAt(g: Group, fs: seq<Frame>)
    requires At(g, fs) && !fs[|fs| - 1].isObject && fs[|fs| - 1].TakesElement()
    ensures At(ObjectOpened(g), Marked(fs) + [Frame(true, Fresh)])
  {
    ReadOne(g.out, Piece(OpenObject, g.indent));
    hide ReadAll;
  }

  lemma ArrayOpenedAt(g: Group, name: string, fs: seq<Frame>)
    requires At(g, fs) && fs[|fs| - 1].isObject && fs[|fs| - 1].TakesElement()
    ensures At(ArrayOpened(g, name), Marked(fs) + [Frame(false, Fresh)])
  {
    ReadOne(g.out, Piece(OpenArray(name), g.indent));
    hide ReadAll;
  }

  /** The frames of a new array, with its own object where the parent is an array. */
  function NewFrames(inArray: bool): seq<Frame> {
    (if inArray then [Frame(true, AfterElement)] else []) + [Frame(false, Fresh)]
  }

  lemma MarkedSnoc(fs: seq<Frame>, f: Frame)
    ensures Marked(fs + [f]) == fs + [f.(progress := AfterElement)]
  {
  }

  lemma ArrayStartedAt(g: Group, parent: int, name: string, fs: seq<Frame>)
    requires At(g, fs) && (HasSiblings(g.items, parent) <==> fs[|fs| - 1].progress == AfterElement)
    requires fs[|fs| - 1].isObject == !InArray(g.items, parent)
    ensures At(ArrayStarted(g, parent, name), Marked(fs) + NewFrames(InArray(g.items, parent)))
    ensures ArrayStarted(g, parent, name).items == g.items
  {
    hide At, Marked, Ready;
    AtNotEmpty(g, fs);
    SeparatedAt(g, parent, fs);
    ReadyMarked(fs);
    var h := Separated(g, parent);
    if InArray(g.items, parent) {
      ObjectOpenedAt(h, Ready(fs));
      var inner := Marked(fs) + [Frame(true, Fresh)];
      ArrayOpenedAt(ObjectOpened(h), name, inner);
      MarkedSnoc(Marked(fs), Frame(true, Fresh));
      assert Marked(fs) + [Frame(true, AfterElement)] + [Frame(false, Fresh)] == Marked(fs) + NewFrames(true);
    } else {
      ArrayOpenedAt(h, name, Ready(fs));
      assert [] + [Frame(false, Fresh)] == [Frame(false, Fresh)];
    }
  }

  lemma AtNotEmpty(g: Group, fs: seq<Frame>)
    requires At(g, fs)
    ensures fs != []
  {
  }

  /** The frames of the current group. */
  function Frames(g: Group): seq<Frame> { if ReadAll(g.out).Reading? then ReadAll(g.out).open else [] }

  lemma InvAt(g: Group)
    requires Inv(g) && g.indent != 0
    ensures Shaped(g.items) && Fits(Frames(g), g.items, false) && At(g, Frames(g))
  {
  }

  lemma AtInv(g: Group, fs: seq<Frame>)
    requires Shaped(g.items) && Fits(fs, g.items, false) && At(g, fs)
    ensures Inv(g) && g.indent != 0
  {
  }

  lemma ShapedSnoc(items: seq<Item>, it: Item)
    requires Shaped(items) && Free(items) && ItemOk(items + [it], |items|)
    ensures Shaped(items + [it])
  {
    var all := items + [it];
    forall i | 0 < i < |all| ensures ItemOk(all, i) {
      if i < |items| {
        assert all[..i] == items[..i] && ItemOk(items, i);
      }
    }
  }

  /** A report that waits for its output leaves the brackets alone. */
  lemma ReportPushedInv(g: Group, name: string, rows: seq<bool>)
    requires Inv(g) && Free(g.items)
    ensures Inv(ReportPushed(g, name, rows))
  {
    var it := Item(true, Some(name), Nearest(g.items), 0, false, false, rows);
    var all := g.items + [it];
    assert all[..|g.items|] == g.items;
    hide Nearest, ReadAll;
    ShapedSnoc(g.items, it);
    hide Shaped;
  }

  lemma NewArrayFits(fs: seq<Frame>, items: seq<Item>, it: Item)
    requires fs != [] && Fits(fs, items, true)
    requires !it.report && it.closing && it.finished == 0 && it.name.Some?
    ensures Fits(fs + NewFrames(InArray(items, it.parent)), items + [it], false)
  {
    var inArray := InArray(items, it.parent);
    var all := fs + NewFrames(inArray);
    assert (items + [it])[..|items|] == items;
    assert all[..|all| - FramesOf(it, inArray)] == fs;
    hide InArray;
  }

  lemma NewObjectFits(fs: seq<Frame>, items: seq<Item>, it: Item)
    requires fs != [] && Fits(fs, items, true)
    requires !it.report && it.closing && it.finished == 0 && it.name.None?
    ensures Fits(fs + [Frame(true, Fresh)], items + [it], false)
  {
    assert (items + [it])[..|items|] == items;
    assert (fs + [Frame(true, Fresh)])[..|fs|] == fs;
  }

  /** A pushed array, or an object pushed into an array, opens the next element. */
  lemma ItemPushedInv(g: Group, name: Option<string>)
    requires Inv(g) && Free(g.items)
    requires name.None? && Nearest(g.items) >= 0 && g.items[Nearest(g.items)].parent >= 0 ==>
               InArray(g.items, Nearest(g.items))
    ensures Inv(ItemPushed(g, name).0)
  {
    hide Inv, At, Fits, ReadAll, Shaped, ArrayStarted, Separated, ObjectOpened, Nearest, Marked, NewFrames;
    var parent := Nearest(g.items);
    var it := Item(false, name, parent, 0, true, true, []);
    StartedInv(g);
    var h := Started(g);
    InvAt(h);
    var fs := Frames(h);
    ParentFrame(h, fs);
    AtNotEmpty(h, fs);
    MarkedFits(fs, h.items);
    if name.Some? {
      ArrayStartedAt(h, parent, name.value, fs);
      NewArrayFits(Marked(fs), h.items, it);
      PushedShaped(h.items, it);
      AtSame(ArrayStarted(h, parent, name.value), Stacked(ArrayStarted(h, parent, name.value), it),
             Marked(fs) + NewFrames(InArray(h.items, parent)));
      AtInv(Stacked(ArrayStarted(h, parent, name.value), it), Marked(fs) + NewFrames(InArray(h.items, parent)));
    } else if h.items[parent].parent >= 0 {
      SeparatedAt(h, parent, fs);
      ReadyMarked(fs);
      ObjectOpenedAt(Separated(h, parent), Ready(fs));
      NewObjectFits(Marked(fs), h.items, it);
      PushedShaped(h.items, it);
      var o := ObjectOpened(Separated(h, parent));
      OpenedItems(h, parent);
      AtSame(o, Stacked(o, it), Marked(fs) + [Frame(true, Fresh)]);
      AtInv(Stacked(o, it), Marked(fs) + [Frame(true, Fresh)]);
    }
  }

  lemma OpenedItems(g: Group, parent: int)
    ensures ObjectOpened(Separated(g, parent)).items == g.items
  {
  }

  lemma AtSame(g: Group, h: Group, fs: seq<Frame>)
    requires At(g, fs) && h.out == g.out && h.indent == g.indent
    ensures At(h, fs)
  {
  }

  /** What ArrayStartedAt asks of the parent of a new child. */
  lemma ParentFrame(g: Group, fs: seq<Frame>)
    requires Shaped(g.items) && Free(g.items) && Fits(fs, g.items, false)
    ensures var parent := Nearest(g.items);
            && parent >= 0 && fs != []
            && (HasSiblings(g.items, parent) <==> fs[|fs| - 1].progress == AfterElement)
            && fs[|fs| - 1].isObject == !InArray(g.items, parent)
            && Marked(fs) != []
  {
    InnermostFrame(fs, g.items);
    hide Fits, Nearest;
  }

  lemma PushedShaped(items: seq<Item>, it: Item)
    requires Shaped(items) && Free(items) && it.parent == Nearest(items) && !it.report && it.done && it.closing
    requires it.name.None? ==> InArray(items, it.parent)
    ensures Shaped(items + [it])
  {
    assert (items + [it])[..|items|] == items;
    hide Nearest, InArray;
    ShapedSnoc(items, it);
  }

  // ---- the output of a report ----

  function AfterRows(n: nat): Progress { if n == 0 then Fresh else AfterElement }

  lemma RowPrintedAt(g: Group, fs: seq<Frame>)
    requires At(g, fs) && !fs[|fs| - 1].isObject && fs[|fs| - 1].TakesElement()
    ensures At(Print(g, RowObject, g.indent), Marked(fs))
  {
    ReadOne(g.out, Piece(RowObject, g.indent));
    hide ReadAll;
  }

  lemma {:induction false} RowsPrintedAt(g: Group, fs: seq<Frame>, n: nat)
    requires At(g, fs + [Frame(false, Fresh)])
    ensures At(RowsPrinted(g, n), fs + [Frame(false, AfterRows(n))])
  {
    hide At;
    if n > 0 {
      RowsPrintedAt(g, fs, n - 1);
      var h, now := RowsPrinted(g, n - 1), fs + [Frame(false, AfterRows(n - 1))];
      if n > 1 {
        CommaPrintedAt(h, now);
        ReadyMarked(now);
        RowPrintedAt(Print(h, Comma, h.indent), Ready(now));
      } else {
        RowPrintedAt(h, now);
      }
    }
  }

  lemma OutputFits(fs: seq<Frame>, items: seq<Item>, it: Item, p: Progress)
    requires fs != [] && Fits(fs, items, true) && it.report && it.closing && it.name.Some? && p != AfterComma
    ensures var inArray := InArray(items, it.parent);
            Fits(fs + (if inArray then [Frame(true, AfterElement)] else []) + [Frame(false, p)], items + [it], false)
  {
    var inArray := InArray(items, it.parent);
    var all := fs + (if inArray then [Frame(true, AfterElement)] else []) + [Frame(false, p)];
    assert (items + [it])[..|items|] == items;
    assert all[..|all| - FramesOf(it, inArray)] == fs;
    hide InArray;
  }

  /** Below the top no report has been output. */
  lemma FreeBelow(items: seq<Item>)
    requires Shaped(items) && |items| > 1
    ensures Free(items[..|items| - 1])
  {
    var n := |items| - 1;
    if n > 1 {
      assert ItemOk(items, n - 1);
    }
  }

  lemma OutputShaped(items: seq<Item>, it: Item)
    requires Shaped(items + [it]) && items != [] && it.report
    ensures Shaped(items + [it.(rows := [], done := true, closing := true)])
  {
    var now := it.(rows := [], done := true, closing := true);
    var a, b := items + [it], items + [now];
    forall i | 0 < i < |b| ensures ItemOk(b, i) {
      assert a[..i] == b[..i] && ItemOk(a, i);
    }
  }

  /** The output of the topmost report that has not been output. */
  lemma TopOutputAt(g: Group, below: seq<Item>, it: Item, fs: seq<Frame>)
    requires g.items == below + [it] && below != [] && Shaped(g.items) && At(g, fs) && Fits(fs, g.items, false)
    requires it.report && !it.done
    ensures var h := RowsPrinted(ArrayStarted(g, it.parent, NameOf(it)), Displayed(it.rows));
            var now := it.(rows := [], done := true, closing := true);
            h.items == g.items && Inv(h.(items := below + [now]))
  {
    var now := it.(rows := [], done := true, closing := true);
    assert g.items[..|below|] == below;
    assert ItemOk(g.items, |below|);
    ShapedBelow(g.items);
    FreeBelow(g.items);
    assert Fits(fs, below, false);
    hide Inv, At, Fits, ReadAll, Shaped, ArrayStarted, Nearest, Marked, Displayed;
    ParentFrame(g.(items := below), fs);
    MarkedFits(fs, below);
    SameParent(below, it, it.parent);
    ArrayStartedAt(g, it.parent, NameOf(it), fs);
    var a := ArrayStarted(g, it.parent, NameOf(it));
    var inArray := InArray(below, it.parent);
    var base := Marked(fs) + (if inArray then [Frame(true, AfterElement)] else []);
    assert Marked(fs) + NewFrames(inArray) == base + [Frame(false, Fresh)];
    var n := Displayed(it.rows);
    RowsPrintedAt(a, base, n);
    OutputFits(Marked(fs), below, now, AfterRows(n));
    OutputShaped(below, it);
    var h := RowsPrinted(a, n).(items := below + [now]);
    AtSame(RowsPrinted(a, n), h, base + [Frame(false, AfterRows(n))]);
    AtInv(h, base + [Frame(false, AfterRows(n))]);
  }

  lemma SameParent(below: seq<Item>, it: Item, parent: int)
    requires parent < |below|
    ensures InArray(below + [it], parent) == InArray(below, parent)
    ensures HasSiblings(below + [it], parent) == HasSiblings(below, parent)
  {
  }

  lemma OutputInv(g: Group, k: nat)
    requires Inv(g) && k < |g.items| && g.items[k].report
    ensures Inv(Output(g, k).0)
    ensures k == |g.items| - 1 ==> Output(g, k).1 && Output(g, k).0.items[k].done && Output(g, k).0.items[k].closing
  {
    StartedInv(g);
    var h := Started(g);
    var it := h.items[k];
    InvAt(h);
    RootIsNoReport(h.items, k);
    if k == |h.items| - 1 && !it.done {
      var below := h.items[..k];
      assert h.items == below + [it];
      hide Inv, At, Fits, ReadAll, Shaped, ArrayStarted, Displayed, RowsPrinted;
      TopOutputAt(h, below, it, Frames(h));
      assert h.items[k := it.(rows := [], done := true, closing := true)] ==
             below + [it.(rows := [], done := true, closing := true)];
    }
  }

  lemma RootIsNoReport(items: seq<Item>, k: nat)
    requires Shaped(items) && k < |items| && items[k].report
    ensures k > 0 && items[k].done == items[k].closing && (items[k].done ==> items[k].rows == [])
  {
    if k > 0 {
      assert ItemOk(items, k);
    }
  }

  // ---- popping ----

  lemma ArrayClosedAt(g: Group, fs: seq<Frame>)
    requires At(g, fs) && |fs| > 1 && !fs[|fs| - 1].isObject && fs[|fs| - 1].Closes()
    ensures At(ArrayClosed(g), fs[..|fs| - 1])
  {
    ReadOne(g.out, Piece(CloseArray, g.indent - UNIT));
    hide ReadAll;
  }

  lemma ObjectClosedAt(g: Group, fs: seq<Frame>)
    requires At(g, fs) && |fs| > 1 && fs[|fs| - 1].isObject && fs[|fs| - 1].Closes()
    ensures At(ObjectClosed(g), fs[..|fs| - 1])
  {
    ReadOne(g.out, Piece(CloseObject, g.indent - UNIT));
    hide ReadAll;
  }

  /** The frames of an open item on top. */
  lemma TopFits(below: seq<Item>, it: Item, fs: seq<Frame>)
    requires below != [] && Shaped(below + [it]) && Fits(fs, below + [it], false) && it.done
    ensures var k, m := FramesOf(it, InArray(below, it.parent)), |fs|;
            && it.closing && it.parent < |below|
            && (it.name.None? ==> InArray(below, it.parent))
            && m > k && fs[..m - k] != [] && Fits(fs[..m - k], below, true)
            && fs[m - 1].isObject == it.name.None? && fs[m - 1].Closes()
            && (k == 2 ==> fs[m - 2] == Frame(true, AfterElement))
  {
    var items := below + [it];
    assert items[..|below|] == below;
    assert ItemOk(items, |below|);
    var k, m := FramesOf(it, InArray(below, it.parent)), |fs|;
    assert m > k && Fits(fs[..m - k], below, true);
    FitsNotEmpty(fs[..m - k], below);
  }

  /** The frames of an open item are closed one by one. */
  lemma ItemClosedAt(g: Group, below: seq<Item>, it: Item, fs: seq<Frame>)
    requires g.items == below + [it] && below != [] && Shaped(g.items) && At(g, fs) && Fits(fs, g.items, false)
    requires it.done
    ensures var k := FramesOf(it, InArray(below, it.parent));
            && |fs| > k && At(ItemClosed(g, it), fs[..|fs| - k]) && Fits(fs[..|fs| - k], below, true)
            && ItemClosed(g, it).items == g.items
  {
    hide At, ReadAll, Shaped, Fits, InArray;
    TopFits(below, it, fs);
    SameParent(below, it, it.parent);
    var m := |fs|;
    if it.name.Some? {
      ArrayClosedAt(g, fs);
      if InArray(below, it.parent) {
        ObjectClosedAt(ArrayClosed(g), fs[..m - 1]);
        assert fs[..m - 1][..m - 2] == fs[..m - 2];
      }
    } else {
      ObjectClosedAt(g, fs);
    }
  }

  lemma {:induction false} FitsNotEmpty(fs: seq<Frame>, items: seq<Item>)
    requires Fits(fs, items, true)
    ensures fs != []
  {
    if |items| > 1 && !items[|items| - 1].closing {
      FitsNotEmpty(fs, items[..|items| - 1]);
    }
  }

  /** A child that is done counts as an element of its parent. */
  lemma {:induction false} FinishedFits(fs: seq<Frame>, items: seq<Item>)
    requires Shaped(items) && Fits(fs, items, true)
    ensures Fits(fs, Finished(items, Nearest(items)), false)
  {
    var n, k := |items| - 1, Nearest(items);
    var now := Finished(items, k);
    if n == 0 {
      assert k == 0;
    } else {
      assert ItemOk(items, n);
      if items[n].report {
        ShapedBelow(items);
        FinishedFits(fs, items[..n]);
        NearestFound(items[..n]);
        assert now[..n] == Finished(items[..n], k) && now[n] == items[n];
      } else {
        assert now[..n] == items[..n];
      }
    }
  }

  lemma FinishedShaped(items: seq<Item>, k: int)
    requires Shaped(items)
    ensures Shaped(Finished(items, k))
  {
    var now := Finished(items, k);
    forall i | 0 < i < |now| ensures ItemOk(now, i) {
      assert ItemOk(items, i);
      SameNearest(items[..i], now[..i]);
    }
  }

  lemma {:induction false} SameNearest(a: seq<Item>, b: seq<Item>)
    requires |a| == |b|
    requires forall i :: 0 <= i < |a| ==>
               a[i].report == b[i].report && a[i].name == b[i].name && a[i].parent == b[i].parent
    ensures Nearest(a) == Nearest(b)
    ensures forall k :: InArray(a, k) == InArray(b, k)
  {
    if a != [] {
      SameNearest(a[..|a| - 1], b[..|b| - 1]);
    }
  }

  lemma PoppedInv(g: Group)
    requires Inv(g) && |g.items| > 1 && g.items[|g.items| - 1].done
    ensures Inv(Popped(g)) && Popped(g).indent != 0
  {
    var n := |g.items| - 1;
    var below, it := g.items[..n], g.items[n];
    assert g.items == below + [it];
    assert ItemOk(g.items, n);
    assert g.indent != 0;
    InvAt(g);
    var fs := Frames(g);
    hide Inv, At, ReadAll, Fits;
    ItemClosedAt(g, below, it, fs);
    var h, base := ItemClosed(g, it), fs[..|fs| - FramesOf(it, InArray(below, it.parent))];
    ShapedBelow(g.items);
    FinishedFits(base, below);
    FinishedShaped(below, it.parent);
    AtSame(h, Popped(g), base);
    AtInv(Popped(g), base);
  }

  // ---- runs ----

  datatype Step =
    | PushReport(report: string, rows: seq<bool>)
    | PushItem(name: Option<string>)
    | OutputReport(at: nat)
    | Pop

  /** Nothing is pushed onto a report that has been output, an object without a name
      only into an array, and a report that has not been output is popped only if its
      parent has a finished child already. */
  predicate Legal(g: Group, step: Step) {
    match step
    case PushReport(_, _) => Free(g.items)
    case PushItem(name) =>
      && Free(g.items)
      && (name.None? ==>
            var k := Nearest(g.items);
            k >= 0 && g.items[k].parent >= 0 ==> InArray(g.items, k))
    case OutputReport(k) => k < |g.items| && g.items[k].report
    case Pop =>
      && |g.items| > 1
      && (g.items[|g.items| - 1].done || HasSiblings(g.items, g.items[|g.items| - 1].parent))
  }

  function Next(g: Group, step: Step): Group
    requires Legal(g, step)
  {
    match step
    case PushReport(name, rows) => ReportPushed(g, name, rows)
    case PushItem(name) => ItemPushed(g, name).0
    case OutputReport(k) => Output(g, k).0
    case Pop => Popped(g)
  }

  /** A group that legal steps build. */
  ghost predicate Reaches(g: Group, steps: seq<Step>)
    decreases |steps|
  {
    if steps == [] then g == EMPTY
    else
      var n := |steps| - 1;
      exists h: Group :: Reaches(h, steps[..n]) && Legal(h, steps[n]) && g == Next(h, steps[n])
  }

  lemma StepInv(g: Group, step: Step)
    requires Inv(g) && Legal(g, step)
    ensures Inv(Next(g, step))
  {
    hide Inv;
    match step {
      case PushReport(name, rows) => ReportPushedInv(g, name, rows);
      case PushItem(name) => ItemPushedInv(g, name);
      case OutputReport(k) => OutputInv(g, k);
      case Pop =>
        if g.items[|g.items| - 1].done {
          PoppedInv(g);
        } else {
          UndoneIsReport(g);
          PoppedWithoutOutput(g);
        }
    }
  }

  /** At every moment of a legal run what has been printed is the beginning of a JSON
      text, with brackets well nested, commas exactly between elements and each piece
      indented by four for every bracket that is open around it. */
  lemma {:induction false} RunInv(g: Group, steps: seq<Step>)
    requires Reaches(g, steps)
    ensures Inv(g)
    decreases |steps|
  {
    if steps == [] {
      assert ReadAll([]) == Unstarted;
    } else {
      var n := |steps| - 1;
      var h: Group :| Reaches(h, steps[..n]) && Legal(h, steps[n]) && g == Next(h, steps[n]);
      RunInv(h, steps[..n]);
      hide Inv, Next, Legal;
      StepInv(h, steps[n]);
    }
  }

  // ---- what is shown ----

  /** The names of the arrays and the row objects of a text, in order. */
  function Shown(out: seq<Piece>): seq<Text> {
    if out == [] then []
    else
      var t := out[|out| - 1].text;
      Shown(out[..|out| - 1]) + if t.OpenArray? || t.RowObject? then [t] else []
  }

  lemma PrintShown(g: Group, t: Text, at: int)
    ensures Shown(Print(g, t, at).out) == Shown(g.out) + if t.OpenArray? || t.RowObject? then [t] else []
  {
    assert (g.out + [Piece(t, at)])[..|g.out|] == g.out;
  }

  lemma NothingShown(g: Group, t: Text, at: int)
    requires !t.OpenArray? && !t.RowObject?
    ensures Shown(Print(g, t, at).out) == Shown(g.out)
  {
    PrintShown(g, t, at);
    hide Shown;
    assert Shown(g.out) + [] == Shown(g.out);
  }

  lemma StartedShown(g: Group, parent: int)
    ensures Shown(Started(g).out) == Shown(g.out)
    ensures Shown(Separated(g, parent).out) == Shown(g.out)
    ensures Shown(ObjectOpened(g).out) == Shown(g.out)
  {
    NothingShown(g, OpenObject, 0);
    NothingShown(g, OpenObject, g.indent);
    NothingShown(g, Comma, g.indent);
    hide Shown;
  }

  lemma ArrayStartedShown(g: Group, parent: int, name: string)
    ensures Shown(ArrayStarted(g, parent, name).out) == Shown(g.out) + [OpenArray(name)]
  {
    hide Shown;
    StartedShown(g, parent);
    var h := Separated(g, parent);
    StartedShown(h, parent);
    var o := if InArray(h.items, parent) then ObjectOpened(h) else h;
    PrintShown(o, OpenArray(name), o.indent);
  }

  lemma {:induction false} RowsShown(g: Group, n: nat)
    ensures Shown(RowsPrinted(g, n).out) == Shown(g.out) + seq(n, _ => RowObject)
  {
    hide Shown;
    if n == 0 {
      assert Shown(g.out) + [] == Shown(g.out);
    } else {
      RowsShown(g, n - 1);
      var h := RowsPrinted(g, n - 1);
      NothingShown(h, Comma, h.indent);
      PrintShown(h, RowObject, h.indent);
      PrintShown(Print(h, Comma, h.indent), RowObject, h.indent);
      assert seq(n, _ => RowObject) == seq(n - 1, _ => RowObject) + [RowObject];
    }
  }

  lemma ClosedShown(g: Group, it: Item)
    ensures Shown(ItemClosed(g, it).out) == Shown(g.out)
  {
    hide Shown;
    NothingShown(g.(indent := g.indent - UNIT), CloseArray, g.indent - UNIT);
    var h := if it.name.Some? then ArrayClosed(g) else g;
    NothingShown(h.(indent := h.indent - UNIT), CloseObject, h.indent - UNIT);
  }

  /** What a step shows: a pushed array its name, and the output of a report, if it is the
      topmost and not output yet, its name and as many rows as are displayed. */
  function ShownBy(g: Group, step: Step): seq<Text> {
    match step
    case PushReport(_, _) => []
    case PushItem(name) => if name.Some? then [OpenArray(name.value)] else []
    case OutputReport(k) =>
      if k == |g.items| - 1 && !g.items[k].done && !g.items[k].closing && g.items[k].name.Some? then
        [OpenArray(g.items[k].name.value)] + seq(Displayed(g.items[k].rows), _ => RowObject)
      else []
    case Pop => []
  }

  lemma OutputText(g: Group, k: nat)
    requires k < |g.items|
    ensures var s, it := Started(g), g.items[k];
            Output(g, k).0.out ==
            if (it.done && it.rows == []) || k != |g.items| - 1 || it.closing then s.out
            else RowsPrinted(ArrayStarted(s, it.parent, NameOf(it)), Displayed(it.rows)).out
  {
    hide ArrayStarted, RowsPrinted, Displayed;
  }

  lemma NamedRows(g: Group, parent: int, name: string, n: nat)
    ensures Shown(RowsPrinted(ArrayStarted(g, parent, name), n).out) ==
            Shown(g.out) + ([OpenArray(name)] + seq(n, _ => RowObject))
  {
    hide Shown, ArrayStarted, RowsPrinted;
    ArrayStartedShown(g, parent, name);
    RowsShown(ArrayStarted(g, parent, name), n);
  }

  lemma OutputShown(g: Group, k: nat)
    requires Inv(g) && k < |g.items| && g.items[k].report
    ensures Shown(Output(g, k).0.out) == Shown(g.out) + ShownBy(g, OutputReport(k))
  {
    RootIsNoReport(g.items, k);
    assert ItemOk(g.items, k);
    assert g.items[k].name.Some?;
    hide Shown, Inv, ArrayStarted, RowsPrinted, Displayed, Shaped, ItemOk, Output, Started;
    StartedShown(g, 0);
    OutputText(g, k);
    var h, it := Started(g), g.items[k];
    if k == |g.items| - 1 && !it.done {
      NamedRows(h, it.parent, NameOf(it), Displayed(it.rows));
    } else {
      assert Shown(g.out) + [] == Shown(g.out);
    }
  }

  /** Every legal step adds exactly the names and rows it is to show. */
  lemma StepShown(g: Group, step: Step)
    requires Inv(g) && Legal(g, step)
    ensures Shown(Next(g, step).out) == Shown(g.out) + ShownBy(g, step)
  {
    hide Shown, Inv, ArrayStarted, Output;
    assert Shown(g.out) + [] == Shown(g.out);
    match step {
      case PushReport(name, rows) =>
      case PushItem(name) =>
        var parent, h := Nearest(g.items), Started(g);
        StartedShown(g, parent);
        StartedShown(h, parent);
        StartedShown(Separated(h, parent), parent);
        if name.Some? {
          ArrayStartedShown(h, parent, name.value);
        }
      case OutputReport(k) => OutputShown(g, k);
      case Pop => ClosedShown(g, g.items[|g.items| - 1]);
    }
  }

  // ---- why the conditions are needed ----

  lemma ReadObjectInObject(fs: seq<Frame>, at: int)
    requires fs != [] && fs[|fs| - 1].isObject
    ensures Read(Reading(fs), Piece(OpenObject, at)) == Wrong
  {
  }

  /** An object without a name can be pushed exactly where an array is open. */
  lemma UnnamedOnlyInArray(g: Group)
    requires Inv(g) && Free(g.items) && Nearest(g.items) >= 0 && g.items[Nearest(g.items)].parent >= 0
    ensures ReadAll(ItemPushed(g, None).0.out) != Wrong <==> InArray(g.items, Nearest(g.items))
  {
    var parent := Nearest(g.items);
    if InArray(g.items, parent) {
      ItemPushedInv(g, None);
    } else {
      hide Inv, At, Fits, ReadAll, Shaped, Nearest, Separated, Ready, Marked, Read;
      StartedInv(g);
      var h := Started(g);
      InvAt(h);
      var fs := Frames(h);
      ParentFrame(h, fs);
      SeparatedAt(h, parent, fs);
      ReadyMarked(fs);
      var o := Separated(h, parent);
      AtReads(o, Ready(fs));
      ReadObjectInObject(Ready(fs), o.indent);
      ReadOne(o.out, Piece(OpenObject, o.indent));
    }
  }

  lemma AtReads(g: Group, fs: seq<Frame>)
    requires At(g, fs)
    ensures ReadAll(g.out) == Reading(fs)
  {
  }

  // ---- where the text breaks ----

  lemma {:induction false} WrongStays(out: seq<Piece>, more: seq<Piece>)
    requires ReadAll(out) == Wrong
    ensures ReadAll(out + more) == Wrong
    decreases |more|
  {
    if more == [] {
      assert out + more == out;
    } else {
      var n := |more| - 1;
      WrongStays(out, more[..n]);
      assert out + more == (out + more[..n]) + [more[n]];
      ReadOne(out + more[..n], more[n]);
    }
  }

  /** h prints on from g. */
  ghost predicate Extends(h: Group, g: Group) { exists more :: h.out == g.out + more }

  lemma WrongExtends(h: Group, g: Group)
    requires Extends(h, g) && ReadAll(g.out) == Wrong
    ensures ReadAll(h.out) == Wrong
  {
    var more :| h.out == g.out + more;
    WrongStays(g.out, more);
  }

  lemma PrintExtends(h: Group, g: Group, t: Text, at: int)
    requires Extends(h, g)
    ensures Extends(Print(h, t, at), g)
  {
    var more :| h.out == g.out + more;
    assert Print(h, t, at).out == g.out + (more + [Piece(t, at)]);
  }

  lemma SelfExtends(g: Group)
    ensures Extends(g, g)
  {
    assert g.out == g.out + [];
  }

  /** A first piece that cannot be read. */
  lemma WrongPrinted(g: Group, fs: seq<Frame>, t: Text)
    requires At(g, fs)
    requires var top := fs[|fs| - 1];
             || (t.Comma? && top.progress != AfterElement)
             || (t.OpenObject? && (top.isObject || !top.TakesElement()))
             || (t.OpenArray? && (!top.isObject || !top.TakesElement()))
    ensures ReadAll(Print(g, t, g.indent).out) == Wrong
  {
    ReadOne(g.out, Piece(t, g.indent));
    hide ReadAll;
  }

  /** What is printed behind the comma. */
  function OpenedIn(g: Group, parent: int, name: string): Group {
    if InArray(g.items, parent) then ArrayOpened(ObjectOpened(g), name) else ArrayOpened(g, name)
  }

  lemma ArrayStartedIs(g: Group, parent: int, name: string)
    ensures ArrayStarted(g, parent, name) == OpenedIn(Separated(g, parent), parent, name)
    ensures HasSiblings(g.items, parent) ==> Extends(ArrayStarted(g, parent, name), Print(g, Comma, g.indent))
  {
    var h := Separated(g, parent);
    SelfExtends(h);
    var o := if InArray(h.items, parent) then ObjectOpened(h) else h;
    PrintExtends(h, h, OpenObject, h.indent);
    PrintExtends(o, h, OpenArray(name), o.indent);
  }

  lemma OpenedWrong(g: Group, parent: int, name: string, fs: seq<Frame>)
    requires At(g, fs)
    requires fs[|fs| - 1].isObject == InArray(g.items, parent) || !fs[|fs| - 1].TakesElement()
    ensures ReadAll(OpenedIn(g, parent, name).out) == Wrong
  {
    hide Read, ReadAll, At;
    AtNotEmpty(g, fs);
    if InArray(g.items, parent) {
      WrongPrinted(g, fs, OpenObject);
      var o := ObjectOpened(g);
      SelfExtends(o);
      PrintExtends(o, o, OpenArray(name), o.indent);
      WrongExtends(ArrayOpened(o, name), o);
    } else {
      WrongPrinted(g, fs, OpenArray(name));
    }
  }

  /** A new array can be read exactly if the comma is there when one is due, and the
      array has an object of its own just where the innermost bracket is an array. */
  lemma ArrayStartedReads(g: Group, parent: int, name: string, fs: seq<Frame>)
    requires At(g, fs) && fs[|fs| - 1].progress != AfterComma
    ensures ReadAll(ArrayStarted(g, parent, name).out) != Wrong <==>
            && (HasSiblings(g.items, parent) <==> fs[|fs| - 1].progress == AfterElement)
            && fs[|fs| - 1].isObject == !InArray(g.items, parent)
  {
    hide At, Read, ReadAll, ArrayStarted, OpenedIn, Extends, InArray, HasSiblings;
    AtNotEmpty(g, fs);
    ArrayStartedIs(g, parent, name);
    var top := fs[|fs| - 1];
    if HasSiblings(g.items, parent) && top.progress != AfterElement {
      WrongPrinted(g, fs, Comma);
      WrongExtends(ArrayStarted(g, parent, name), Print(g, Comma, g.indent));
    } else if !HasSiblings(g.items, parent) && top.progress == AfterElement {
      OpenedWrong(g, parent, name, fs);
    } else if top.isObject == InArray(g.items, parent) {
      SeparatedAt(g, parent, fs);
      ReadyMarked(fs);
      OpenedWrong(Separated(g, parent), parent, name, Ready(fs));
    } else {
      ArrayStartedAt(g, parent, name, fs);
      AtReads(ArrayStarted(g, parent, name), Marked(fs) + NewFrames(InArray(g.items, parent)));
    }
  }

  /** The brackets around the array of a report that has been output, and the array. */
  lemma OutputFrame(g: Group)
    requires Inv(g) && !Free(g.items)
    ensures g.indent != 0 && At(g, Frames(g))
    ensures var top := Frames(g)[|Frames(g)| - 1]; !top.isObject && top.progress != AfterComma
    ensures Nearest(g.items) >= 0
  {
    var n := |g.items| - 1;
    assert n > 0 && ItemOk(g.items, n);
    assert !Untouched(g.items[n]);
    NearestFound(g.items);
  }

  /** An array that is pushed onto a report that has been output lands in the array of
      that report. It can be read exactly if it comes with an object of its own, which
      the nearest item that is no report decides, and with a comma just if a row has been
      displayed, although that item's finished children decide about the comma. */
  lemma PushedOntoOutput(g: Group, name: string)
    requires Inv(g) && !Free(g.items)
    ensures var k := Nearest(g.items);
            ReadAll(ItemPushed(g, Some(name)).0.out) != Wrong <==>
            && Frames(g) != [] && InArray(g.items, k)
            && (HasSiblings(g.items, k) <==> Frames(g)[|Frames(g)| - 1].progress == AfterElement)
  {
    hide Inv, At, ReadAll, ArrayStarted, Frames, InArray, HasSiblings, Nearest;
    OutputFrame(g);
    AtNotEmpty(g, Frames(g));
    ArrayStartedReads(g, Nearest(g.items), name, Frames(g));
  }

  /** An object without a name that is pushed there needs no parent that is an array. */
  lemma UnnamedOntoOutput(g: Group)
    requires Inv(g) && !Free(g.items) && Nearest(g.items) >= 0 && g.items[Nearest(g.items)].parent >= 0
    ensures ReadAll(ItemPushed(g, None).0.out) != Wrong <==>
            && Frames(g) != []
            && (HasSiblings(g.items, Nearest(g.items)) <==> Frames(g)[|Frames(g)| - 1].progress == AfterElement)
  {
    hide Inv, At, ReadAll, Read, Frames, HasSiblings, Nearest;
    OutputFrame(g);
    var fs, k := Frames(g), Nearest(g.items);
    AtNotEmpty(g, fs);
    ReadyMarked(fs);
    var comma := Print(g, Comma, g.indent);
    SelfExtends(comma);
    PrintExtends(comma, comma, OpenObject, comma.indent);
    if HasSiblings(g.items, k) && fs[|fs| - 1].progress != AfterElement {
      WrongPrinted(g, fs, Comma);
      WrongExtends(ObjectOpened(comma), comma);
    } else if !HasSiblings(g.items, k) && fs[|fs| - 1].progress == AfterElement {
      WrongPrinted(g, fs, OpenObject);
    } else {
      SeparatedAt(g, k, fs);
      ObjectOpenedAt(Separated(g, k), Ready(fs));
      AtReads(ObjectOpened(Separated(g, k)), Marked(fs) + [Frame(true, Fresh)]);
    }
  }

  lemma {:induction false} RowsExtend(g: Group, n: nat)
    ensures Extends(RowsPrinted(g, n), g)
  {
    hide Extends;
    SelfExtends(g);
    if n > 0 {
      RowsExtend(g, n - 1);
      var h := RowsPrinted(g, n - 1);
      PrintExtends(h, g, Comma, g.indent);
      PrintExtends(h, g, RowObject, g.indent);
      PrintExtends(Print(h, Comma, g.indent), g, RowObject, g.indent);
    }
  }

  /** The rows of a report never break a text. */
  lemma RowsReads(g: Group, parent: int, name: string, fs: seq<Frame>, n: nat)
    requires At(g, fs) && fs[|fs| - 1].progress != AfterComma
    ensures ReadAll(RowsPrinted(ArrayStarted(g, parent, name), n).out) != Wrong <==>
            ReadAll(ArrayStarted(g, parent, name).out) != Wrong
  {
    hide At, ReadAll, ArrayStarted, RowsPrinted, Extends, InArray, HasSiblings, Marked;
    AtNotEmpty(g, fs);
    var a := ArrayStarted(g, parent, name);
    ArrayStartedReads(g, parent, name, fs);
    if ReadAll(a.out) != Wrong {
      var inArray := InArray(g.items, parent);
      ArrayStartedAt(g, parent, name, fs);
      var base := Marked(fs) + if inArray then [Frame(true, AfterElement)] else [];
      assert Marked(fs) + NewFrames(inArray) == base + [Frame(false, Fresh)];
      RowsPrintedAt(a, base, n);
      AtReads(RowsPrinted(a, n), base + [Frame(false, AfterRows(n))]);
    } else {
      RowsExtend(a, n);
      WrongExtends(RowsPrinted(a, n), a);
    }
  }

  lemma PushedOutputIs(g: Group, name: string, rows: seq<bool>)
    requires g.indent != 0
    ensures Output(ReportPushed(g, name, rows), |g.items|).0.out ==
            RowsPrinted(ArrayStarted(ReportPushed(g, name, rows), Nearest(g.items), name), Displayed(rows)).out
  {
    hide ArrayStarted, RowsPrinted, Displayed, Nearest;
  }

  /** The same holds of the output of a report that is pushed there. */
  lemma OutputOntoOutput(g: Group, name: string, rows: seq<bool>)
    requires Inv(g) && !Free(g.items)
    ensures var k := Nearest(g.items);
            ReadAll(Output(ReportPushed(g, name, rows), |g.items|).0.out) != Wrong <==>
            && Frames(g) != [] && InArray(g.items, k)
            && (HasSiblings(g.items, k) <==> Frames(g)[|Frames(g)| - 1].progress == AfterElement)
  {
    hide Inv, At, ReadAll, ArrayStarted, Frames, InArray, HasSiblings, Nearest, Output, RowsPrinted;
    OutputFrame(g);
    var h, k, fs := ReportPushed(g, name, rows), Nearest(g.items), Frames(g);
    AtSame(g, h, fs);
    AtNotEmpty(g, fs);
    SameParent(g.items, h.items[|g.items|], k);
    PushedOutputIs(g, name, rows);
    ArrayStartedReads(h, k, name, fs);
    RowsReads(h, k, name, fs, Displayed(rows));
  }

  // ---- popping a report that has not been output ----

  /** One more finished child makes no difference where there is one already. */
  lemma {:induction false} FinishedAgain(fs: seq<Frame>, items: seq<Item>)
    requires Shaped(items) && Free(items) && Fits(fs, items, false) && HasSiblings(items, Nearest(items))
    ensures Fits(fs, Finished(items, Nearest(items)), false)
  {
    var n, k := |items| - 1, Nearest(items);
    var now := Finished(items, k);
    if n > 0 {
      assert ItemOk(items, n);
      if items[n].report {
        ShapedBelow(items);
        FreeBelow(items);
        NearestFound(items[..n]);
        FinishedAgain(fs, items[..n]);
        assert now[..n] == Finished(items[..n], k) && now[n] == items[n];
      } else {
        assert now[..n] == items[..n];
      }
    }
  }

  lemma UndoneIsReport(g: Group)
    requires Inv(g) && |g.items| > 1 && !g.items[|g.items| - 1].done
    ensures g.items[|g.items| - 1].report
  {
    assert ItemOk(g.items, |g.items| - 1);
  }

  /** A report on top that has not been output has no bracket of its own. */
  lemma UndoneTop(g: Group)
    requires Inv(g) && |g.items| > 1 && g.items[|g.items| - 1].report && !g.items[|g.items| - 1].done
    ensures var n := |g.items| - 1;
            var below, k := g.items[..n], g.items[n].parent;
            && Shaped(below) && Free(below) && k == Nearest(below) && k >= 0
            && Popped(g) == g.(items := Finished(below, k))
            && HasSiblings(below, k) == HasSiblings(g.items, k)
            && (g.indent != 0 ==> Fits(Frames(g), below, false) && At(g, Frames(g)))
  {
    var n := |g.items| - 1;
    assert ItemOk(g.items, n);
    ShapedBelow(g.items);
    FreeBelow(g.items);
    NearestFound(g.items[..n]);
  }

  /** A report that is popped without output still counts as a finished child. What has
      been printed stays in step with the stack exactly if its parent had one before. */
  lemma PoppedWithoutOutput(g: Group)
    requires Inv(g) && |g.items| > 1 && g.items[|g.items| - 1].report && !g.items[|g.items| - 1].done
    ensures Inv(Popped(g)) <==> HasSiblings(g.items, g.items[|g.items| - 1].parent)
  {
    UndoneTop(g);
    var n := |g.items| - 1;
    var below, k, fs := g.items[..n], g.items[n].parent, Frames(g);
    var p := Popped(g);
    if g.indent == 0 {
      assert Untouched(g.items[k]);
      assert !Untouched(p.items[k]);
    } else if HasSiblings(below, k) {
      hide Inv, At, ReadAll, Fits, Shaped, Popped;
      FinishedAgain(fs, below);
      FinishedShaped(below, k);
      AtSame(g, p, fs);
      AtInv(p, fs);
    } else {
      InnermostFrame(fs, below);
      FinishedFree(below, k);
      if Inv(p) {
        assert Frames(p) == fs;
        hide ReadAll, Fits, Shaped;
        InnermostFrame(fs, p.items);
        assert false;
      }
    }
  }

  lemma FinishedFree(items: seq<Item>, k: int)
    requires Shaped(items) && Free(items)
    ensures Free(Finished(items, k)) && Nearest(Finished(items, k)) == Nearest(items)
    ensures forall j :: InArray(Finished(items, k), j) == InArray(items, j)
  {
    SameNearest(items, Finished(items, k));
  }

  lemma StartedPopped(g: Group)
    requires Inv(g) && |g.items| > 1 && g.items[|g.items| - 1].report && !g.items[|g.items| - 1].done
    ensures Started(Popped(g)) == Popped(Started(g))
  {
    UndoneTop(g);
    StartedInv(g);
    UndoneTop(Started(g));
  }

  /** And exactly then the next array that is pushed can be read. */
  lemma NextArray(g: Group, name: string)
    requires Inv(g) && |g.items| > 1 && g.items[|g.items| - 1].report && !g.items[|g.items| - 1].done
    ensures ReadAll(ItemPushed(Popped(g), Some(name)).0.out) != Wrong <==>
            HasSiblings(g.items, g.items[|g.items| - 1].parent)
  {
    StartedInv(g);
    StartedPopped(g);
    UndoneTop(Started(g));
    var s, n := Started(g), |g.items| - 1;
    var below, k, fs, p := s.items[..n], s.items[n].parent, Frames(s), Popped(s);
    hide Inv, At, ReadAll, Shaped, Fits, Popped, ArrayStarted, Nearest, InArray, Frames;
    InnermostFrame(fs, below);
    FinishedFree(below, k);
    AtSame(s, p, fs);
    ArrayStartedReads(p, k, name, fs);
    PushedIs(Popped(g), name);
    UndoneTop(g);
    FinishedFree(g.items[..n], k);
  }

  lemma PushedIs(g: Group, name: string)
    ensures ItemPushed(g, Some(name)).0.out == ArrayStarted(Started(g), Nearest(g.items), name).out
  {
    hide ArrayStarted, Nearest;
  }

  lemma ReadLast(p: Progress)
    requires p != AfterComma
    ensures Read(Reading([Frame(true, p)]), Piece(CloseObject, 0)) == Complete
  {
  }

  lemma RootFits(fs: seq<Frame>, root: Item)
    requires Fits(fs, [root], false)
    ensures fs == [Frame(true, ProgressOf(root, false))]
  {
  }

  lemma AllPoppedRoot(g: Group)
    requires |g.items| == 1
    ensures AllPopped(g) == (Completed(g), true)
  {
    hide Output, Popped, Completed;
  }

  lemma CompletedText(g: Group)
    requires g.items != []
    ensures Completed(g).out == Started(g).out + [Piece(CloseObject, 0)] && Completed(g).indent == Started(g).indent - UNIT
  {
  }

  lemma OnlyRoot(g: Group)
    requires Inv(g) && |g.items| == 1
    ensures var (h, ok) := AllPopped(g); ok && ReadAll(h.out) == Complete && h.indent == 0
  {
    hide Inv, ReadAll, Read, Fits, AllPopped, Shaped, Started, Completed;
    StartedInv(g);
    var s := Started(g);
    InvAt(s);
    AllPoppedRoot(g);
    CompletedText(g);
    assert s.items == [s.items[0]];
    RootFits(Frames(s), s.items[0]);
    ReadLast(ProgressOf(s.items[0], false));
    ReadOne(s.out, Piece(CloseObject, 0));
  }

  lemma AllPoppedStep(g: Group)
    requires |g.items| > 1
    ensures var n := |g.items| - 1;
            var (h, ok) := if g.items[n].report then Output(g, n) else (g, true);
            ok ==> AllPopped(g) == AllPopped(Popped(h))
  {
    hide Output, Popped;
  }

  /** Finishing outputs and pops whatever is left: the text is complete and the
      indentation back at zero. */
  lemma {:induction false} AllPoppedIsComplete(g: Group)
    requires g.items != [] && Inv(g)
    ensures var (h, ok) := AllPopped(g); ok && ReadAll(h.out) == Complete && h.indent == 0
    decreases |g.items|
  {
    hide Inv, Output, Popped, ReadAll, AllPopped;
    var n := |g.items| - 1;
    if n == 0 {
      OnlyRoot(g);
    } else {
      TopIsDone(g);
      AllPoppedStep(g);
      var h := if g.items[n].report then Output(g, n).0 else g;
      PoppedInv(h);
      assert |Popped(h).items| == n;
      AllPoppedIsComplete(Popped(h));
    }
  }

  /** After its output, or as it is, the item on top can be popped. */
  lemma TopIsDone(g: Group)
    requires Inv(g) && |g.items| > 1
    ensures var n := |g.items| - 1;
            var (h, ok) := if g.items[n].report then Output(g, n) else (g, true);
            ok && Inv(h) && h.items[n].done
  {
    var n := |g.items| - 1;
    assert ItemOk(g.items, n);
    if g.items[n].report {
      OutputInv(g, n);
    }
    hide Inv, Output;
  }

  // ---- the operations of a group ----

  /** The last displayed row, or -1. */
  function LastDisplayed(rows: seq<bool>): (k: int)
    ensures -1 <= k < |rows|
    ensures k >= 0 ==> rows[k]
    ensures forall i :: k < i < |rows| ==> !rows[i]
  {
    if rows == [] then -1
    else if rows[|rows| - 1] then |rows| - 1
    else LastDisplayed(rows[..|rows| - 1])
  }

  lemma {:induction false} DisplayedMore(rows: seq<bool>, i: nat, j: nat)
    requires i <= j <= |rows|
    ensures Displayed(rows[..i]) <= Displayed(rows[..j])
    ensures Displayed(rows[..i]) == Displayed(rows[..j]) <==> forall k :: i <= k < j ==> !rows[k]
    decreases j
  {
    if i < j {
      DisplayedMore(rows, i, j - 1);
      assert rows[..j][..j - 1] == rows[..j - 1];
    }
  }

  /** After i rows: the objects of those displayed, and the comma behind the last of
      them if another one is to come. */
  function SomeRows(g: Group, shown: nat, more: bool): Group {
    if shown > 0 && more then Print(RowsPrinted(g, shown), Comma, g.indent) else RowsPrinted(g, shown)
  }

  lemma OneMoreRow(g: Group, shown: nat, more: bool)
    ensures SomeRows(g, shown + 1, more) ==
            var h := Print(SomeRows(g, shown, true), RowObject, g.indent);
            if more then Print(h, Comma, g.indent) else h
  {
  }

  class ReportGroup {
    var items: seq<Item>
    var indent: int
    var out: seq<Piece>

    constructor ()
      ensures Value() == EMPTY
    {
      items, indent, out := [ROOT], 0, [];
    }

    function Value(): Group
      reads this
    {
      Group(items, indent, out)
    }

    method JsonOutputStart()
      modifies this
      ensures Value() == Started(old(Value()))
    {
      if indent == 0 {
        out := out + [Piece(OpenObject, 0)];
        indent := indent + UNIT;
      }
    }

    method JsonOutputArrayStart(parent: nat, name: string)
      requires parent < |items|
      modifies this
      ensures Value() == ArrayStarted(old(Value()), parent, name)
    {
      if items[parent].finished > 0 {
        out := out + [Piece(Comma, indent)];
      }
      if items[parent].parent >= 0 && items[parent].name.Some? {
        out := out + [Piece(OpenObject, indent)];
        indent := indent + UNIT;
      }
      out := out + [Piece(OpenArray(name), indent)];
      indent := indent + UNIT;
    }

    /** The nearest item that is no report. */
    method FindParent() returns (k: int)
      ensures k == Nearest(items)
    {
      k := |items| - 1;
      assert items[..|items|] == items;
      while k >= 0 && items[k].report
        invariant -1 <= k < |items|
        invariant Nearest(items[..k + 1]) == Nearest(items)
      {
        assert items[..k + 1][..k] == items[..k];
        k := k - 1;
      }
    }

    /** dm_report_group_push with a report. */
    method PushReport(name: string, rows: seq<bool>)
      modifies this
      ensures Value() == ReportPushed(old(Value()), name, rows)
    {
      var parent := FindParent();
      items := items + [Item(true, Some(name), parent, 0, false, false, rows)];
    }

    /** dm_report_group_push without a report. */
    method PushItem(name: Option<string>) returns (ok: bool)
      requires items != [] && !items[0].report
      modifies this
      ensures (Value(), ok) == ItemPushed(old(Value()), name)
    {
      NearestFound(items);
      var parent := FindParent();
      JsonOutputStart();
      if name.Some? {
        JsonOutputArrayStart(parent, name.value);
      } else {
        if items[parent].parent < 0 {
          return false;
        }
        if items[parent].finished > 0 {
          out := out + [Piece(Comma, indent)];
        }
        out := out + [Piece(OpenObject, indent)];
        indent := indent + UNIT;
      }
      items := items + [Item(false, name, parent, 0, true, true, [])];
      ok := true;
    }

    /** The rows of a report: a comma follows every displayed row but the last one. */
    method OutputRows(rows: seq<bool>)
      modifies this`out
      ensures Value() == RowsPrinted(old(Value()), Displayed(rows))
    {
      var last := LastDisplayed(rows);
      ghost var g := Value();
      ghost var total := Displayed(rows);
      assert rows[..|rows|] == rows && rows[..0] == [];
      DisplayedMore(rows, 0, |rows|);
      for i := 0 to |rows|
        invariant Value() == SomeRows(g, Displayed(rows[..i]), Displayed(rows[..i]) < total)
      {
        assert rows[..i + 1][..i] == rows[..i];
        if !rows[i] {
          continue;
        }
        DisplayedMore(rows, i, |rows|);
        DisplayedMore(rows, i + 1, |rows|);
        OneMoreRow(g, Displayed(rows[..i]), Displayed(rows[..i + 1]) < total);
        out := out + [Piece(RowObject, indent)];
        if i != last {
          out := out + [Piece(Comma, indent)];
        }
      }
    }

    /** dm_report_output of the report at position k. */
    method OutputReport(k: nat) returns (ok: bool)
      requires k < |items| && 0 <= items[k].parent < |items|
      modifies this
      ensures (Value(), ok) == Output(old(Value()), k)
    {
      JsonOutputStart();
      var it := items[k];
      if it.done && it.rows == [] {
        return true;
      }
      if k != |items| - 1 {
        return false;
      }
      if it.closing {
        return false;
      }
      JsonOutputArrayStart(it.parent, NameOf(it));
      OutputRows(it.rows);
      items := items[k := it.(rows := [], done := true, closing := true)];
      ok := true;
    }

    /** dm_report_group_pop. */
    method PopItem()
      requires items != []
      modifies this
      ensures Value() == Popped(old(Value()))
    {
      var n := |items| - 1;
      var it := items[n];
      if it.done && it.closing {
        if it.name.Some? {
          indent := indent - UNIT;
          out := out + [Piece(CloseArray, indent)];
        }
        if 0 <= it.parent < |items| && items[it.parent].parent >= 0 && items[it.parent].name.Some? {
          indent := indent - UNIT;
          out := out + [Piece(CloseObject, indent)];
        }
      }
      items := items[..n];
      if 0 <= it.parent < |items| {
        items := items[it.parent := items[it.parent].(finished := items[it.parent].finished + 1)];
      }
    }

    /** One turn of the loop that empties the stack. */
    method OutputAndPop()
      requires Inv(Value()) && |items| > 1
      modifies this
      ensures Inv(Value()) && |items| == |old(items)| - 1 && AllPopped(Value()) == AllPopped(old(Value()))
    {
      hide Inv, Output, Popped, AllPopped, ReadAll;
      var n := |items| - 1;
      TopIsDone(Value());
      TopHasParent(Value());
      AllPoppedStep(Value());
      if items[n].report {
        var _ := OutputReport(n);
      }
      PoppedInv(Value());
      PopItem();
    }

    method CloseText()
      requires items != []
      modifies this
      ensures Value() == Completed(old(Value()))
    {
      items := [items[0].(finished := 0)];
      JsonOutputStart();
      out := out + [Piece(CloseObject, 0)];
      indent := indent - UNIT;
    }

    /** dm_report_group_output_and_pop_all on a group that was used legally. */
    method OutputAndPopAll()
      requires items != [] && Inv(Value())
      modifies this
      ensures Value() == AllPopped(old(Value())).0
      ensures ReadAll(out) == Complete && indent == 0
    {
      hide Inv, AllPopped, ReadAll, Completed;
      AllPoppedIsComplete(Value());
      while |items| > 1
        invariant items != [] && Inv(Value()) && AllPopped(Value()) == AllPopped(old(Value()))
        decreases |items|
      {
        OutputAndPop();
      }
      AllPoppedRoot(Value());
      CloseText();
    }
  }

  lemma TopHasParent(g: Group)
    requires Inv(g) && |g.items| > 1
    ensures 0 <= g.items[|g.items| - 1].parent < |g.items|
  {
    var n := |g.items| - 1;
    assert ItemOk(g.items, n);
    NearestFound(g.items[..n]);
  }
}
