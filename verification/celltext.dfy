/** The text shown in a table cell and the size it needs
    (`dpg_get_text_from_cell`). Text measurement (`get_text_size` with the
    cell's font) is the parameter `measure`: text and wrap width to size,
    where a wrap width of -1 means "do not wrap". */
module CellText {
  import opened Base
  import opened Kinds
  import opened Toolkit
  import opened TextWrap

  /** The text of a cell with the size it takes. */
  datatype Measured = Measured(text: string, width: nat, height: nat)

  /** `get_value` of an item whose value is text. */
  function TextValue(store: map<Id, Value>, id: Id): (r: Result<string>)
    ensures r.Ok? <==> id in store && store[id].Str?
    ensures r.Ok? ==> store[id] == Str(r.value)
  {
    match GetValue(store, id)
    case Err(e) => Err(e)
    case Ok(v) => if v.Str? then Ok(v.s) else Err(NotAString(id))
  }

  /** The result of `f` on every id, in order; the first failing id's error. */
  function Lines<T>(f: Id -> Result<T>, kids: seq<Id>): (r: Result<seq<T>>)
    ensures r.Ok? ==> |r.value| == |kids|
  {
    if kids == [] then Ok([])
    else match Lines(f, kids[..|kids| - 1])
      case Err(e) => Err(e)
      case Ok(front) =>
        match f(kids[|kids| - 1])
        case Err(e) => Err(e)
        case Ok(last) => Ok(front + [last])
  }

  /** The results come out exactly when every id has one, one result per id
      and in the ids' order. */
  lemma {:induction false} LinesInOrder<T>(f: Id -> Result<T>, kids: seq<Id>)
    ensures Lines(f, kids).Ok? <==> forall i :: 0 <= i < |kids| ==> f(kids[i]).Ok?
    ensures Lines(f, kids).Ok? ==>
              && |Lines(f, kids).value| == |kids|
              && forall i :: 0 <= i < |kids| ==> Lines(f, kids).value[i] == f(kids[i]).value
    decreases |kids|
  {
    if kids != [] {
      var front := kids[..|kids| - 1];
      LinesInOrder(f, front);
      assert forall i :: 0 <= i < |front| ==> front[i] == kids[i];
    }
  }

  /** A failure comes from the first id whose result is an error. */
  lemma {:induction false} LinesFirstFailure<T>(f: Id -> Result<T>, kids: seq<Id>)
    requires Lines(f, kids).Err?
    ensures exists i :: && 0 <= i < |kids| && f(kids[i]).Err?
                        && (forall j :: 0 <= j < i ==> f(kids[j]).Ok?)
                        && Lines(f, kids).error == f(kids[i]).error
    decreases |kids|
  {
    var front := kids[..|kids| - 1];
    assert forall j :: 0 <= j < |front| ==> front[j] == kids[j];
    if Lines(f, front).Err? {
      LinesFirstFailure(f, front);
    } else {
      LinesInOrder(f, front);
      assert f(kids[|kids| - 1]).Err?;
    }
  }

  /** Once a prefix of the ids fails, the whole list fails with the same
      error: the first failing id decides. */
  lemma {:induction false} LinesFirstError<T>(f: Id -> Result<T>, kids: seq<Id>, j: nat)
    requires j <= |kids|
    requires Lines(f, kids[..j]).Err?
    ensures Lines(f, kids) == Lines(f, kids[..j])
    decreases |kids|
  {
    if j < |kids| {
      var front := kids[..|kids| - 1];
      assert front[..j] == kids[..j];
      LinesFirstError(f, front, j);
      assert front[..|front|] == front;
    } else {
      assert kids[..j] == kids;
    }
  }

  /** The loop of `dpg_get_text_from_cell` that replaces each child by what
      it contributes. */
  method CollectLines(line: Id -> Result<Value>, kids: seq<Id>) returns (r: Result<seq<Value>>)
    ensures r == Lines(line, kids)
  {
    var lines: seq<Value> := [];
    for i := 0 to |kids|
      invariant Lines(line, kids[..i]) == Ok(lines)
    {
      assert kids[..i + 1][..i] == kids[..i];
      var l := line(kids[i]);
      if l.Err? {
        LinesFirstError(line, kids, i + 1);
        return Err(l.error);
      }
      lines := lines + [l.value];
    }
    assert kids[..|kids|] == kids;
    r := Ok(lines);
  }

  /** The first value that is not text, if any. */
  function FirstNonText(vals: seq<Value>): (r: Option<nat>)
    ensures r.None? <==> forall i :: 0 <= i < |vals| ==> vals[i].Str?
    ensures r.Some? ==> r.value < |vals| && !vals[r.value].Str? && forall j :: 0 <= j < r.value ==> vals[j].Str?
  {
    if vals == [] then None
    else if !vals[0].Str? then Some(0)
    else match FirstNonText(vals[1..])
      case None => None
      case Some(i) => Some(i + 1)
  }

  /** The texts of values that are all text. */
  function Texts(vals: seq<Value>): seq<string>
    requires forall i :: 0 <= i < |vals| ==> vals[i].Str?
  {
    seq(|vals|, i requires 0 <= i < |vals| => vals[i].s)
  }

  /** `sep.join(values)` over values already read from the items `ids`: the
      join rejects the first value that is not text. */
  function JoinValues(vals: seq<Value>, ids: seq<Id>, sep: string): (r: Result<string>)
    requires |ids| == |vals|
    ensures r.Ok? <==> forall i :: 0 <= i < |vals| ==> vals[i].Str?
    ensures r.Err? ==> exists i :: && 0 <= i < |vals| && !vals[i].Str?
                                   && (forall j :: 0 <= j < i ==> vals[j].Str?)
                                   && r.error == NotAString(ids[i])
  {
    match FirstNonText(vals)
    case Some(i) => Err(NotAString(ids[i]))
    case None => Ok(Join(Texts(vals), sep))
  }

  /** `sep.join(f(id) for id in ids)`: every id is read first, then the
      values are joined. */
  function Gather(f: Id -> Result<Value>, ids: seq<Id>, sep: string): Result<string>
  {
    match Lines(f, ids)
    case Err(e) => Err(e)
    case Ok(vals) => JoinValues(vals, ids, sep)
  }

  /** The join succeeds exactly when every id reads as text, and it is then
      those texts, in the ids' order, with `sep` between them. */
  lemma GatherInOrder(f: Id -> Result<Value>, ids: seq<Id>, sep: string)
    ensures Gather(f, ids, sep).Ok? <==> forall i :: 0 <= i < |ids| ==> f(ids[i]).Ok? && f(ids[i]).value.Str?
    ensures Gather(f, ids, sep).Ok? ==>
              exists texts: seq<string> ::
                && |texts| == |ids|
                && (forall i :: 0 <= i < |ids| ==> f(ids[i]) == Ok(Str(texts[i])))
                && Gather(f, ids, sep).value == Join(texts, sep)
  {
    LinesInOrder(f, ids);
    var read := Lines(f, ids);
    if read.Ok? && JoinValues(read.value, ids, sep).Ok? {
      var texts := Texts(read.value);
      assert forall i :: 0 <= i < |ids| ==> f(ids[i]) == Ok(Str(texts[i]));
    }
  }

  /** Which error the join gives: the first id that cannot be read, even
      after values that are not text; only when every id reads does the
      first value that is not text decide. */
  lemma GatherError(f: Id -> Result<Value>, ids: seq<Id>, sep: string)
    ensures (exists i :: 0 <= i < |ids| && f(ids[i]).Err?) ==>
              exists i :: && 0 <= i < |ids| && f(ids[i]).Err?
                          && (forall j :: 0 <= j < i ==> f(ids[j]).Ok?)
                          && Gather(f, ids, sep) == Err(f(ids[i]).error)
    ensures (forall i :: 0 <= i < |ids| ==> f(ids[i]).Ok?) && Gather(f, ids, sep).Err? ==>
              exists i :: && 0 <= i < |ids| && !f(ids[i]).value.Str?
                          && (forall j :: 0 <= j < i ==> f(ids[j]).value.Str?)
                          && Gather(f, ids, sep) == Err(NotAString(ids[i]))
  {
    LinesInOrder(f, ids);
    if Lines(f, ids).Err? {
      LinesFirstFailure(f, ids);
    }
  }

  /** `get_value` as a function value. */
  function ValueOf(store: map<Id, Value>): Id -> Result<Value>
  {
    id => GetValue(store, id)
  }

  /** `dpg_get_item_type` as a function value. The functions and lemmas
      below take the classification of items as a parameter `kinds`;
      `dpg_get_text_from_cell` uses this one. */
  function KindOf(layout: Layout): Id -> Result<Kind>
  {
    id => ItemType(layout, id)
  }

  /** What a child of a cell contributes: the value of a text item as it is,
      otherwise `''.join` of the values of its own children. */
  function ChildValue(kinds: Id -> Result<Kind>, layout: Layout, store: map<Id, Value>, child: Id): Result<Value>
  {
    match kinds(child)
    case Err(e) => Err(e)
    case Ok(k) =>
      if k == Text then GetValue(store, child)
      else if child !in layout.children then Err(UnknownItem(child))
      else match Gather(ValueOf(store), layout.children[child], "")
        case Err(e) => Err(e)
        case Ok(s) => Ok(Str(s))
  }

  /** A text child gives its stored value, whatever it is. Any other child
      succeeds exactly when each of its children is live and holds text, and
      then gives those texts concatenated in the children's order. */
  lemma ChildValueInOrder(kinds: Id -> Result<Kind>, layout: Layout, store: map<Id, Value>, child: Id)
    requires kinds(child).Ok?
    ensures kinds(child).value == Text ==> ChildValue(kinds, layout, store, child) == GetValue(store, child)
    ensures kinds(child).value != Text && child in layout.children ==>
              var gs := layout.children[child];
              && (ChildValue(kinds, layout, store, child).Ok? <==> forall i :: 0 <= i < |gs| ==> gs[i] in store && store[gs[i]].Str?)
              && (ChildValue(kinds, layout, store, child).Ok? ==>
                    exists texts: seq<string> ::
                      && |texts| == |gs|
                      && (forall i :: 0 <= i < |gs| ==> gs[i] in store && store[gs[i]] == Str(texts[i]))
                      && ChildValue(kinds, layout, store, child) == Ok(Str(Join(texts, ""))))
  {
    if kinds(child).value != Text && child in layout.children {
      var gs := layout.children[child];
      GatherInOrder(ValueOf(store), gs, "");
      assert forall i :: 0 <= i < |gs| ==> ValueOf(store)(gs[i]) == GetValue(store, gs[i]);
    }
  }

  /** `ChildValue` as a function value, for the line collection below. */
  function ChildLine(kinds: Id -> Result<Kind>, layout: Layout, store: map<Id, Value>): Id -> Result<Value>
  {
    child => ChildValue(kinds, layout, store, child)
  }

  /** The cell's text and size before any re-wrapping: a text item's value
      measured at the wrap width, or a container's child lines (all read
      first) joined with '\n' at the container's own rectangle size. */
  function CellContent(kinds: Id -> Result<Kind>, layout: Layout, store: map<Id, Value>, cell: Id, wrap: int, measure: (string, int) -> Size): Result<Measured>
  {
    match kinds(cell)
    case Err(e) => Err(e)
    case Ok(k) =>
      if k == Text then
        match TextValue(store, cell)
        case Err(e) => Err(e)
        case Ok(s) => Ok(Measured(s, measure(s, wrap).width, measure(s, wrap).height))
      else if cell !in layout.rectSize then Err(UnknownItem(cell))
      else if cell !in layout.children then Err(UnknownItem(cell))
      else match Gather(ChildLine(kinds, layout, store), layout.children[cell], "\n")
        case Err(e) => Err(e)
        case Ok(text) => Ok(Measured(text, layout.rectSize[cell].width, layout.rectSize[cell].height))
  }

  /** Width of one character in the cell's font. */
  function CharWidth(measure: (string, int) -> Size): char -> nat
  {
    c => measure([c], -1).width
  }

  /** Extra height for a text that ends in a line break: the empty last line. */
  function TrailingLine(text: string, measure: (string, int) -> Size): nat
  {
    if |text| > 0 && text[|text| - 1] == '\n' then measure(" ", -1).height else 0
  }

  function Max(a: nat, b: nat): nat
  {
    if a >= b then a else b
  }

  /** The final step of `dpg_get_text_from_cell` for a wrap width of 0 or
      more: re-wrap the text to the width and grow the size to the size of
      the wrapped text, counting an empty last line after a trailing '\n'. */
  method Rewrap(raw: Measured, wrap: int, measure: (string, int) -> Size) returns (m: Measured)
    requires wrap >= 0
    ensures m.text == Wrapped(raw.text, wrap, CharWidth(measure))
    ensures m.width == Max(measure(m.text, -1).width, raw.width)
    ensures m.height == Max(measure(m.text, -1).height + TrailingLine(m.text, measure), raw.height)
    ensures m.width >= raw.width && m.height >= raw.height
  {
    var text := WrapText(raw.text, wrap, CharWidth(measure));
    var extra := if |text| > 0 && text[|text| - 1] == '\n' then measure(" ", -1).height else 0;
    m := Measured(text, Max(measure(text, -1).width, raw.width), Max(measure(text, -1).height + extra, raw.height));
  }

  /** `dpg_get_text_from_cell`. */
  method GetTextFromCell(layout: Layout, store: map<Id, Value>, cell: Id, wrap: int, measure: (string, int) -> Size)
    returns (r: Result<Measured>)
    ensures r.Err? <==> CellContent(KindOf(layout), layout, store, cell, wrap, measure).Err?
    ensures r.Err? ==> r == CellContent(KindOf(layout), layout, store, cell, wrap, measure)
    ensures r.Ok? ==>
              var raw := CellContent(KindOf(layout), layout, store, cell, wrap, measure).value;
              && r.value.text == (if wrap >= 0 then Wrapped(raw.text, wrap, CharWidth(measure)) else raw.text)
              && r.value.width >= raw.width && r.value.height >= raw.height
              && (wrap < 0 ==> r.value == raw)
              && (wrap >= 0 ==>
                    && r.value.width == Max(measure(r.value.text, -1).width, raw.width)
                    && r.value.height == Max(measure(r.value.text, -1).height + TrailingLine(r.value.text, measure), raw.height))
  {
    var kind := ItemType(layout, cell);
    if kind.Err? {
      return Err(kind.error);
    }
    var raw: Measured;
    if kind.value == Text {
      var value := TextValue(store, cell);
      if value.Err? {
        return Err(value.error);
      }
      raw := Measured(value.value, measure(value.value, wrap).width, measure(value.value, wrap).height);
    } else {
      if cell !in layout.rectSize || cell !in layout.children {
        return Err(UnknownItem(cell));
      }
      var lines := CollectLines(ChildLine(KindOf(layout), layout, store), layout.children[cell]);
      if lines.Err? {
        return Err(lines.error);
      }
      var text := JoinValues(lines.value, layout.children[cell], "\n");
      if text.Err? {
        return Err(text.error);
      }
      raw := Measured(text.value, layout.rectSize[cell].width, layout.rectSize[cell].height);
    }
    assert CellContent(KindOf(layout), layout, store, cell, wrap, measure) == Ok(raw);
    if wrap >= 0 {
      var m := Rewrap(raw, wrap, measure);
      r := Ok(m);
    } else {
      r := Ok(raw);
    }
  }

  /** A container cell can be read exactly when every child contributes a
      text, and its raw text is then those texts, one line per child in
      order, with nothing but '\n' between them. */
  lemma ContainerCellLines(kinds: Id -> Result<Kind>, layout: Layout, store: map<Id, Value>, cell: Id, wrap: int, measure: (string, int) -> Size)
    requires kinds(cell).Ok? && kinds(cell).value != Text
    requires cell in layout.rectSize && cell in layout.children
    ensures CellContent(kinds, layout, store, cell, wrap, measure).Ok? <==>
              forall i :: 0 <= i < |layout.children[cell]| ==>
                ChildValue(kinds, layout, store, layout.children[cell][i]).Ok? && ChildValue(kinds, layout, store, layout.children[cell][i]).value.Str?
    ensures CellContent(kinds, layout, store, cell, wrap, measure).Ok? ==>
              exists lines: seq<string> ::
                && |lines| == |layout.children[cell]|
                && (forall i :: 0 <= i < |lines| ==> ChildValue(kinds, layout, store, layout.children[cell][i]) == Ok(Str(lines[i])))
                && CellContent(kinds, layout, store, cell, wrap, measure).value.text == Join(lines, "\n")
  {
    var kids := layout.children[cell];
    GatherInOrder(ChildLine(kinds, layout, store), kids, "\n");
    assert forall i :: 0 <= i < |kids| ==> ChildLine(kinds, layout, store)(kids[i]) == ChildValue(kinds, layout, store, kids[i]);
  }

  /** The error of a container cell: the first child that cannot be read
      decides it, even when an earlier child holds a value that is not text;
      only when every child reads does the first non-text value decide, at
      the final join. */
  lemma ContainerCellError(kinds: Id -> Result<Kind>, layout: Layout, store: map<Id, Value>, cell: Id, wrap: int, measure: (string, int) -> Size)
    requires kinds(cell).Ok? && kinds(cell).value != Text
    requires cell in layout.rectSize && cell in layout.children
    ensures var kids := layout.children[cell];
            (exists i :: 0 <= i < |kids| && ChildValue(kinds, layout, store, kids[i]).Err?) ==>
              exists i :: && 0 <= i < |kids| && ChildValue(kinds, layout, store, kids[i]).Err?
                          && (forall j :: 0 <= j < i ==> ChildValue(kinds, layout, store, kids[j]).Ok?)
                          && CellContent(kinds, layout, store, cell, wrap, measure) == Err(ChildValue(kinds, layout, store, kids[i]).error)
    ensures var kids := layout.children[cell];
            (forall i :: 0 <= i < |kids| ==> ChildValue(kinds, layout, store, kids[i]).Ok?) && CellContent(kinds, layout, store, cell, wrap, measure).Err? ==>
              exists i :: && 0 <= i < |kids| && !ChildValue(kinds, layout, store, kids[i]).value.Str?
                          && (forall j :: 0 <= j < i ==> ChildValue(kinds, layout, store, kids[j]).value.Str?)
                          && CellContent(kinds, layout, store, cell, wrap, measure) == Err(NotAString(kids[i]))
  {
    var kids := layout.children[cell];
    GatherError(ChildLine(kinds, layout, store), kids, "\n");
    assert forall i :: 0 <= i < |kids| ==> ChildLine(kinds, layout, store)(kids[i]) == ChildValue(kinds, layout, store, kids[i]);
  }

  /** A text cell "hello", not wrapped, comes back as its value at the size
      the font gives it. */
  method PlainTextCellExample(measure: (string, int) -> Size)
  {
    var layout := Layout(map[7 := "mvAppItemType::mvText"], map[], map[], map[], map[]);
    var store := map[7 := Str("hello")];
    TextTypeInfoExample();
    assert ItemType(layout, 7) == Ok(Text);
    var r := GetTextFromCell(layout, store, 7, -1, measure);
    assert r == Ok(Measured("hello", measure("hello", -1).width, measure("hello", -1).height));
  }
}
