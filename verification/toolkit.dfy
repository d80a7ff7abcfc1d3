/** What the helpers see of the GUI toolkit. The item tree, item positions and
    sizes are read-only here and live in `Layout`, a map per toolkit query
    (an id missing from a map is an item the toolkit does not know). The
    value store and the id counter are changed by the helpers and live in
    `Registry`. Text measurement is a function parameter of the helpers that
    need it. */
module Toolkit {
  import opened Base
  import opened Kinds

  /** A widget value as `get_value`/`set_value` carry it. */
  datatype Value = Str(s: string) | Int(i: int) | Bool(b: bool)

  /** A position on screen; `x` is the horizontal axis. */
  datatype Pos = Pos(x: int, y: int)

  /** A rendered size. */
  datatype Size = Size(width: nat, height: nat)

  /** The toolkit's item registry, as far as the helpers read it:
      `get_item_info(id)["type"]`, `get_item_parent`, `get_item_pos`,
      `get_item_rect_size` and `get_item_children(id, slot=1)`. */
  datatype Layout = Layout(
    typeInfo: map<Id, string>,
    parent: map<Id, Id>,
    pos: map<Id, Pos>,
    rectSize: map<Id, Size>,
    children: map<Id, seq<Id>>)

  /** `dpg_get_item_name`: the kind name of an item. */
  function ItemName(layout: Layout, id: Id): (r: Result<string>)
    ensures r.Ok? <==> id in layout.typeInfo && NameFromTypeInfo(layout.typeInfo[id]).Some?
    ensures r.Err? ==> r.error == (if id in layout.typeInfo then MalformedTypeInfo(id) else UnknownItem(id))
  {
    if id !in layout.typeInfo then Err(UnknownItem(id))
    else match NameFromTypeInfo(layout.typeInfo[id])
      case None => Err(MalformedTypeInfo(id))
      case Some(name) => Ok(name)
  }

  /** `dpg_get_item_type`: the kind of an item, by the inverse name table. */
  function ItemType(layout: Layout, id: Id): (r: Result<Kind>)
    ensures r.Ok? ==> ItemName(layout, id).Ok? && KindName(r.value) == Some(ItemName(layout, id).value)
    ensures ItemName(layout, id).Ok? && r.Err? ==>
              r.error == UnrecognisedKind(ItemName(layout, id).value)
              && forall k :: KindName(k) != Some(ItemName(layout, id).value)
  {
    match ItemName(layout, id)
    case Err(e) => Err(e)
    case Ok(name) =>
      ItemTypeLookupFacts(name);
      match ItemTypeLookup(name)
      case None => Err(UnrecognisedKind(name))
      case Some(k) => Ok(k)
  }

  lemma ItemTypeLookupFacts(name: string)
    ensures forall k :: ItemTypeLookup(name) == Some(k) <==> KindName(k) == Some(name)
  {
    forall k ensures ItemTypeLookup(name) == Some(k) <==> KindName(k) == Some(name) {
      ItemTypeLookupInverse(name, k);
    }
  }

  /** `get_value(id)`. */
  function GetValue(store: map<Id, Value>, id: Id): (r: Result<Value>)
    ensures r.Ok? <==> id in store
    ensures r.Ok? ==> r.value == store[id]
  {
    if id in store then Ok(store[id]) else Err(UnknownItem(id))
  }

  /** The mutable part of the toolkit: the next id `generate_uuid` hands out
      and the value of every live item. */
  class Registry {
    var nextUuid: Id
    var values: map<Id, Value>

    constructor (firstUuid: Id, values: map<Id, Value>)
      ensures nextUuid == firstUuid && this.values == values
    {
      nextUuid := firstUuid;
      this.values := values;
    }

    /** `generate_uuid()`: a fresh id, never handed out before. */
    method GenerateUuid() returns (id: Id)
      modifies this`nextUuid
      ensures id == old(nextUuid) && nextUuid == id + 1
    {
      id := nextUuid;
      nextUuid := nextUuid + 1;
    }

    /** `set_value(id, v)`: only a live item can be set. */
    method SetValue(id: Id, v: Value) returns (r: Result<()>)
      modifies this`values
      ensures r == if id in old(values) then Ok(()) else Err(UnknownItem(id))
      ensures values == if r.Ok? then old(values)[id := v] else old(values)
    {
      if id in values {
        values := values[id := v];
        r := Ok(());
      } else {
        r := Err(UnknownItem(id));
      }
    }
  }
}
