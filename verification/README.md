# dearpyapp helpers, modelled in Dafny

`dearpyapp/utils.py` is a set of helpers over the Dear PyGui toolkit:

- it names and classifies items through two static kind tables,
- it walks up the parent chain to the nearest enclosing container of a given kind,
- it bisects a list of items by on-screen position,
- it builds an instance of a declared schema with one fresh toolkit id per widget (`dpg_uuid`),
- it reads and writes the values behind such an instance (`dpg_get_values`, `dpg_set_values`),
- it extracts, re-wraps and measures the text of a table cell.

The toolkit itself is not modelled; only what the helpers see of it is:

- The read-only registry is the `Toolkit.Layout` value: type strings, parents, positions, rectangle sizes and children, one map per query.
- The state the helpers change is the `Toolkit.Registry` class: the id counter behind `generate_uuid` and the value store behind `get_value`/`set_value`.
- Text measurement with a font (`get_text_size`) is a function parameter.
- The cell-text functions take the classification of items (`dpg_get_item_type`) as a parameter `kinds`; `CellText.GetTextFromCell` passes the toolkit's own, `CellText.KindOf`, so the lemmas about cells hold for any classification.
- A toolkit call on an unknown item raises in the toolkit. So does a failed `assert` in the helpers. Both are `Err` values of `Base.Error`.

Modules, one file each:

| module | file | models |
|---|---|---|
| `Base` | `base.dfy` | `Option`, `Result`, the error kinds, `Join` (`str.join`) |
| `Kinds` | `kinds.dfy` | the name tables, their inverse, and `str.rsplit('::')` |
| `Toolkit` | `toolkit.dfy` | the layout, the value store, the id counter |
| `Navigation` | `navigation.dfy` | `dpg_get_item_container`, `dpg_get_item_by_pos` |
| `Schema` | `schema.dfy` | `dpg_uuid`, `dpg_get_values`, `dpg_set_values` |
| `TextWrap` | `textwrap.dfy` | `_get_wrapped_text` |
| `CellText` | `celltext.dfy` | `dpg_get_text_from_cell` |

How the schema code is modelled:

- A schema is an explicit list of `Field`s in declaration order.
- An instance is a `Tree` with one node per field.
- Each field's annotation is one of four kinds:
  - a plain type, which is one widget;
  - a named tuple without annotations, which is one widget per slot;
  - a nested annotated class or named tuple;
  - another `dpg_uuid` wrapper.
- `dpg_get_values` and `dpg_set_values` fail on a field that is a raw named tuple or a wrapper. On a raw named tuple the source iterates over the tuple class itself. On a wrapper it asks a function for `__base__`. The model gives both the error `UnsupportedField`.

## Model

| member | source | states |
|---|---|---|
| Kinds.KindName | dearpyapp/utils.py:13-33 | a kind has a name exactly when one of the two tables lists it; a container kind gets its container-table name |
| Kinds.KindNamesDistinct | dearpyapp/utils.py:14-30 | no two listed kinds share a name, so the tables can be inverted without loss |
| Kinds.FindKind | dearpyapp/utils.py:32-33 | a kind that is found is in the list and has the name; when none is found, no kind in the list has that name |
| Kinds.ItemTypeLookupInverse | dearpyapp/utils.py:32-33 | `_item_type_lookup` maps a name to a kind exactly when the chained tables map that kind to the name |
| Kinds.MenuBarIsNotAContainer | dearpyapp/utils.py:14-30 | the menu bar is named only by the non-container table, so a container search can never ask for it |
| Kinds.RSplit | dearpyapp/utils.py:60 | `rsplit('::')` always gives at least one piece; the lemmas below pin down which pieces |
| Kinds.RSplitLastSuffix | dearpyapp/utils.py:60 | the last piece of `rsplit('::')` is a suffix of the string |
| Kinds.RSplitPiecesNoSep | dearpyapp/utils.py:60 | no piece of `rsplit('::')` contains "::": the split cuts at every separator, not only at the rightmost one |
| Kinds.RSplitAppend | dearpyapp/utils.py:60 | appending "::" and a colon-free name to any string adds exactly that name as one more piece |
| Kinds.TwoSeparatorsNameMiddle | dearpyapp/utils.py:60 | a type string "a::b::c" splits into `[a, b, c]` and names the middle piece `b`, not the last one |
| Kinds.RSplitJoin | dearpyapp/utils.py:60 | joining the pieces of `rsplit('::')` with "::" gives back the original string |
| Kinds.RSplitSingle | dearpyapp/utils.py:60 | `rsplit('::')` gives a single piece exactly when the string has no "::" |
| Kinds.NameFromTypeInfo | dearpyapp/utils.py:60 | piece 1 of the split is missing (the source's IndexError) exactly when the type string has no "::" |
| Kinds.QualifiedNameSplits | dearpyapp/utils.py:60 | a type string `prefix::Name` with one separator and no ':' in the name splits into exactly `[prefix, Name]` and names `Name` |
| Kinds.TextTypeInfoExample | dearpyapp/utils.py:59-66 | the type string "mvAppItemType::mvText" names the text kind, and the inverse table maps that name back to it |
| Toolkit.ItemName | dearpyapp/utils.py:59-60 | the name comes out exactly for a known item whose type string holds "::"; otherwise the error says which of the two went wrong |
| Toolkit.ItemType | dearpyapp/utils.py:63-66 | a kind that comes out is the one the tables name by the item's name; a recognised name that no table lists fails the assert, and no kind has that name |
| Toolkit.GetValue | dearpyapp/utils.py:137 | `get_value` succeeds exactly for a live item and gives its stored value |
| Toolkit.Registry.GenerateUuid | dearpyapp/utils.py:100-102 | `generate_uuid` hands out the counter's current id and advances it by one, so no id is handed out twice |
| Toolkit.Registry.SetValue | dearpyapp/utils.py:155-157 | `set_value` on a live item replaces that item's value and nothing else; on an unknown item it fails and changes nothing |
| Navigation.GetItemContainer | dearpyapp/utils.py:45-56 | a kind outside the container table fails the assert; otherwise, for a start item from which the loop stops, the result is the container walk's; a start item that is itself a window gives `None` |
| Navigation.WalkFuelIrrelevant | dearpyapp/utils.py:49-56 | once the walk reaches an answer, more steps change nothing, so the loop's result is well defined |
| Navigation.WalkFindsNearestAncestor | dearpyapp/utils.py:49-56 | a container found is the item some k parent steps up, with k at least 1 from the start of the search, and it has the requested name; every item passed on the way had a name, was not a window and (except the start) was not of the requested kind |
| Navigation.WalkNoneMeansWindow | dearpyapp/utils.py:53-54 | `None` comes back only when the walk reaches a window before any item of the requested kind: every item below that window was passed (had a name, was not a window, and apart from the start was not of the requested kind), and the window is the start item itself or the requested kind is not the window kind |
| Navigation.NeverReturnsStart | dearpyapp/utils.py:48-52 | when the parent chain has no cycle, the container found is never the start item itself (`first_iter` skips it) |
| Navigation.DefaultKindFindsWindow | dearpyapp/utils.py:45 | with the default kind, a found container is a window and an ancestor of the item |
| Navigation.LastAtMost | dearpyapp/utils.py:74-83 | reference answer for the search: 0, or an index whose key is at most the point's coordinate, with every later item's key above it |
| Navigation.BisectByPos | dearpyapp/utils.py:71-83 | an empty list fails (`items[0]`); a result is an index in range whose key is at most the point while the next index's key is above it; a failure is an item with no position; when items 1.. are placed and sorted on the axis, the result is exactly the last item at or before the point |
| Navigation.GetItemByPos | dearpyapp/utils.py:69-84 | an empty list fails; when every element the search reads has a position, sorted or not, an entry always comes back; an error names an element without a position; a returned entry sits at an index `i` (returned too when `return_index` is set) whose position is at most the point, unless `i` is 0, while the next element's position is greater, unless `i` is the last; with sorted placed items it is the last item at or before the point |
| TextWrap.WrapText | dearpyapp/utils.py:162-172 | the loop builds exactly the wrapped text that the step-by-step definition `Wrapped` describes |
| TextWrap.WrapNewlineStep | dearpyapp/utils.py:167-170 | a literal '\n' closes the current line before it and resumes after it |
| TextWrap.WrapBreakStep | dearpyapp/utils.py:167-170 | a width break closes the current line and starts the next one with the character that overflowed |
| TextWrap.WrapExtendStep | dearpyapp/utils.py:166-167 | any other character extends the current line |
| TextWrap.WrappedPrefixInsertsOnly | dearpyapp/utils.py:165-171 | up to every prefix, wrapping keeps every input character at its image and puts a '\n' in front of each width break |
| TextWrap.InsertsOnly | dearpyapp/utils.py:162-172 | wrapping only inserts line breaks: the output is as long as the input plus one per width break, every input character appears in order, and each break is a '\n' |
| TextWrap.NoBreakKeepsPrefix | dearpyapp/utils.py:167 | while no width break has happened, the wrapped prefix is the input prefix unchanged |
| TextWrap.WrapIdentity | dearpyapp/utils.py:167 | with wrap width 0, or a text whose total width fits, wrapping returns the text unchanged |
| TextWrap.WrapExample | dearpyapp/utils.py:162-172 | "aaaa\nbb" at width 3, with every character 1 wide, wraps into the lines "aaa", "a", "bb" |
| TextWrap.WrapResetExample | dearpyapp/utils.py:169-170 | after a width break the counter restarts at 0 while the overflowing character opens the new line, so "aaaaaaaa" at width 3 wraps as "aaa", "aaaa", "a" |
| CellText.TextValue | dearpyapp/utils.py:176-177 | the value of a text cell comes out exactly for a live item holding text, and it is that text |
| CellText.Lines | dearpyapp/utils.py:182-185 | reading every child with the given reader, when it succeeds, gives one result per child |
| CellText.LinesInOrder | dearpyapp/utils.py:182-185 | reading every child gives one result per child, in the children's order, exactly when every child can be read |
| CellText.LinesFirstFailure | dearpyapp/utils.py:182-185 | a failed read of the children is the error of the first child, in order, that cannot be read |
| CellText.LinesFirstError | dearpyapp/utils.py:182-185 | once a prefix of the children fails, the whole read fails with that error, so the loop may stop there |
| CellText.CollectLines | dearpyapp/utils.py:182-185 | the loop over the children computes exactly the list `Lines` of what each child contributes |
| CellText.FirstNonText | dearpyapp/utils.py:184-186 | no index comes out exactly when every value is text; an index that comes out holds the first value that is not text |
| CellText.JoinValues | dearpyapp/utils.py:184-186 | `sep.join` of values already read succeeds exactly when all are text, and otherwise fails naming the item of the first value that is not text |
| CellText.GatherInOrder | dearpyapp/utils.py:184-186 | reading a list of items and joining their values succeeds exactly when every item reads as text, and gives those texts in order with the separator between them |
| CellText.GatherError | dearpyapp/utils.py:183-186 | every item is read before the join checks any value, so the first item that cannot be read decides the error even after a value that is not text; only when all reads succeed does the first non-text value decide |
| CellText.ChildValueInOrder | dearpyapp/utils.py:183-184 | a text child contributes its stored value, whatever it is; any other child contributes its own children's texts run together in order, exactly when each of them is live and holds text |
| CellText.Rewrap | dearpyapp/utils.py:187-193 | the text becomes the wrapped text; width and height become the larger of the wrapped text's size (plus one line after a trailing '\n') and the old size, so they never shrink |
| CellText.GetTextFromCell | dearpyapp/utils.py:175-194 | fails exactly when reading the cell fails, with the same error; otherwise it gives the raw text and size unchanged for a negative wrap, and for a non-negative wrap the wrapped text at the larger of the two sizes |
| CellText.ContainerCellLines | dearpyapp/utils.py:180-186 | a container cell can be read exactly when every child contributes a text, and its text is then those texts, one line per child in order, joined with '\n' |
| CellText.ContainerCellError | dearpyapp/utils.py:182-186 | a container cell's error is that of its first child that cannot be read, even when an earlier child holds a value that is not text; when every child reads, it is the first child whose value is not text, from the final '\n' join |
| Schema.BuildShape | dearpyapp/utils.py:88-117 | the instance `dpg_uuid` builds has the schema's shape; its ids, read left to right, are the consecutive ids from the counter; the counter advances by the number of widgets |
| Schema.BuildFieldShape | dearpyapp/utils.py:91-107 | the same for one field: a leaf takes one id, a raw tuple one per slot, a nested class or wrapper one per widget inside |
| Schema.BuildFresh | dearpyapp/utils.py:88-117 | all ids of a built instance are pairwise distinct, and none was handed out before the call |
| Schema.Uuid | dearpyapp/utils.py:89-116 | the generator walk over the fields produces the instance `Build` describes and leaves the counter just past it; the value store is untouched |
| Schema.UuidField | dearpyapp/utils.py:91-109 | the same for one field, including the per-slot loop of a raw named tuple |
| Schema.ReadOk | dearpyapp/utils.py:125-141 | for an instance of the schema's shape, reading succeeds exactly when every field is supported and every id is live, and the values read have the schema's shape |
| Schema.ReadFieldOk | dearpyapp/utils.py:129-139 | the same for one field |
| Schema.ReadFirstError | dearpyapp/utils.py:128-140 | once a prefix of the fields fails to read, the whole read fails with that error |
| Schema.GetValues | dearpyapp/utils.py:125-141 | the loop over the fields reads exactly the tree `ReadFields` describes from the registry's store |
| Schema.GetField | dearpyapp/utils.py:129-139 | the same for one field |
| Schema.WriteFrame | dearpyapp/utils.py:144-159 | writing never adds or removes live items and never changes an item outside the instance's ids |
| Schema.WriteFieldFrame | dearpyapp/utils.py:146-159 | the same for one field |
| Schema.WriteOk | dearpyapp/utils.py:144-159 | for instance and values of the schema's shape, writing succeeds exactly when every field is supported and every id is live |
| Schema.WriteFieldOk | dearpyapp/utils.py:146-159 | the same for one field |
| Schema.WriteFirstError | dearpyapp/utils.py:146-159 | once a prefix of the fields fails, the whole write fails with that error; the writes made before it stay |
| Schema.SetValues | dearpyapp/utils.py:144-159 | the loop over the fields leaves the store and result that `WriteFields` describes, including the partial writes before an error |
| Schema.SetField | dearpyapp/utils.py:146-159 | the same for one field |
| Schema.ReadLocal | dearpyapp/utils.py:125-141 | a read depends only on the values stored at the instance's ids |
| Schema.ReadFieldLocal | dearpyapp/utils.py:129-139 | the same for one field: its read depends only on the values stored at that field's ids |
| Schema.WriteThenRead | dearpyapp/utils.py:125-159 | setting values into an instance with distinct live ids, then getting them, gives back the values, when the annotations keep them as they are |
| Schema.WriteFieldThenRead | dearpyapp/utils.py:129-157 | the same for one field |
| Schema.ReadThenWrite | dearpyapp/utils.py:125-159 | when the annotations keep the stored values as they are, reading gives the stored values, and writing them back succeeds and leaves the store exactly as it was |
| Schema.ReadFieldThenWrite | dearpyapp/utils.py:129-157 | the same for one field |
| Schema.FreshRoundTrip | dearpyapp/utils.py:88-159 | an instance just built by `dpg_uuid`, with its ids live, supports set-then-get of any values of its shape |

## Left out

- `dpg_container` (dearpyapp/utils.py:36-42) is not modelled. It only pushes and pops the toolkit's container stack around a `with` block, and that stack lives inside the toolkit.
- `dearpyapp/__init__.py` is not part of this model. It only re-exports.
- Float sizes and pixel positions are integers. Fonts are folded into the `measure` parameter. Character widths are `measure` on one character, as `get_text_size(char)` is.
- `get_text_size` returning `None` before the first frame is not modelled.
- Python reflection over `__annotations__`, `__base__` and `__qualname__` is replaced by the explicit `Field` list.
- `dpg_uuid`'s final factory choice (`dataobject` subclass or `make_dataclass`) is not modelled. Both build the same positional group, and so does `return_values=True`.
- Attribute lookup by field name (`getattr(gui_obj, tag)`) is modelled as position in the instance. An instance of another shape is the error `ShapeMismatch`.
- The coercion by a leaf's annotation (`cls_(value)`) is a total function parameter. A constructor that raises is not modelled.
- Item ids are integers. String tags, which `dpg_get_item_by_pos` also accepts, are not modelled.
- Toolkit exceptions carry no message. An item missing from one of the toolkit's maps is `UnknownItem`.
- Navigation.GetItemContainer: requires that the walk stops: within finitely many parent steps it meets an item of the requested kind above the start, a window, an item with no parent, or an item whose name cannot be read. On a parent cycle with none of these the source loops forever.
- Navigation.BisectByPos: states its exact result only for sorted, placed items. The source's comment notes that `get_item_pos` reads 0 for an item not yet laid out, and the model captures that only as this precondition of the exactness clause.
- Toolkit.Registry.GenerateUuid: the toolkit's id counter is modelled as consecutive integers starting from a given value. The helpers rely only on the ids being fresh.
