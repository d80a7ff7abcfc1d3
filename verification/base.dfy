/** Shared vocabulary: item ids, optional values, the errors the toolkit helpers
    can raise, and Python's `sep.join(parts)` on strings. */
module Base {

  /** An item tag handed out by the toolkit. */
  type Id = int

  datatype Option<+T> = None | Some(value: T)

  /** The ways a helper fails. The source raises these as exceptions; the
      model returns them. */
  datatype Error =
    | UnknownItem(id: Id)           // the toolkit has no such item
    | MalformedTypeInfo(id: Id)     // the item's type string has no '::'
    | UnrecognisedKind(name: string) // `assert item_type is not None`
    | UnsupportedContainer          // `assert container_name is not None`
    | NotAString(id: Id)            // a text value that is not a string
    | IndexOutOfRange               // `items[0]` on an empty list
    | ShapeMismatch                 // instance and schema disagree
    | UnsupportedField(name: string) // a field kind the value mirror cannot walk

  datatype Result<+T> = Ok(value: T) | Err(error: Error)

  /** `sep.join(parts)`. */
  function Join(parts: seq<string>, sep: string): string
  {
    if |parts| == 0 then ""
    else if |parts| == 1 then parts[0]
    else Join(parts[..|parts| - 1], sep) + sep + parts[|parts| - 1]
  }

  lemma JoinSnoc(parts: seq<string>, sep: string, last: string)
    requires |parts| >= 1
    ensures Join(parts + [last], sep) == Join(parts, sep) + sep + last
  {
    assert (parts + [last])[..|parts|] == parts;
  }

  /** Growing the last part of a join grows the join at its end. */
  lemma JoinExtendLast(parts: seq<string>, sep: string, tail: string)
    requires |parts| >= 1
    ensures Join(parts[..|parts| - 1] + [parts[|parts| - 1] + tail], sep) == Join(parts, sep) + tail
  {
    var n := |parts|;
    var front := parts[..n - 1];
    if n > 1 {
      JoinSnoc(front, sep, parts[n - 1] + tail);
      JoinSnoc(front, sep, parts[n - 1]);
      assert front + [parts[n - 1]] == parts;
    }
  }

  /** `JoinSnoc` with the joins named, so that callers need not unfold them. */
  lemma JoinSnocEq(parts: seq<string>, longer: seq<string>, joined: string, result: string, sep: string, last: string)
    requires |parts| >= 1 && Join(parts, sep) == joined
    requires longer == parts + [last] && result == joined + sep + last
    ensures Join(longer, sep) == result
  {
    JoinSnoc(parts, sep, last);
  }

  /** `JoinExtendLast` with the joins named, so that callers need not unfold them. */
  lemma JoinExtendLastEq(parts: seq<string>, longer: seq<string>, joined: string, result: string, sep: string, tail: string)
    requires |parts| >= 1 && Join(parts, sep) == joined
    requires longer == parts[..|parts| - 1] + [parts[|parts| - 1] + tail] && result == joined + tail
    ensures Join(longer, sep) == result
  {
    JoinExtendLast(parts, sep, tail);
  }
}
