/** The closed set of item kinds the helpers know about, the two static
    name tables, their inverse, and the parsing of the toolkit's
    '::'-qualified type strings. */
module Kinds {
  import opened Base

  /** Toolkit item kinds. The twelve named ones are those of the two tables;
      every other toolkit constant is `OtherKind`. */
  datatype Kind =
    | WindowAppItem | ChildWindow | Group | Tab
    | InputText | Text | Combo | MenuBar | DragFloat | DragInt | Button | Checkbox
    | OtherKind(code: int)

  /** The name the toolkit gives a top-level window. */
  const TopContainerName: string := "mvWindowAppItem"

  /** `_container_name_lookup`: kinds a search for an enclosing container
      may ask for, with their names. */
  function ContainerName(k: Kind): Option<string>
  {
    match k
    case WindowAppItem => Some(TopContainerName)
    case ChildWindow => Some("mvChildWindow")
    case Group => Some("mvGroup")
    case Tab => Some("mvTab")
    case _ => None
  }

  /** `_not_container_name_lookup`: the other kinds the helpers recognise. */
  function LeafName(k: Kind): Option<string>
  {
    match k
    case InputText => Some("mvInputText")
    case Text => Some("mvText")
    case Combo => Some("mvCombo")
    case MenuBar => Some("mvMenuBar")
    case DragFloat => Some("mvDragFloat")
    case DragInt => Some("mvDragInt")
    case Button => Some("mvButton")
    case Checkbox => Some("mvCheckbox")
    case _ => None
  }

  /** Every kind that one of the two tables lists. */
  const TableKinds: seq<Kind> :=
    [WindowAppItem, ChildWindow, Group, Tab,
     InputText, Text, Combo, MenuBar, DragFloat, DragInt, Button, Checkbox]

  /** Lookup in the chained union of the two tables (containers first). */
  function KindName(k: Kind): (r: Option<string>)
    ensures r.Some? <==> k in TableKinds
    ensures ContainerName(k).Some? ==> r == ContainerName(k)
  {
    if ContainerName(k).Some? then ContainerName(k) else LeafName(k)
  }

  /** No two listed kinds share a name, so the name tables can be inverted. */
  lemma KindNamesDistinct(a: Kind, b: Kind)
    requires KindName(a).Some? && KindName(a) == KindName(b)
    ensures a == b
  {
  }

  /** First kind of `ks` whose name is `name`. */
  function FindKind(ks: seq<Kind>, name: string): (r: Option<Kind>)
    ensures r.Some? ==> r.value in ks && KindName(r.value) == Some(name)
    ensures r.None? ==> forall k :: k in ks ==> KindName(k) != Some(name)
  {
    if ks == [] then None
    else if KindName(ks[0]) == Some(name) then Some(ks[0])
    else FindKind(ks[1..], name)
  }

  /** The inverse table `_item_type_lookup`: name to kind. */
  function ItemTypeLookup(name: string): Option<Kind>
  {
    FindKind(TableKinds, name)
  }

  /** The inverse table really is the inverse of the union of the two tables. */
  lemma ItemTypeLookupInverse(name: string, k: Kind)
    ensures ItemTypeLookup(name) == Some(k) <==> KindName(k) == Some(name)
  {
    if KindName(k) == Some(name) {
      var r := ItemTypeLookup(name);
      assert k in TableKinds;
      assert r.Some?;
      KindNamesDistinct(r.value, k);
    }
  }

  /** The menu bar is listed, but only among the non-containers. */
  lemma MenuBarIsNotAContainer()
    ensures ContainerName(MenuBar).None? && KindName(MenuBar) == Some("mvMenuBar")
  {
  }

  // ---------------------------------------------------------------------
  // Type strings: `str.rsplit('::')` and the kind name taken from it.

  /** `s` does not contain the separator "::". */
  predicate NoSep(s: string)
  {
    forall i :: 0 <= i < |s| - 1 ==> !(s[i] == ':' && s[i + 1] == ':')
  }

  /** `s.rsplit('::')`: the separator is matched from the right end. */
  function RSplit(s: string): (pieces: seq<string>)
    ensures |pieces| >= 1
    decreases |s|
  {
    if |s| < 2 then [s]
    else if s[|s| - 2] == ':' && s[|s| - 1] == ':' then RSplit(s[..|s| - 2]) + [""]
    else
      var p := RSplit(s[..|s| - 1]);
      p[..|p| - 1] + [p[|p| - 1] + [s[|s| - 1]]]
  }

  /** Joining the pieces with "::" gives the string back. */
  lemma {:induction false} RSplitJoin(s: string)
    ensures Join(RSplit(s), "::") == s
    decreases |s|
  {
    if |s| < 2 {
      assert RSplit(s) == [s];
    } else if s[|s| - 2] == ':' && s[|s| - 1] == ':' {
      RSplitJoin(s[..|s| - 2]);
      RSplitJoinSep(s);
    } else {
      RSplitJoin(s[..|s| - 1]);
      RSplitJoinChar(s);
    }
  }

  /** The step of `RSplitJoin` for a string ending in the separator. */
  lemma RSplitJoinSep(s: string)
    requires |s| >= 2 && s[|s| - 2] == ':' && s[|s| - 1] == ':'
    requires Join(RSplit(s[..|s| - 2]), "::") == s[..|s| - 2]
    ensures Join(RSplit(s), "::") == s
  {
    assert RSplit(s) == RSplit(s[..|s| - 2]) + [""];
    EndsInSep(s);
    JoinSnocEq(RSplit(s[..|s| - 2]), RSplit(s), s[..|s| - 2], s, "::", "");
  }

  /** The step of `RSplitJoin` for a string not ending in the separator. */
  lemma RSplitJoinChar(s: string)
    requires |s| >= 2 && !(s[|s| - 2] == ':' && s[|s| - 1] == ':')
    requires Join(RSplit(s[..|s| - 1]), "::") == s[..|s| - 1]
    ensures Join(RSplit(s), "::") == s
  {
    var p := RSplit(s[..|s| - 1]);
    assert RSplit(s) == p[..|p| - 1] + [p[|p| - 1] + [s[|s| - 1]]];
    EndsInChar(s);
    JoinExtendLastEq(p, RSplit(s), s[..|s| - 1], s, "::", [s[|s| - 1]]);
  }

  lemma EndsInSep(s: string)
    requires |s| >= 2 && s[|s| - 2] == ':' && s[|s| - 1] == ':'
    ensures s == s[..|s| - 2] + "::" + ""
  {
  }

  lemma EndsInChar(s: string)
    requires |s| >= 1
    ensures s == s[..|s| - 1] + [s[|s| - 1]]
  {
  }

  /** A string splits into more than one piece exactly when it holds "::". */
  lemma {:induction false} RSplitSingle(s: string)
    ensures |RSplit(s)| == 1 <==> NoSep(s)
    decreases |s|
  {
    if |s| < 2 {
    } else if s[|s| - 2] == ':' && s[|s| - 1] == ':' {
      assert !NoSep(s) by { assert s[|s| - 2] == ':' && s[|s| - 1] == ':'; }
    } else {
      var front := s[..|s| - 1];
      RSplitSingle(front);
      if NoSep(front) {
        forall i | 0 <= i < |s| - 1 ensures !(s[i] == ':' && s[i + 1] == ':') {
          if i < |s| - 2 { assert s[i] == front[i] && s[i + 1] == front[i + 1]; }
        }
      } else {
        var i :| 0 <= i < |front| - 1 && front[i] == ':' && front[i + 1] == ':';
        assert s[i] == ':' && s[i + 1] == ':';
      }
    }
  }

  /** One unfolding of `RSplit` for a string not ending in the separator:
      its last character extends the last piece of the front. */
  lemma RSplitCharStep(s: string)
    requires |s| >= 2 && !(s[|s| - 2] == ':' && s[|s| - 1] == ':')
    ensures var p := RSplit(s[..|s| - 1]); RSplit(s) == p[..|p| - 1] + [p[|p| - 1] + [s[|s| - 1]]]
  {
  }

  /** The last piece of the split is a suffix of `s`. */
  lemma {:induction false} RSplitLastSuffix(s: string)
    ensures var last := RSplit(s)[|RSplit(s)| - 1]; |last| <= |s| && last == s[|s| - |last|..]
    decreases |s|
  {
    if |s| < 2 {
      assert RSplit(s) == [s];
    } else if s[|s| - 2] == ':' && s[|s| - 1] == ':' {
      assert RSplit(s) == RSplit(s[..|s| - 2]) + [""];
    } else {
      var front := s[..|s| - 1];
      RSplitLastSuffix(front);
      RSplitCharStep(s);
      var p := RSplit(front);
      SuffixExtend(s, front, p[|p| - 1]);
    }
  }

  lemma SuffixExtend(s: string, front: string, last: string)
    requires |s| >= 1 && front == s[..|s| - 1]
    requires |last| <= |front| && last == front[|front| - |last|..]
    ensures last + [s[|s| - 1]] == s[|s| - |last| - 1..]
  {
    assert s == front + [s[|s| - 1]];
  }

  /** No piece of the split contains the separator. */
  lemma {:induction false} RSplitPiecesNoSep(s: string)
    ensures forall i :: 0 <= i < |RSplit(s)| ==> NoSep(RSplit(s)[i])
    decreases |s|
  {
    if |s| < 2 {
      assert RSplit(s) == [s];
    } else if s[|s| - 2] == ':' && s[|s| - 1] == ':' {
      var p := RSplit(s[..|s| - 2]);
      RSplitPiecesNoSep(s[..|s| - 2]);
      assert RSplit(s) == p + [""];
      NoSepSnoc(p, "");
    } else {
      var front := s[..|s| - 1];
      RSplitPiecesNoSep(front);
      RSplitLastSuffix(front);
      RSplitCharStep(s);
      var p := RSplit(front);
      NoSepExtendLast(s, front, p, RSplit(s));
    }
  }

  lemma NoSepSnoc(p: seq<string>, last: string)
    requires forall i :: 0 <= i < |p| ==> NoSep(p[i])
    requires NoSep(last)
    ensures forall i :: 0 <= i < |p + [last]| ==> NoSep((p + [last])[i])
  {
    forall i | 0 <= i < |p + [last]| ensures NoSep((p + [last])[i]) {
      if i < |p| { assert (p + [last])[i] == p[i]; }
    }
  }

  /** Extending a separator-free last piece by a character that does not
      complete a separator keeps every piece separator-free. */
  lemma NoSepExtendLast(s: string, front: string, p: seq<string>, q: seq<string>)
    requires |s| >= 2 && front == s[..|s| - 1] && !(s[|s| - 2] == ':' && s[|s| - 1] == ':')
    requires |p| >= 1 && forall i :: 0 <= i < |p| ==> NoSep(p[i])
    requires |p[|p| - 1]| <= |front| && p[|p| - 1] == front[|front| - |p[|p| - 1]|..]
    requires q == p[..|p| - 1] + [p[|p| - 1] + [s[|s| - 1]]]
    ensures forall i :: 0 <= i < |q| ==> NoSep(q[i])
  {
    var last, c := p[|p| - 1], s[|s| - 1];
    assert NoSep(last);
    forall i | 0 <= i < |last + [c]| - 1 ensures !((last + [c])[i] == ':' && (last + [c])[i + 1] == ':') {
      if i == |last| - 1 {
        assert (last + [c])[i] == front[|front| - 1] == s[|s| - 2];
      } else {
        assert (last + [c])[i] == last[i] && (last + [c])[i + 1] == last[i + 1];
      }
    }
    NoSepSnoc(p[..|p| - 1], last + [c]);
  }

  /** Appending "::" and a colon-free `name` adds exactly one piece. */
  lemma {:induction false} RSplitAppend(prefix: string, name: string)
    requires forall i :: 0 <= i < |name| ==> name[i] != ':'
    ensures RSplit(prefix + "::" + name) == RSplit(prefix) + [name]
    decreases |name|
  {
    var s := prefix + "::" + name;
    if name == [] {
      SepSuffix(prefix, s);
      assert RSplit(s) == RSplit(prefix) + [""];
    } else {
      var front, c := name[..|name| - 1], name[|name| - 1];
      RSplitAppend(prefix, front);
      CharSuffix(prefix, name, s);
      RSplitCharStep(s);
      ExtendLastSnoc(RSplit(prefix), front, c);
    }
  }

  lemma SepSuffix(prefix: string, s: string)
    requires s == prefix + "::"
    ensures |s| >= 2 && s[|s| - 2] == ':' && s[|s| - 1] == ':' && s[..|s| - 2] == prefix
  {
  }

  lemma CharSuffix(prefix: string, name: string, s: string)
    requires |name| >= 1 && name[|name| - 1] != ':' && s == prefix + "::" + name
    ensures |s| >= 2 && !(s[|s| - 2] == ':' && s[|s| - 1] == ':')
    ensures s[..|s| - 1] == prefix + "::" + name[..|name| - 1] && s[|s| - 1] == name[|name| - 1]
    ensures name[..|name| - 1] + [name[|name| - 1]] == name
  {
    assert s[..|s| - 1] == prefix + "::" + name[..|name| - 1];
  }

  lemma ExtendLastSnoc(r: seq<string>, front: string, c: char)
    ensures var p := r + [front]; p[..|p| - 1] + [p[|p| - 1] + [c]] == r + [front + [c]]
  {
    var p := r + [front];
    assert p[..|p| - 1] == r;
  }

  /** With two separators the name is the middle piece, not the last:
      "a::b::c" names `b`. */
  lemma TwoSeparatorsNameMiddle(a: string, b: string, c: string)
    requires NoSep(a)
    requires forall i :: 0 <= i < |b| ==> b[i] != ':'
    requires forall i :: 0 <= i < |c| ==> c[i] != ':'
    ensures RSplit(a + "::" + b + "::" + c) == [a, b, c]
    ensures NameFromTypeInfo(a + "::" + b + "::" + c) == Some(b)
  {
    QualifiedNameSplits(a, b);
    RSplitAppend(a + "::" + b, c);
  }

  /** The name part of a toolkit type string: the second piece of
      `rsplit('::')`, and no name at all when there is no "::". */
  function NameFromTypeInfo(info: string): (r: Option<string>)
    ensures r.None? <==> NoSep(info)
  {
    RSplitSingle(info);
    var pieces := RSplit(info);
    if |pieces| >= 2 then Some(pieces[1]) else None
  }

  /** A type string "prefix::Name" with one separator yields `Name`. */
  lemma {:induction false} QualifiedNameSplits(prefix: string, name: string)
    requires NoSep(prefix)
    requires forall i :: 0 <= i < |name| ==> name[i] != ':'
    ensures RSplit(prefix + "::" + name) == [prefix, name]
    ensures NameFromTypeInfo(prefix + "::" + name) == Some(name)
    decreases |name|
  {
    var s := prefix + "::" + name;
    if name == [] {
      assert s[..|s| - 2] == prefix;
      RSplitSingle(prefix);
      RSplitJoin(prefix);
    } else {
      var front := name[..|name| - 1];
      QualifiedNameSplits(prefix, front);
      assert s[..|s| - 1] == prefix + "::" + front;
      assert !(s[|s| - 2] == ':' && s[|s| - 1] == ':') by { assert s[|s| - 1] == name[|name| - 1]; }
      var p := RSplit(s[..|s| - 1]);
      assert p == [prefix, front];
      assert RSplit(s) == [prefix, front + [name[|name| - 1]]];
      assert front + [name[|name| - 1]] == name;
    }
  }

  /** The type string of a text item names the text kind. */
  lemma TextTypeInfoExample()
    ensures NameFromTypeInfo("mvAppItemType::mvText") == Some("mvText")
    ensures ItemTypeLookup("mvText") == Some(Text)
  {
    var prefix, name := "mvAppItemType", "mvText";
    assert NoSep(prefix);
    QualifiedNameSplits(prefix, name);
    assert prefix + "::" + name == "mvAppItemType::mvText";
    ItemTypeLookupInverse(name, Text);
  }
}
