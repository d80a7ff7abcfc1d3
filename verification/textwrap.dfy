/** Re-wrapping a text to a width (`_get_wrapped_text`). Character widths
    come from the font, given here as a function. */
module TextWrap {
  import opened Base

  /** The running width just before character `i`: the widths since the last
      line break, where a break resets the count to 0. */
  function WidthBefore(text: string, wrap: int, width: char -> nat, i: nat): nat
    requires i <= |text|
  {
    if i == 0 then 0
    else
      var s := WidthBefore(text, wrap, width, i - 1) + width(text[i - 1]);
      if text[i - 1] == '\n' || (wrap != 0 && s > wrap) then 0 else s
  }

  /** Character `i` is pushed to a new line: it is not a newline itself, a
      width is set, and counting it takes the running width past that width. */
  predicate IsWidthBreak(text: string, wrap: int, width: char -> nat, i: nat)
    requires i < |text|
  {
    text[i] != '\n' && wrap != 0 && WidthBefore(text, wrap, width, i) + width(text[i]) > wrap
  }

  /** The wrapped form of the first `i` characters: each character, with a
      '\n' put in front of it when it is a width break. */
  function WrappedPrefix(text: string, wrap: int, width: char -> nat, i: nat): string
    requires i <= |text|
  {
    if i == 0 then ""
    else
      WrappedPrefix(text, wrap, width, i - 1)
      + (if IsWidthBreak(text, wrap, width, i - 1) then "\n" else "")
      + [text[i - 1]]
  }

  /** The wrapped text. */
  function Wrapped(text: string, wrap: int, width: char -> nat): string
  {
    WrappedPrefix(text, wrap, width, |text|)
  }

  /** `_get_wrapped_text`: cut the text into lines at each '\n' (which is
      consumed) and before each width break, then join the lines with '\n'. */
  method WrapText(text: string, wrap: int, width: char -> nat) returns (out: string)
    ensures out == Wrapped(text, wrap, width)
  {
    var size: nat, start := 0, 0;
    var lines: seq<string> := [];
    for i := 0 to |text|
      invariant start <= i
      invariant size == WidthBefore(text, wrap, width, i)
      invariant Join(lines + [text[start..i]], "\n") == WrappedPrefix(text, wrap, width, i)
    {
      var c := text[i];
      size := size + width(c);
      if c == '\n' || (wrap != 0 && size > wrap) {
        if c == '\n' {
          WrapNewlineStep(text, wrap, width, lines, start, i);
        } else {
          WrapBreakStep(text, wrap, width, lines, start, i);
        }
        lines := lines + [text[start..i]];
        start := if c == '\n' then i + 1 else i;
        size := 0;
      } else {
        WrapExtendStep(text, wrap, width, lines, start, i);
      }
    }
    assert text[start..] == text[start..|text|];
    out := Join(lines + [text[start..]], "\n");
  }

  /** One more character of the wrapped prefix. */
  lemma WrappedPrefixNext(text: string, wrap: int, width: char -> nat, i: nat)
    requires i < |text|
    ensures WrappedPrefix(text, wrap, width, i + 1)
            == WrappedPrefix(text, wrap, width, i) + (if IsWidthBreak(text, wrap, width, i) then "\n" else "") + [text[i]]
  {
  }

  /** A '\n' in the input closes the current line and is consumed. */
  lemma WrapNewlineStep(text: string, wrap: int, width: char -> nat, lines: seq<string>, start: nat, i: nat)
    requires start <= i < |text| && text[i] == '\n'
    requires Join(lines + [text[start..i]], "\n") == WrappedPrefix(text, wrap, width, i)
    ensures Join(lines + [text[start..i]] + [text[i + 1..i + 1]], "\n") == WrappedPrefix(text, wrap, width, i + 1)
  {
    WrappedPrefixNext(text, wrap, width, i);
    JoinSnocEq(lines + [text[start..i]], lines + [text[start..i]] + [text[i + 1..i + 1]],
      WrappedPrefix(text, wrap, width, i), WrappedPrefix(text, wrap, width, i + 1), "\n", text[i + 1..i + 1]);
  }

  /** A width break closes the current line; the breaking character starts
      the next one. */
  lemma WrapBreakStep(text: string, wrap: int, width: char -> nat, lines: seq<string>, start: nat, i: nat)
    requires start <= i < |text| && text[i] != '\n' && IsWidthBreak(text, wrap, width, i)
    requires Join(lines + [text[start..i]], "\n") == WrappedPrefix(text, wrap, width, i)
    ensures Join(lines + [text[start..i]] + [text[i..i + 1]], "\n") == WrappedPrefix(text, wrap, width, i + 1)
  {
    WrappedPrefixNext(text, wrap, width, i);
    assert text[i..i + 1] == [text[i]];
    JoinSnocEq(lines + [text[start..i]], lines + [text[start..i]] + [text[i..i + 1]],
      WrappedPrefix(text, wrap, width, i), WrappedPrefix(text, wrap, width, i + 1), "\n", text[i..i + 1]);
  }

  /** Any other character extends the current line. */
  lemma WrapExtendStep(text: string, wrap: int, width: char -> nat, lines: seq<string>, start: nat, i: nat)
    requires start <= i < |text| && !IsWidthBreak(text, wrap, width, i)
    requires Join(lines + [text[start..i]], "\n") == WrappedPrefix(text, wrap, width, i)
    ensures Join(lines + [text[start..i + 1]], "\n") == WrappedPrefix(text, wrap, width, i + 1)
  {
    var before := lines + [text[start..i]];
    WrappedPrefixNext(text, wrap, width, i);
    assert before[..|before| - 1] == lines;
    assert text[start..i] + [text[i]] == text[start..i + 1];
    JoinExtendLastEq(before, lines + [text[start..i + 1]],
      WrappedPrefix(text, wrap, width, i), WrappedPrefix(text, wrap, width, i + 1), "\n", [text[i]]);
  }

  // ---------------------------------------------------------------------
  // What the wrapping does to the text

  /** Number of width breaks among the first `i` characters. */
  function BreaksBefore(text: string, wrap: int, width: char -> nat, i: nat): nat
    requires i <= |text|
  {
    if i == 0 then 0
    else BreaksBefore(text, wrap, width, i - 1) + (if IsWidthBreak(text, wrap, width, i - 1) then 1 else 0)
  }

  lemma {:induction false} BreaksBeforeMonotone(text: string, wrap: int, width: char -> nat, i: nat, j: nat)
    requires i <= j <= |text|
    ensures BreaksBefore(text, wrap, width, i) <= BreaksBefore(text, wrap, width, j)
    decreases j
  {
    if i < j {
      BreaksBeforeMonotone(text, wrap, width, i, j - 1);
    }
  }

  /** Where character `k` of the input lands in the output. */
  function Image(text: string, wrap: int, width: char -> nat, k: nat): nat
    requires k < |text|
  {
    k + BreaksBefore(text, wrap, width, k + 1)
  }

  /** Wrapping only inserts newlines: the output is as long as the input plus
      one per width break, every input character (each original '\n'
      included) appears in order at its image, and a '\n' stands just before
      the image of every width break. */
  lemma {:induction false} WrappedPrefixInsertsOnly(text: string, wrap: int, width: char -> nat, i: nat)
    requires i <= |text|
    ensures |WrappedPrefix(text, wrap, width, i)| == i + BreaksBefore(text, wrap, width, i)
    ensures forall k :: 0 <= k < i ==>
              && Image(text, wrap, width, k) < |WrappedPrefix(text, wrap, width, i)|
              && WrappedPrefix(text, wrap, width, i)[Image(text, wrap, width, k)] == text[k]
    ensures forall k :: 0 <= k < i && IsWidthBreak(text, wrap, width, k) ==>
              WrappedPrefix(text, wrap, width, i)[Image(text, wrap, width, k) - 1] == '\n'
    decreases i
  {
    if i > 0 {
      WrappedPrefixInsertsOnly(text, wrap, width, i - 1);
      var prev := WrappedPrefix(text, wrap, width, i - 1);
      var cur := WrappedPrefix(text, wrap, width, i);
      assert cur[..|prev|] == prev;
      forall k | 0 <= k < i - 1
        ensures Image(text, wrap, width, k) < |prev|
      {
        BreaksBeforeMonotone(text, wrap, width, k + 1, i - 1);
      }
    }
  }

  lemma InsertsOnly(text: string, wrap: int, width: char -> nat)
    ensures |Wrapped(text, wrap, width)| == |text| + BreaksBefore(text, wrap, width, |text|)
    ensures forall k :: 0 <= k < |text| ==>
              && Image(text, wrap, width, k) < |Wrapped(text, wrap, width)|
              && Wrapped(text, wrap, width)[Image(text, wrap, width, k)] == text[k]
    ensures forall k :: 0 <= k < |text| && IsWidthBreak(text, wrap, width, k) ==>
              Wrapped(text, wrap, width)[Image(text, wrap, width, k) - 1] == '\n'
  {
    WrappedPrefixInsertsOnly(text, wrap, width, |text|);
  }

  /** Sum of the widths of the first `i` characters. */
  function TotalWidth(text: string, width: char -> nat, i: nat): nat
    requires i <= |text|
  {
    if i == 0 then 0 else TotalWidth(text, width, i - 1) + width(text[i - 1])
  }

  lemma {:induction false} WidthBeforeAtMostTotal(text: string, wrap: int, width: char -> nat, i: nat)
    requires i <= |text|
    ensures WidthBefore(text, wrap, width, i) <= TotalWidth(text, width, i)
    decreases i
  {
    if i > 0 {
      WidthBeforeAtMostTotal(text, wrap, width, i - 1);
    }
  }

  lemma {:induction false} TotalWidthMonotone(text: string, width: char -> nat, i: nat, j: nat)
    requires i <= j <= |text|
    ensures TotalWidth(text, width, i) <= TotalWidth(text, width, j)
    decreases j
  {
    if i < j {
      TotalWidthMonotone(text, width, i, j - 1);
    }
  }

  /** Without width breaks the wrapped prefix is the prefix itself. */
  lemma {:induction false} NoBreakKeepsPrefix(text: string, wrap: int, width: char -> nat, i: nat)
    requires i <= |text|
    requires forall k :: 0 <= k < i ==> !IsWidthBreak(text, wrap, width, k)
    ensures WrappedPrefix(text, wrap, width, i) == text[..i]
    decreases i
  {
    if i > 0 {
      NoBreakKeepsPrefix(text, wrap, width, i - 1);
      assert text[..i - 1] + [text[i - 1]] == text[..i];
    }
  }

  /** With no width set (0), or when the whole text fits in the width, the
      output is the input unchanged. */
  lemma WrapIdentity(text: string, wrap: int, width: char -> nat)
    requires wrap == 0 || TotalWidth(text, width, |text|) <= wrap
    ensures Wrapped(text, wrap, width) == text
  {
    forall k | 0 <= k < |text| ensures !IsWidthBreak(text, wrap, width, k) {
      if wrap != 0 {
        WidthBeforeAtMostTotal(text, wrap, width, k);
        TotalWidthMonotone(text, width, k + 1, |text|);
      }
    }
    NoBreakKeepsPrefix(text, wrap, width, |text|);
    assert text[..|text|] == text;
  }

  /** Unit-width characters, wrap 3: "aaaa\nbb" becomes "aaa\na\nbb" — the
      fourth 'a' moves to a new line, the '\n' is kept once. */
  lemma WrapExample()
    ensures Wrapped("aaaa\nbb", 3, _ => 1) == "aaa\na\nbb"
  {
    var t, w := "aaaa\nbb", (_: char) => 1;
    assert WidthBefore(t, 3, w, 3) == 3;
    assert WidthBefore(t, 3, w, 4) == 0 && IsWidthBreak(t, 3, w, 3);
    assert WidthBefore(t, 3, w, 5) == 0 && !IsWidthBreak(t, 3, w, 4);
    assert !IsWidthBreak(t, 3, w, 5);
    assert WidthBefore(t, 3, w, 6) == 1 && !IsWidthBreak(t, 3, w, 6);
    assert WrappedPrefix(t, 3, w, 3) == "aaa";
    assert WrappedPrefix(t, 3, w, 5) == "aaa\na\n";
    assert WrappedPrefix(t, 3, w, 7) == "aaa\na\nbb";
  }

  /** The count restarts at 0, not at the width of the character that moved
      down, so with unit widths and wrap 3 the second line holds four
      characters. */
  lemma WrapResetExample()
    ensures Wrapped("aaaaaaaa", 3, _ => 1) == "aaa\naaaa\na"
  {
    var t, w := "aaaaaaaa", (_: char) => 1;
    assert WidthBefore(t, 3, w, 3) == 3;
    assert WidthBefore(t, 3, w, 4) == 0 && IsWidthBreak(t, 3, w, 3);
    assert WidthBefore(t, 3, w, 7) == 3 && !IsWidthBreak(t, 3, w, 6);
    assert IsWidthBreak(t, 3, w, 7);
    assert WrappedPrefix(t, 3, w, 3) == "aaa";
    assert WrappedPrefix(t, 3, w, 7) == "aaa\naaaa";
  }
}
