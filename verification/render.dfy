/** The palette block of `generate_vim_colorscheme`: the entries sorted by
    name, one line each, with a comma after every line but the last, and the
    `none` entry spelled as the `NONE` sentinel. */
module Render {
  import opened Wrappers
  import opened Hex
  import opened Palette

  /** Python's `<` on `str`: lexicographic order on code points, a proper
      prefix coming first. */
  predicate Less(a: string, b: string)
    decreases |a|
  {
    |b| > 0 && (|a| == 0 || a[0] < b[0] || (a[0] == b[0] && Less(a[1..], b[1..])))
  }

  lemma {:induction false} LessIrreflexive(a: string)
    ensures !Less(a, a)
    decreases |a|
  {
    if |a| > 0 {
      LessIrreflexive(a[1..]);
    }
  }

  lemma {:induction false} LessTransitive(a: string, b: string, c: string)
    requires Less(a, b) && Less(b, c)
    ensures Less(a, c)
    decreases |a|
  {
    if |a| > 0 && a[0] == b[0] && b[0] == c[0] {
      LessTransitive(a[1..], b[1..], c[1..]);
    }
  }

  lemma {:induction false} LessTotal(a: string, b: string)
    requires a != b
    ensures Less(a, b) || Less(b, a)
    decreases |a|
  {
    if |a| > 0 && |b| > 0 && a[0] == b[0] {
      assert a == [a[0]] + a[1..] && b == [b[0]] + b[1..];
      LessTotal(a[1..], b[1..]);
    }
  }

  lemma LessAsymmetric(a: string, b: string)
    requires Less(a, b)
    ensures !Less(b, a)
  {
    if Less(b, a) {
      LessTransitive(a, b, a);
      LessIrreflexive(a);
    }
  }

  /** Strictly increasing names: sorted, and so without repeats. */
  ghost predicate Sorted(s: seq<string>) {
    forall i, j :: 0 <= i < j < |s| ==> Less(s[i], s[j])
  }

  /** Inserting a name into sorted names keeps them sorted, adds exactly that
      name, and adds it only when it is new. */
  function Insert(s: seq<string>, x: string): (r: seq<string>)
    requires Sorted(s)
    ensures Sorted(r)
    ensures forall y :: y in r <==> y in s || y == x
    ensures |r| == if x in s then |s| else |s| + 1
    decreases |s|
  {
    if |s| == 0 then [x]
    else if x == s[0] then s
    else if Less(x, s[0]) then
      InsertFront(s, x);
      [x] + s
    else
      var t := Insert(s[1..], x);
      InsertLater(s, x, t);
      [s[0]] + t
  }

  lemma InsertFront(s: seq<string>, x: string)
    requires Sorted(s) && |s| > 0 && Less(x, s[0])
    ensures Sorted([x] + s)
    ensures x !in s
  {
    forall j | 0 <= j < |s|
      ensures Less(x, s[j])
    {
      if j > 0 {
        LessTransitive(x, s[0], s[j]);
      }
    }
    forall j | 0 <= j < |s|
      ensures s[j] != x
    {
      if s[j] == x {
        LessIrreflexive(x);
      }
    }
  }

  lemma InsertLater(s: seq<string>, x: string, t: seq<string>)
    requires Sorted(s) && |s| > 0 && x != s[0] && !Less(x, s[0])
    requires Sorted(t) && forall y :: y in t <==> y in s[1..] || y == x
    ensures Sorted([s[0]] + t)
    ensures x in s <==> x in s[1..]
  {
    LessTotal(x, s[0]);
    assert s == [s[0]] + s[1..];
    forall j | 0 <= j < |t|
      ensures Less(s[0], t[j])
    {
      assert t[j] in t;
      if t[j] != x {
        var i :| 0 <= i < |s[1..]| && s[1..][i] == t[j];
        assert s[i + 1] == t[j];
      }
    }
  }

  /** Sorted names are determined by the set they hold: the order in which
      the palette was built does not show in the output. */
  lemma {:induction false} SortedUnique(a: seq<string>, b: seq<string>)
    requires Sorted(a) && Sorted(b)
    requires forall y :: y in a <==> y in b
    ensures a == b
    decreases |a|
  {
    if |a| == 0 {
      NoMembers(b);
    } else {
      assert a[0] in b;
      assert |b| > 0;
      assert b[0] in a;
      if a[0] != b[0] {
        var i :| 0 <= i < |a| && a[i] == b[0];
        var j :| 0 <= j < |b| && b[j] == a[0];
        assert Less(a[0], b[0]);
        assert Less(b[0], a[0]);
        LessAsymmetric(a[0], b[0]);
      }
      forall y
        ensures y in a[1..] <==> y in b[1..]
      {
        TailMembers(a, y);
        TailMembers(b, y);
      }
      SortedUnique(a[1..], b[1..]);
      assert a == [a[0]] + a[1..] && b == [b[0]] + b[1..];
    }
  }

  lemma NoMembers(s: seq<string>)
    ensures (forall y :: y !in s) ==> s == []
  {
    if s != [] {
      assert s[0] in s;
    }
  }

  /** In sorted names, the tail holds every name but the head. */
  lemma TailMembers(s: seq<string>, y: string)
    requires Sorted(s) && |s| > 0
    ensures y in s[1..] <==> y in s && y != s[0]
  {
    if y in s[1..] {
      var i :| 0 <= i < |s[1..]| && s[1..][i] == y;
      assert Less(s[0], s[i + 1]);
      LessIrreflexive(y);
    }
    if y in s && y != s[0] {
      var i :| 0 <= i < |s| && s[i] == y;
      assert s[1..][i - 1] == y;
    }
  }

  /** `sorted(colors.items())`, keys only: every palette name exactly once, in
      increasing order. */
  method SortedNames(m: Palette) returns (names: seq<string>)
    ensures Sorted(names)
    ensures forall k :: k in names <==> k in m
    ensures |names| == |m|
  {
    names := [];
    var rest := m.Keys;
    while rest != {}
      invariant rest <= m.Keys
      invariant Sorted(names)
      invariant forall k :: k in names <==> k in m && k !in rest
      invariant |names| + |rest| == |m.Keys|
      decreases |rest|
    {
      var k :| k in rest;
      names := Insert(names, k);
      rest := rest - {k};
    }
  }

  /** The 18 spaces after the name in every palette line. */
  const Pad: string := "                  "

  /** `comma = "," if i < len(colors) - 1 else ""`. */
  function Comma(last: bool): string {
    if last then "" else ","
  }

  /** The text after the opening quote of a palette line's name. */
  const LinePrefix: string := "  \\ '"

  /** What follows the name in an ordinary line. */
  function EntryTail(value: string, last: bool): string {
    "':" + Pad + "['" + value + "'," + "   " + "'NONE']" + Comma(last) + "\n"
  }

  /** What follows the name in the `none` line. */
  function NoneTail(last: bool): string {
    "':" + Pad + "['NONE'," + "      " + "'NONE']" + Comma(last) + "\n"
  }

  /** One line of the palette block. */
  function RenderLine(name: string, value: string, last: bool): (line: string)
    ensures |line| > 2
    ensures line[|line| - 1] == '\n'
    ensures line[|line| - 2] == ',' <==> !last
  {
    if name == "none" then LinePrefix + "none" + NoneTail(last)
    else LinePrefix + name + EntryTail(value, last)
  }

  /** The palette block, line by line: the sorted names and, for each, its
      line, the last one without a comma. */
  method RenderPalette(m: Palette) returns (names: seq<string>, lines: seq<string>)
    ensures Sorted(names)
    ensures forall k :: k in names <==> k in m
    ensures |lines| == |names| == |m|
    ensures forall i :: 0 <= i < |lines| ==> lines[i] == RenderLine(names[i], m[names[i]], i == |lines| - 1)
  {
    names := SortedNames(m);
    lines := [];
    var i := 0;
    while i < |names|
      invariant 0 <= i <= |names|
      invariant |lines| == i
      invariant forall j :: 0 <= j < i ==> names[j] in m && lines[j] == RenderLine(names[j], m[names[j]], j == |names| - 1)
    {
      assert names[i] in names;
      lines := lines + [RenderLine(names[i], m[names[i]], i == |names| - 1)];
      i := i + 1;
    }
  }

  /** One palette line read back. */
  datatype Entry = Entry(name: string, value: string, last: bool)

  /** Both tails are 42 characters long, plus the comma. */
  function TailLength(last: bool): nat {
    if last then 42 else 43
  }

  /** Reads a palette line back into its name, value and whether it was last:
      the comma before the newline tells whether the line was last, that fixes
      the length of the tail, and the name is what lies between prefix and
      tail. */
  function ParseLine(line: string): (e: Option<Entry>)
    ensures e.Some? ==> RenderLine(e.value.name, e.value.value, e.value.last) == line
  {
    var last := !(|line| >= 2 && line[|line| - 2] == ',');
    var n := TailLength(last);
    if |line| < |LinePrefix| + n || line[..|LinePrefix|] != LinePrefix then None
    else
      var name := line[|LinePrefix|..|line| - n];
      var tail := line[|line| - n..];
      assert line == LinePrefix + name + tail;
      ParseTail(name, tail)
  }

  /** The part of a line after the name: the seven-character value of an
      ordinary line, or `NONE` for the `none` line, and the comma. */
  function ParseTail(name: string, tail: string): (e: Option<Entry>)
    ensures e.Some? ==> e.value.name == name
    ensures e.Some? ==> RenderLine(name, e.value.value, e.value.last) == LinePrefix + name + tail
  {
    if name == "none" then
      if tail == NoneTail(false) then Some(Entry(name, "NONE", false))
      else if tail == NoneTail(true) then Some(Entry(name, "NONE", true))
      else None
    else if |tail| < 29 then None
    else if tail == EntryTail(tail[22..29], false) then Some(Entry(name, tail[22..29], false))
    else if tail == EntryTail(tail[22..29], true) then Some(Entry(name, tail[22..29], true))
    else None
  }

  /** Rendering then reading a line gives the entry back, for a value that
      is a palette string, or `NONE` under `none`. */
  lemma ParseRenderLine(name: string, value: string, last: bool)
    requires name == "none" ==> value == "NONE"
    requires name != "none" ==> |value| == 7
    ensures ParseLine(RenderLine(name, value, last)) == Some(Entry(name, value, last))
  {
    var tail := if name == "none" then NoneTail(last) else EntryTail(value, last);
    SplitAtTail(name, tail, last);
    ParseRenderTail(name, value, last);
  }

  /** A line made of the prefix, a name and a tail of the right length for
      its comma is read by `ParseTail` on that name and tail. */
  lemma SplitAtTail(name: string, tail: string, last: bool)
    requires |tail| == TailLength(last) && tail[|tail| - 1] == '\n'
    requires tail[|tail| - 2] == ',' <==> !last
    ensures ParseLine(LinePrefix + name + tail) == ParseTail(name, tail)
  {
    var line := LinePrefix + name + tail;
    assert line[|line| - 2] == tail[|tail| - 2];
    assert line[..|LinePrefix|] == LinePrefix;
    assert line[|LinePrefix|..|line| - |tail|] == name;
    assert line[|line| - |tail|..] == tail;
  }

  lemma ParseRenderTail(name: string, value: string, last: bool)
    requires name == "none" ==> value == "NONE"
    requires name != "none" ==> |value| == 7
    ensures ParseTail(name, if name == "none" then NoneTail(last) else EntryTail(value, last)) == Some(Entry(name, value, last))
  {
    if name != "none" {
      var tail := EntryTail(value, last);
      assert |tail| == TailLength(last);
      assert tail[22..29] == value;
      if last {
        assert |EntryTail(value, false)| == 43;
      }
    } else if last {
      assert |NoneTail(true)| == 42 && |NoneTail(false)| == 43;
    }
  }

  /** A palette the block can spell out faithfully: `none` holds the sentinel, and every other name a `#rrggbb` string. */
  ghost predicate Renderable(m: Palette) {
    forall k :: k in m ==>
      && (k == "none" ==> m[k] == "NONE")
      && (k != "none" ==> IsHexColor(m[k]))
  }

  /** Every line of the block of a renderable palette reads back as its
      entry, with only the last line marked last. */
  lemma BlockReadsBack(m: Palette, names: seq<string>, lines: seq<string>)
    requires Renderable(m)
    requires forall k :: k in names <==> k in m
    requires |lines| == |names|
    requires forall i :: 0 <= i < |lines| ==> lines[i] == RenderLine(names[i], m[names[i]], i == |lines| - 1)
    ensures forall i :: 0 <= i < |lines| ==> ParseLine(lines[i]) == Some(Entry(names[i], m[names[i]], i == |lines| - 1))
  {
    forall i | 0 <= i < |lines|
      ensures ParseLine(lines[i]) == Some(Entry(names[i], m[names[i]], i == |lines| - 1))
    {
      assert names[i] in names;
      ParseRenderLine(names[i], m[names[i]], i == |lines| - 1);
    }
  }
}
