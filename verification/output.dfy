/** The palette block of the conversion's output: which lines it holds for
    the palettes `parse_iterm_colors` produces, as written and corrected. */
module Output {
  import opened Wrappers
  import opened Hex
  import opened ColorDict
  import opened Palette
  import opened Convert
  import opened Corrected
  import opened Render

  /** The as-written palette can be spelled out: it has no `none` entry. */
  lemma AsWrittenRenderable(cs: seq<Element>, toSrgb: Rgb -> Rgb)
    ensures Renderable(ParseItermColors(cs, toSrgb))
  {
  }

  /** The corrected palette can be spelled out too: `none` holds the sentinel. */
  lemma FixedRenderable(cs: seq<Element>, toSrgb: Rgb -> Rgb)
    ensures Renderable(ParseItermColorsFixed(cs, toSrgb))
  {
    ParseFixedAddsLiterals(cs, toSrgb);
    WithLiteralsRenderable(ParseItermColors(cs, toSrgb));
  }

  /** Storing `white` and the sentinel keeps a well-formed palette renderable. */
  lemma WithLiteralsRenderable(p: Palette)
    requires WellFormed(p)
    ensures Renderable(p["white" := "#fdfdfe"]["none" := "NONE"])
  {
    var q := p["white" := "#fdfdfe"]["none" := "NONE"];
    forall k | k in q
      ensures k == "none" ==> q[k] == "NONE"
      ensures k != "none" ==> IsHexColor(q[k])
    {
      if k == "white" {
        assert IsHexColor("#fdfdfe");
      } else if k != "none" {
        assert q[k] == p[k];
      }
    }
  }

  /** In the as-written output the `none` branch of the renderer never runs:
      every line of the block is an ordinary `['#rrggbb',   'NONE']` line. */
  lemma AsWrittenBlockOrdinary(cs: seq<Element>, toSrgb: Rgb -> Rgb, names: seq<string>, lines: seq<string>)
    requires forall k :: k in names <==> k in ParseItermColors(cs, toSrgb)
    requires |lines| == |names|
    requires forall i :: 0 <= i < |lines| ==>
               lines[i] == RenderLine(names[i], ParseItermColors(cs, toSrgb)[names[i]], i == |lines| - 1)
    ensures forall i :: 0 <= i < |lines| ==>
              names[i] != "none" &&
              lines[i] == LinePrefix + names[i] + EntryTail(ParseItermColors(cs, toSrgb)[names[i]], i == |lines| - 1)
  {
    forall i | 0 <= i < |lines|
      ensures names[i] != "none"
    {
      assert names[i] in names;
    }
  }

  /** In the corrected output the block holds a `none` line, in the sentinel
      spelling `['NONE',      'NONE']`. */
  lemma FixedBlockHasSentinel(cs: seq<Element>, toSrgb: Rgb -> Rgb, names: seq<string>, lines: seq<string>)
    requires forall k :: k in names <==> k in ParseItermColorsFixed(cs, toSrgb)
    requires |lines| == |names|
    requires forall i :: 0 <= i < |lines| ==>
               lines[i] == RenderLine(names[i], ParseItermColorsFixed(cs, toSrgb)[names[i]], i == |lines| - 1)
    ensures exists i :: 0 <= i < |lines| && names[i] == "none" && lines[i] == LinePrefix + "none" + NoneTail(i == |lines| - 1)
  {
    ParseFixedAddsLiterals(cs, toSrgb);
    assert "none" in names;
    var i :| 0 <= i < |names| && names[i] == "none";
  }

  /** End to end, as written: the block of the converted palette reads back
      line by line as the palette's entries, in sorted order. */
  method RenderConverted(cs: seq<Element>, toSrgb: Rgb -> Rgb) returns (names: seq<string>, lines: seq<string>)
    ensures Sorted(names)
    ensures forall k :: k in names <==> k in ParseItermColors(cs, toSrgb)
    ensures |lines| == |names|
    ensures forall i :: 0 <= i < |lines| ==>
              ParseLine(lines[i]) == Some(Entry(names[i], ParseItermColors(cs, toSrgb)[names[i]], i == |lines| - 1))
  {
    var p := ParseItermColors(cs, toSrgb);
    names, lines := RenderPalette(p);
    AsWrittenRenderable(cs, toSrgb);
    BlockReadsBack(p, names, lines);
  }

  /** When the names are sorted, as `RenderPalette` lists them, that `none`
      line is the only one. */
  lemma FixedBlockSentinelOnce(cs: seq<Element>, toSrgb: Rgb -> Rgb, names: seq<string>, lines: seq<string>)
    requires Sorted(names)
    requires forall k :: k in names <==> k in ParseItermColorsFixed(cs, toSrgb)
    requires |lines| == |names|
    requires forall i :: 0 <= i < |lines| ==>
               lines[i] == RenderLine(names[i], ParseItermColorsFixed(cs, toSrgb)[names[i]], i == |lines| - 1)
    ensures exists i :: 0 <= i < |lines| && names[i] == "none" && lines[i] == LinePrefix + "none" + NoneTail(i == |lines| - 1)
              && forall j :: 0 <= j < |names| && names[j] == "none" ==> j == i
  {
    FixedBlockHasSentinel(cs, toSrgb, names, lines);
    var i :| 0 <= i < |lines| && names[i] == "none" && lines[i] == LinePrefix + "none" + NoneTail(i == |lines| - 1);
    forall j | 0 <= j < |names| && names[j] == "none"
      ensures j == i
    {
      if j != i {
        var a, b := if j < i then j else i, if j < i then i else j;
        assert Less(names[a], names[b]);
        LessIrreflexive("none");
        assert false;
      }
    }
  }
}
