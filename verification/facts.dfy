/** What the concrete tables of `parse_iterm_colors` imply for every base
    palette the driver can produce: which derived and role entries exist, and
    the values they hold. */
module Facts {
  import opened Driver
  import opened Palette
  import opened Convert

  /** A scaling rule reads its base entry from the base palette: the entry is
      derived iff that base colour was extracted, and is then scaled from it. */
  lemma ScaledFromBase(b: Palette, i: nat, name: string, rule: Rule)
    requires IsBasePalette(b) && i < |DerivedRules| && DerivedRules[i] == (name, rule)
    requires !rule.Literal? && Reference(rule) in BaseNames
    ensures name in DerivedPalette(b) <==> Reference(rule) in b
    ensures Reference(rule) in b ==>
              DerivedPalette(b)[name] == ScaleHex(b[Reference(rule)], Factors(rule).0, Factors(rule).1, Factors(rule).2)
  {
    var base := Reference(rule);
    DerivedEntry(b, i);
    var m := Derive(b, DerivedRules, i);
    assert name in DerivedPalette(b) <==> base in m;
    BaseSeenAt(b, i, base);
    if base in b {
      assert m[base] == b[base];
      assert DerivedPalette(b)[name] == ApplyRule(m, name, rule)[name];
    }
  }

  /** A scaling rule whose base is the name of an earlier rule reads that
      entry as the earlier rule left it. */
  lemma ScaledFromDerived(b: Palette, i: nat, name: string, rule: Rule, l: nat)
    requires IsBasePalette(b) && l < i < |DerivedRules| && DerivedRules[i] == (name, rule)
    requires !rule.Literal? && DerivedRules[l].0 == Reference(rule)
    ensures name in DerivedPalette(b) <==> Reference(rule) in DerivedPalette(b)
    ensures Reference(rule) in DerivedPalette(b) ==>
              DerivedPalette(b)[name] == ScaleHex(DerivedPalette(b)[Reference(rule)], Factors(rule).0, Factors(rule).1, Factors(rule).2)
  {
    var base := Reference(rule);
    DerivedEntry(b, i);
    var m := Derive(b, DerivedRules, i);
    assert name in DerivedPalette(b) <==> base in m;
    DerivedSeenAt(b, l, i);
    if base in DerivedPalette(b) {
      assert m[base] == DerivedPalette(b)[base];
      assert DerivedPalette(b)[name] == ApplyRule(m, name, rule)[name];
    }
  }

  /** A name that is not a role name reaches the final palette unchanged. */
  lemma KeptByAliasing(b: Palette, k: string)
    requires IsBasePalette(b)
    requires forall j :: 0 <= j < |SemanticAliases| ==> SemanticAliases[j].0 != k
    ensures k in Resolve(b) <==> k in DerivedPalette(b)
    ensures k in DerivedPalette(b) ==> Resolve(b)[k] == DerivedPalette(b)[k]
  {
    NotARole(DerivedPalette(b), k);
  }

  /** `orange` is scaled from `yellow`, and `orange_contrast` from `orange`
      computed earlier in the same pass; `number` copies `orange`. Without
      `yellow` none of them exists. */
  lemma OrangeChain(b: Palette)
    requires IsBasePalette(b)
    ensures "orange" in Resolve(b) <==> "yellow" in b
    ensures "orange_contrast" in Resolve(b) <==> "yellow" in b
    ensures "number" in Resolve(b) <==> "yellow" in b
    ensures "yellow" in b ==> Resolve(b)["orange"] == ScaleHex(b["yellow"], 0.9, 0.9, 0.9)
    ensures "yellow" in b ==> Resolve(b)["orange_contrast"] == ScaleHex(Resolve(b)["orange"], 0.8, 0.8, 0.8)
    ensures "yellow" in b ==> Resolve(b)["number"] == Resolve(b)["orange"]
  {
    OrangeFromYellow(b);
    OrangeContrastFromOrange(b);
    NumberIsOrange(b);
  }

  lemma OrangeFromYellow(b: Palette)
    requires IsBasePalette(b)
    ensures "orange" in Resolve(b) <==> "yellow" in b
    ensures "orange" in DerivedPalette(b) <==> "yellow" in b
    ensures "yellow" in b ==> Resolve(b)["orange"] == DerivedPalette(b)["orange"] == ScaleHex(b["yellow"], 0.9, 0.9, 0.9)
  {
    ScaledFromBase(b, 17, "orange", Scale("yellow", 0.9));
    KeptByAliasing(b, "orange");
  }

  lemma OrangeContrastFromOrange(b: Palette)
    requires IsBasePalette(b)
    ensures "orange_contrast" in Resolve(b) <==> "orange" in Resolve(b)
    ensures "orange" in Resolve(b) ==> Resolve(b)["orange_contrast"] == ScaleHex(Resolve(b)["orange"], 0.8, 0.8, 0.8)
  {
    ScaledFromDerived(b, 20, "orange_contrast", Scale("orange", 0.8), 17);
    KeptByAliasing(b, "orange");
    KeptByAliasing(b, "orange_contrast");
  }

  lemma NumberIsOrange(b: Palette)
    requires IsBasePalette(b)
    ensures "number" in Resolve(b) <==> "orange" in Resolve(b)
    ensures "orange" in Resolve(b) ==> Resolve(b)["number"] == Resolve(b)["orange"]
  {
    RoleEntry(b, 3);
    KeptByAliasing(b, "orange");
  }

  /** `yellow_contrast` exists iff `yellow` does, darkened by 0.8. */
  lemma YellowContrast(b: Palette)
    requires IsBasePalette(b)
    ensures "yellow_contrast" in Resolve(b) <==> "yellow" in b
    ensures "yellow" in b ==> Resolve(b)["yellow_contrast"] == ScaleHex(b["yellow"], 0.8, 0.8, 0.8)
  {
    ScaledFromBase(b, 22, "yellow_contrast", Scale("yellow", 0.8));
    KeptByAliasing(b, "yellow_contrast");
  }

  /** `bright_pink` scales the channels of `red_light` separately, and the two
      lighter pinks scale `bright_pink` computed earlier in the same pass. */
  lemma BrightPinkChain(b: Palette)
    requires IsBasePalette(b)
    ensures "bright_pink" in Resolve(b) <==> "red_light" in b
    ensures "bright_pink_light" in Resolve(b) <==> "red_light" in b
    ensures "bright_pink_lighter" in Resolve(b) <==> "red_light" in b
    ensures "red_light" in b ==> Resolve(b)["bright_pink"] == ScaleHex(b["red_light"], 1.0, 0.7, 0.8)
    ensures "red_light" in b ==> Resolve(b)["bright_pink_light"] == ScaleHex(Resolve(b)["bright_pink"], 1.2, 1.2, 1.2)
    ensures "red_light" in b ==> Resolve(b)["bright_pink_lighter"] == ScaleHex(Resolve(b)["bright_pink"], 1.4, 1.4, 1.4)
  {
    ScaledFromBase(b, 23, "bright_pink", PerChannel("red_light", 1.0, 0.7, 0.8));
    ScaledFromDerived(b, 24, "bright_pink_light", Scale("bright_pink", 1.2), 23);
    ScaledFromDerived(b, 25, "bright_pink_lighter", Scale("bright_pink", 1.4), 23);
    KeptByAliasing(b, "bright_pink");
    KeptByAliasing(b, "bright_pink_light");
    KeptByAliasing(b, "bright_pink_lighter");
  }

  /** Factor 1.0 round trip: `bright_yellow` is `yellow_light` exactly,
      whenever `yellow_light` exists. */
  lemma BrightYellowIsYellowLight(b: Palette)
    requires IsBasePalette(b)
    ensures "bright_yellow" in Resolve(b) <==> "yellow_light" in Resolve(b)
    ensures "yellow_light" in Resolve(b) ==> Resolve(b)["bright_yellow"] == Resolve(b)["yellow_light"]
  {
    ScaledFromBase(b, 26, "bright_yellow", Scale("yellow_light", 1.0));
    KeptByAliasing(b, "bright_yellow");
    KeptByAliasing(b, "yellow_light");
    BaseSeenAt(b, |DerivedRules|, "yellow_light");
    if "yellow_light" in b {
      ScaleHexByOne(b["yellow_light"]);
    }
  }

  /** `comment` copies `gray08` verbatim, and both exist iff `fg` was
      extracted; `gray08` is `fg` darkened by 0.6. */
  lemma CommentIsGray08(b: Palette)
    requires IsBasePalette(b)
    ensures "comment" in Resolve(b) <==> "fg" in b
    ensures "gray08" in Resolve(b) <==> "fg" in b
    ensures "fg" in b ==> Resolve(b)["gray08"] == ScaleHex(b["fg"], 0.6, 0.6, 0.6)
    ensures "fg" in b ==> Resolve(b)["comment"] == Resolve(b)["gray08"]
  {
    ScaledFromBase(b, 6, "gray08", Scale("fg", 0.6));
    KeptByAliasing(b, "gray08");
    RoleEntry(b, 1);
  }
}
