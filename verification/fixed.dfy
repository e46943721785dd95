/** `parse_iterm_colors` with the literal check of the derivation loop moved
    before the membership test, the order the `white` and `none` rules and the
    `s:palette.none` reference of the template evidently rely on. */
module Corrected {
  import opened ColorDict
  import opened Driver
  import opened Palette
  import opened Convert

  /** No role name or alias target is `white` or `none`. */
  lemma LiteralNamesNotAliased()
    ensures forall j :: 0 <= j < |SemanticAliases| ==> SemanticAliases[j].0 != "white" && SemanticAliases[j].1 != "white"
    ensures forall j :: 0 <= j < |SemanticAliases| ==> SemanticAliases[j].0 != "none" && SemanticAliases[j].1 != "none"
  {
  }

  /** The corrected derived palette. */
  function DerivedPaletteFixed(b: Palette): (m: Palette)
    requires IsBasePalette(b)
    ensures WellFormedWithSentinel(m)
  {
    DerivedRulesSafe();
    DeriveFixed(b, DerivedRules, |DerivedRules|)
  }

  /** Corrected derivation, then aliasing, of a base palette. */
  function ResolveFixed(b: Palette): (p: Palette)
    requires IsBasePalette(b)
    ensures WellFormedWithSentinel(p)
  {
    var d := DerivedPaletteFixed(b);
    AliasNamesFresh();
    AliasKeepsWellFormedWithSentinel(d, SemanticAliases);
    Alias(d, SemanticAliases, |SemanticAliases|)
  }

  /** `parse_iterm_colors` with the corrected derivation loop. */
  function ParseItermColorsFixed(cs: seq<Element>, toSrgb: Rgb -> Rgb): (p: Palette)
    ensures WellFormedWithSentinel(p)
  {
    BasePaletteWellFormed(cs, toSrgb);
    ResolveFixed(ExtractPalette(cs, toSrgb))
  }

  /** The last two rules of `derived_colors`. */
  lemma LiteralRules()
    ensures |DerivedRules| == 31
    ensures DerivedRules[29] == ("white", Literal("#fdfdfe"))
    ensures DerivedRules[30] == ("none", Literal("NONE"))
  {
  }

  /** The two literal rules store their text; everything else is what the
      as-written derivation computes. */
  lemma DerivedFixedAddsLiterals(b: Palette)
    requires IsBasePalette(b)
    ensures DerivedPaletteFixed(b) == DerivedPalette(b)["white" := "#fdfdfe"]["none" := "NONE"]
  {
    DerivedRulesSafe();
    ScalingRulesFirst();
    LiteralRules();
    DeriveFixedLastTwo(b, DerivedRules);
  }

  /** The corrected palette is the as-written one plus `white` and `none`. */
  lemma ResolveFixedAddsLiterals(b: Palette)
    requires IsBasePalette(b)
    ensures ResolveFixed(b) == Resolve(b)["white" := "#fdfdfe"]["none" := "NONE"]
  {
    var d := DerivedPalette(b);
    DerivedFixedAddsLiterals(b);
    LiteralNamesNotAliased();
    AliasUpdate(d["white" := "#fdfdfe"], SemanticAliases, |SemanticAliases|, "none", "NONE");
    AliasUpdate(d, SemanticAliases, |SemanticAliases|, "white", "#fdfdfe");
  }

  /** End to end: the corrected conversion holds `white` and the `NONE`
      sentinel, and agrees with the as-written conversion on every other name. */
  lemma ParseFixedAddsLiterals(cs: seq<Element>, toSrgb: Rgb -> Rgb)
    ensures ParseItermColorsFixed(cs, toSrgb) == ParseItermColors(cs, toSrgb)["white" := "#fdfdfe"]["none" := "NONE"]
    ensures ParseItermColorsFixed(cs, toSrgb)["white"] == "#fdfdfe"
    ensures ParseItermColorsFixed(cs, toSrgb)["none"] == "NONE"
    ensures forall k :: k != "white" && k != "none" ==>
              (k in ParseItermColorsFixed(cs, toSrgb) <==> k in ParseItermColors(cs, toSrgb))
  {
    BasePaletteWellFormed(cs, toSrgb);
    ResolveFixedAddsLiterals(ExtractPalette(cs, toSrgb));
  }
}
