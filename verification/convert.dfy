/** `parse_iterm_colors` end to end: the base palette of the driver, then the
    `derived_colors` table, then the `semantic_colors` table, each evaluated in
    declaration order. */
module Convert {
  import opened Hex
  import opened ColorDict
  import opened Driver
  import opened Palette

  /** `derived_colors`, in declaration order. */
  const DerivedRules: seq<(string, Rule)> := [
    ("gray0e", Scale("bg", 0.8)),
    ("gray0f", Scale("bg", 0.6)),
    ("gray0c", Scale("bg", 1.2)),
    ("gray0b", Scale("gray09", 0.8)),
    ("gray0a", Scale("gray09", 1.2)),
    ("gray07", Scale("fg", 0.8)),
    ("gray08", Scale("fg", 0.6)),
    ("green_lighter", Scale("green_light", 1.2)),
    ("green_contrast", Scale("green", 0.8)),
    ("teal_lighter", Scale("teal_light", 1.2)),
    ("teal_contrast", Scale("teal", 0.8)),
    ("blue_lighter", Scale("blue_light", 1.2)),
    ("blue_contrast", Scale("blue", 0.8)),
    ("purple_lighter", Scale("purple_light", 1.2)),
    ("purple_contrast", Scale("purple", 0.8)),
    ("red_lighter", Scale("red_light", 1.2)),
    ("red_contrast", Scale("red", 0.8)),
    ("orange", Scale("yellow", 0.9)),
    ("orange_light", Scale("yellow_light", 0.9)),
    ("orange_lighter", Scale("yellow_light", 1.1)),
    ("orange_contrast", Scale("orange", 0.8)),
    ("yellow_lighter", Scale("yellow_light", 1.2)),
    ("yellow_contrast", Scale("yellow", 0.8)),
    ("bright_pink", PerChannel("red_light", 1.0, 0.7, 0.8)),
    ("bright_pink_light", Scale("bright_pink", 1.2)),
    ("bright_pink_lighter", Scale("bright_pink", 1.4)),
    ("bright_yellow", Scale("yellow_light", 1.0)),
    ("bright_yellow_light", Scale("yellow_light", 1.2)),
    ("bright_yellow_lighter", Scale("yellow_light", 1.4)),
    ("white", Literal("#fdfdfe")),
    ("none", Literal("NONE"))
  ]

  /** `semantic_colors`, in declaration order: role name, then target name. */
  const SemanticAliases: seq<(string, string)> := [
    ("punctuation", "fg"),
    ("comment", "gray08"),
    ("keyword", "purple"),
    ("number", "orange"),
    ("property", "blue"),
    ("variable", "blue"),
    ("function", "blue"),
    ("string", "green"),
    ("type", "teal"),
    ("class", "teal"),
    ("regexp", "red"),
    ("important", "red"),
    ("url", "blue_light"),
    ("line", "gray0b")
  ]

  lemma DerivedNamesNotLiteral()
    ensures forall i :: 0 <= i < |DerivedRules| ==> !IsLiteralText(DerivedRules[i].0)
  {
  }

  lemma DerivedBasesNotLiteral()
    ensures forall i :: 0 <= i < |DerivedRules| && !DerivedRules[i].1.Literal? ==> !IsLiteralText(Reference(DerivedRules[i].1))
  {
  }

  lemma DerivedLiteralValues()
    ensures forall i :: 0 <= i < |DerivedRules| && DerivedRules[i].1.Literal? ==> IsPaletteValue(DerivedRules[i].1.value)
  {
    assert IsHexColor("#fdfdfe");
    assert forall i :: 0 <= i < |DerivedRules| && DerivedRules[i].1.Literal? ==> i == 29 || i == 30;
  }

  /** The table satisfies what derivation needs: no name or base looks like
      literal text, the two literals are a palette string and `NONE`, and the
      literals come last. */
  lemma DerivedRulesSafe()
    ensures SafeRules(DerivedRules)
    ensures LiteralsLast(DerivedRules)
  {
    DerivedNamesNotLiteral();
    DerivedBasesNotLiteral();
    DerivedLiteralValues();
    ScalingRulesFirst();
    forall i, j | 0 <= i < j < |DerivedRules| && DerivedRules[i].1.Literal?
      ensures DerivedRules[j].1.Literal?
    {
      assert 29 <= i && j == 30;
    }
  }

  /** The first 29 rules of `derived_colors` scale; only the last two are literals. */
  lemma ScalingRulesFirst()
    ensures |DerivedRules| == 31
    ensures forall j :: 0 <= j < 29 ==> !DerivedRules[j].1.Literal?
    ensures DerivedRules[29].1.Literal? && DerivedRules[30].1.Literal?
  {
  }

  /** Derived names are distinct. */
  lemma DerivedNamesDistinct()
    ensures forall i, j :: 0 <= i < j < |DerivedRules| ==> DerivedRules[i].0 != DerivedRules[j].0
  {
    DerivedNamesDistinctBelow16();
    DerivedNamesDistinctBelow24();
    DerivedNamesDistinctFrom24();
  }

  lemma DerivedNamesDistinctBelow16()
    ensures forall i, j :: 0 <= i < j < 16 ==> DerivedRules[i].0 != DerivedRules[j].0
  {
  }

  lemma DerivedNamesDistinctBelow24()
    ensures forall i, j :: 0 <= i < j && 16 <= j < 24 ==> DerivedRules[i].0 != DerivedRules[j].0
  {
  }

  lemma DerivedNamesDistinctFrom24()
    ensures forall i, j :: 0 <= i < j && 24 <= j < |DerivedRules| ==> DerivedRules[i].0 != DerivedRules[j].0
  {
  }

  /** No derived name is a base name or a role name. */
  lemma DerivedNamesFresh()
    ensures forall i :: 0 <= i < |DerivedRules| ==> DerivedRules[i].0 !in BaseNames
    ensures forall i, j :: 0 <= i < |SemanticAliases| && 0 <= j < |DerivedRules| ==> SemanticAliases[i].0 != DerivedRules[j].0
  {
    DerivedNamesNotBase();
  }

  lemma DerivedNamesNotBase()
    ensures forall i :: 0 <= i < |DerivedRules| ==> DerivedRules[i].0 !in BaseNames
  {
  }

  /** Role names are distinct, no base name, never literal text, and never the
      target of an alias. */
  lemma AliasNamesFresh()
    ensures forall i, j :: 0 <= i < j < |SemanticAliases| ==> SemanticAliases[i].0 != SemanticAliases[j].0
    ensures forall i :: 0 <= i < |SemanticAliases| ==> SemanticAliases[i].0 !in BaseNames
    ensures forall i :: 0 <= i < |SemanticAliases| ==> !IsLiteralText(SemanticAliases[i].0)
    ensures forall i, j :: 0 <= i < |SemanticAliases| && 0 <= j < |SemanticAliases| ==> SemanticAliases[i].0 != SemanticAliases[j].1
  {
    AliasNamesDistinct();
    AliasNamesNotBase();
    AliasNamesNotTargets();
  }

  lemma AliasNamesDistinct()
    ensures forall i, j :: 0 <= i < j < |SemanticAliases| ==> SemanticAliases[i].0 != SemanticAliases[j].0
  {
  }

  lemma AliasNamesNotBase()
    ensures forall i :: 0 <= i < |SemanticAliases| ==> SemanticAliases[i].0 !in BaseNames
  {
  }

  lemma AliasNamesNotTargets()
    ensures forall i, j :: 0 <= i < |SemanticAliases| && 0 <= j < |SemanticAliases| ==> SemanticAliases[i].0 != SemanticAliases[j].1
  {
  }

  /** What the driver can produce: a well-formed palette over the base names. */
  ghost predicate IsBasePalette(b: Palette) {
    WellFormed(b) && b.Keys <= BaseNames
  }

  /** A base palette never holds a name that looks like literal text. */
  lemma BasePaletteWellFormed(cs: seq<Element>, toSrgb: Rgb -> Rgb)
    ensures IsBasePalette(ExtractPalette(cs, toSrgb))
  {
    assert forall k :: k in BaseNames ==> !IsLiteralText(k);
  }

  /** The palette after derivation, before aliasing. */
  function DerivedPalette(b: Palette): (m: Palette)
    requires IsBasePalette(b)
    ensures WellFormed(m)
  {
    DerivedRulesSafe();
    Derive(b, DerivedRules, |DerivedRules|)
  }

  /** Derivation, then aliasing, of a base palette. Every value is a `#rrggbb`
      string, the base entries come through untouched, and the two literal
      rules never add their names. */
  function Resolve(b: Palette): (p: Palette)
    requires IsBasePalette(b)
    ensures WellFormed(p)
    ensures forall k :: k in b ==> k in p && p[k] == b[k]
    ensures "white" !in p && "none" !in p
  {
    var d := DerivedPalette(b);
    AliasNamesFresh();
    AliasKeepsWellFormed(d, SemanticAliases);
    BaseEntriesKept(b);
    LiteralRulesDead(b);
    Alias(d, SemanticAliases, |SemanticAliases|)
  }

  /** `parse_iterm_colors`, as written: the driver's base palette, resolved. */
  function ParseItermColors(cs: seq<Element>, toSrgb: Rgb -> Rgb): (p: Palette)
    ensures WellFormed(p)
    ensures forall k :: k in ExtractPalette(cs, toSrgb) ==> k in p && p[k] == ExtractPalette(cs, toSrgb)[k]
    ensures "white" !in p && "none" !in p
  {
    BasePaletteWellFormed(cs, toSrgb);
    Resolve(ExtractPalette(cs, toSrgb))
  }

  /** Derivation and aliasing never change or drop a base entry. */
  lemma BaseEntriesKept(b: Palette)
    requires IsBasePalette(b)
    ensures forall k :: k in b ==>
              k in Alias(DerivedPalette(b), SemanticAliases, |SemanticAliases|) &&
              Alias(DerivedPalette(b), SemanticAliases, |SemanticAliases|)[k] == b[k]
  {
    DerivedRulesSafe();
    DerivedNamesNotBase();
    AliasNamesFresh();
    forall k | k in b
      ensures k in DerivedPalette(b) && DerivedPalette(b)[k] == b[k]
    {
      DeriveFrame(b, DerivedRules, 0, |DerivedRules|, k);
    }
  }

  /** Line 241 of `convert_iterm2_to_vim.py` tests the literal's text for
      membership before line 245 checks for a literal, and no palette name is
      literal text: `white` and `none` are never added. */
  lemma LiteralRulesDead(b: Palette)
    requires IsBasePalette(b)
    ensures "white" !in Alias(DerivedPalette(b), SemanticAliases, |SemanticAliases|)
    ensures "none" !in Alias(DerivedPalette(b), SemanticAliases, |SemanticAliases|)
  {
    LiteralNeverDerived(b, 29);
    LiteralNeverDerived(b, 30);
    var d := DerivedPalette(b);
    NotAliased(d, "white");
    NotAliased(d, "none");
  }

  /** Aliasing adds role names only. */
  lemma NotAliased(m: Palette, k: string)
    requires k !in m
    requires forall j :: 0 <= j < |SemanticAliases| ==> SemanticAliases[j].0 != k
    ensures k !in Alias(m, SemanticAliases, |SemanticAliases|)
  {
  }

  /** Derivation never adds the name of a literal rule to a base palette. */
  lemma LiteralNeverDerived(b: Palette, i: nat)
    requires IsBasePalette(b)
    requires i < |DerivedRules| && DerivedRules[i].1.Literal?
    ensures DerivedRules[i].0 !in DerivedPalette(b)
  {
    DerivedRulesSafe();
    DerivedNamesDistinct();
    DerivedNamesNotBase();
    RuleOutcome(b, DerivedRules, i);
    assert IsLiteralText(Reference(DerivedRules[i].1));
  }

  /** Rule `i` of the table sees the palette the rules before it built: its
      name is in the derived palette iff its reference was present at its
      turn, and then holds the value computed from it. */
  lemma DerivedEntry(b: Palette, i: nat)
    requires IsBasePalette(b) && i < |DerivedRules|
    ensures SafeRules(DerivedRules)
    ensures DerivedRules[i].0 in DerivedPalette(b) <==> Reference(DerivedRules[i].1) in Derive(b, DerivedRules, i)
    ensures DerivedRules[i].0 in DerivedPalette(b) ==>
              DerivedPalette(b)[DerivedRules[i].0] == ApplyRule(Derive(b, DerivedRules, i), DerivedRules[i].0, DerivedRules[i].1)[DerivedRules[i].0]
  {
    DerivedRulesSafe();
    DerivedNamesDistinct();
    DerivedNamesNotBase();
    RuleOutcome(b, DerivedRules, i);
  }

  /** Every rule sees the base entries exactly as the driver stored them. */
  lemma BaseSeenAt(b: Palette, i: nat, k: string)
    requires IsBasePalette(b) && i <= |DerivedRules| && k in BaseNames
    ensures SafeRules(DerivedRules)
    ensures k in Derive(b, DerivedRules, i) <==> k in b
    ensures k in b ==> Derive(b, DerivedRules, i)[k] == b[k]
  {
    DerivedRulesSafe();
    DerivedNamesNotBase();
    DeriveFrame(b, DerivedRules, 0, i, k);
  }

  /** A rule after rule `i` sees rule `i`'s entry as it ends up in the derived
      palette. */
  lemma DerivedSeenAt(b: Palette, i: nat, l: nat)
    requires IsBasePalette(b) && i < l <= |DerivedRules|
    ensures SafeRules(DerivedRules)
    ensures DerivedRules[i].0 in Derive(b, DerivedRules, l) <==> DerivedRules[i].0 in DerivedPalette(b)
    ensures DerivedRules[i].0 in DerivedPalette(b) ==> Derive(b, DerivedRules, l)[DerivedRules[i].0] == DerivedPalette(b)[DerivedRules[i].0]
  {
    DerivedRulesSafe();
    DerivedNamesDistinct();
    DeriveFrame(b, DerivedRules, l, |DerivedRules|, DerivedRules[i].0);
  }

  /** Aliasing leaves every name that is not a role name as it was. */
  lemma NotARole(m: Palette, k: string)
    requires forall j :: 0 <= j < |SemanticAliases| ==> SemanticAliases[j].0 != k
    ensures k in Alias(m, SemanticAliases, |SemanticAliases|) <==> k in m
    ensures k in m ==> Alias(m, SemanticAliases, |SemanticAliases|)[k] == m[k]
  {
  }

  /** Role `i` of the alias table copies its target from the derived palette. */
  lemma RoleEntry(b: Palette, i: nat)
    requires IsBasePalette(b) && i < |SemanticAliases|
    ensures SemanticAliases[i].0 in Resolve(b) <==> SemanticAliases[i].1 in DerivedPalette(b)
    ensures SemanticAliases[i].1 in DerivedPalette(b) ==> Resolve(b)[SemanticAliases[i].0] == DerivedPalette(b)[SemanticAliases[i].1]
  {
    RoleNameNotDerived(b, i);
    AliasNamesDistinct();
    AliasNamesNotTargets();
    AliasOutcome(DerivedPalette(b), SemanticAliases, i);
  }

  /** No role name is in the derived palette. */
  lemma RoleNameNotDerived(b: Palette, i: nat)
    requires IsBasePalette(b) && i < |SemanticAliases|
    ensures SemanticAliases[i].0 !in DerivedPalette(b)
  {
    DerivedRulesSafe();
    DerivedNamesFresh();
    AliasNamesNotBase();
    DeriveAddsRuleNames(b, DerivedRules, |DerivedRules|, SemanticAliases[i].0);
  }
}
