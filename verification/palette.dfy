/** Palette derivation: the rule kinds of `derived_colors`, channel scaling
    with clamping and truncation, the in-order evaluation of a rule table into
    a growing palette, and the verbatim copying of semantic aliases. */
module Palette {
  import opened Hex

  /** Palette names to palette strings (`colors` in `parse_iterm_colors`). */
  type Palette = map<string, string>

  /** One entry of `derived_colors`: a 2-tuple `(base, factor)`, a 4-tuple
      `(base, fr, fg, fb)`, or a 2-tuple `(value, None)`. */
  datatype Rule =
    | Scale(base: string, factor: real)
    | PerChannel(base: string, fr: real, fg: real, fb: real)
    | Literal(value: string)

  /** `derived_info[0]`: the name a rule reads, or a literal's text. */
  function Reference(rule: Rule): string {
    match rule
    case Scale(b, _) => b
    case PerChannel(b, _, _, _) => b
    case Literal(v) => v
  }

  /** The per-channel factors of a scaling rule. */
  function Factors(rule: Rule): (real, real, real)
    requires !rule.Literal?
  {
    match rule
    case Scale(_, f) => (f, f, f)
    case PerChannel(_, fr, fg, fb) => (fr, fg, fb)
  }

  /** Text the literal check `startswith('#') or == 'NONE'` accepts. */
  predicate IsLiteralText(s: string) {
    (|s| > 0 && s[0] == '#') || s == "NONE"
  }

  /** The palette invariant: every value is a `#rrggbb` string and no name
      looks like literal text. */
  ghost predicate WellFormed(m: Palette) {
    forall k :: k in m ==> IsHexColor(m[k]) && !IsLiteralText(k)
  }

  /** A value the renderer can emit: a palette string or the `NONE` sentinel. */
  predicate IsPaletteValue(v: string) {
    IsHexColor(v) || v == "NONE"
  }

  /** The invariant once literal rules can fire: values are palette strings or
      `NONE`. */
  ghost predicate WellFormedWithSentinel(m: Palette) {
    forall k :: k in m ==> IsPaletteValue(m[k]) && !IsLiteralText(k)
  }

  /** The rule tables this model evaluates: no derived name and no scaling
      rule's base looks like literal text, and every literal is a palette
      string or `NONE`. */
  ghost predicate SafeRules(rules: seq<(string, Rule)>) {
    forall i :: 0 <= i < |rules| ==> SafeRule(rules[i].0, rules[i].1)
  }

  predicate SafeRule(name: string, rule: Rule) {
    && !IsLiteralText(name)
    && (rule.Literal? ==> IsPaletteValue(rule.value))
    && (!rule.Literal? ==> !IsLiteralText(Reference(rule)))
  }

  /** Literal rules come after every scaling rule. */
  ghost predicate LiteralsLast(rules: seq<(string, Rule)>) {
    forall i, j :: 0 <= i < j < |rules| && rules[i].1.Literal? ==> rules[j].1.Literal?
  }

  /** One channel of a scaled colour: `int(max(0, min(255, c * f)))`. The
      clamped product is never negative, so truncation is the floor. */
  function ScaleChannel(c: int, f: real): (n: int)
    ensures 0 <= n <= 255
    ensures c as real * f >= 255.0 ==> n == 255
    ensures c as real * f <= 0.0 ==> n == 0
    ensures 0.0 <= c as real * f <= 255.0 ==> n as real <= c as real * f < n as real + 1.0
  {
    var x := c as real * f;
    (if x > 255.0 then 255.0 else if x < 0.0 then 0.0 else x).Floor
  }

  /** A palette string with each channel scaled by its own factor. Reading the
      result back gives the scaled channels of the input. */
  function ScaleHex(s: string, fr: real, fg: real, fb: real): (t: string)
    requires IsHexColor(s)
    ensures IsHexColor(t)
    ensures Channels(t) == (ScaleChannel(Channels(s).0, fr), ScaleChannel(Channels(s).1, fg), ScaleChannel(Channels(s).2, fb))
  {
    var c := Channels(s);
    FormatColor(ScaleChannel(c.0, fr), ScaleChannel(c.1, fg), ScaleChannel(c.2, fb))
  }

  /** Factor 1.0 is the identity on channels. */
  lemma ScaleChannelByOne(c: int)
    requires 0 <= c <= 255
    ensures ScaleChannel(c, 1.0) == c
  {
  }

  /** Scaling by 1.0 reproduces the palette string exactly: parsing the
      channels and re-formatting them loses nothing. */
  lemma ScaleHexByOne(s: string)
    requires IsHexColor(s)
    ensures ScaleHex(s, 1.0, 1.0, 1.0) == s
  {
    var c := Channels(s);
    ScaleChannelByOne(c.0);
    ScaleChannelByOne(c.1);
    ScaleChannelByOne(c.2);
    FormatChannels(s);
  }

  /** One iteration of the derivation loop, as written: the membership test on
      `derived_info[0]` comes first, then the literal check, then scaling. */
  function ApplyRule(m: Palette, name: string, rule: Rule): (r: Palette)
    requires Reference(rule) in m && !IsLiteralText(Reference(rule)) && !rule.Literal? ==> IsHexColor(m[Reference(rule)])
    ensures r.Keys == if Reference(rule) in m then m.Keys + {name} else m.Keys
    ensures forall k :: k in m && k != name ==> r[k] == m[k]
    ensures Reference(rule) in m && (IsLiteralText(Reference(rule)) || rule.Literal?) ==> r[name] == Reference(rule)
    ensures Reference(rule) in m && !IsLiteralText(Reference(rule)) && !rule.Literal? ==>
              IsHexColor(r[name]) &&
              Channels(r[name]) == (ScaleChannel(Channels(m[Reference(rule)]).0, Factors(rule).0),
                                    ScaleChannel(Channels(m[Reference(rule)]).1, Factors(rule).1),
                                    ScaleChannel(Channels(m[Reference(rule)]).2, Factors(rule).2))
    ensures WellFormed(m) && !IsLiteralText(name) && !rule.Literal? ==> WellFormed(r)
    ensures WellFormed(m) && rule.Literal? && IsLiteralText(rule.value) ==> r == m
  {
    var base := Reference(rule);
    if base !in m then m
    else if IsLiteralText(base) then m[name := base]
    else match rule
      case Literal(v) => m[name := v]
      case Scale(_, f) => m[name := ScaleHex(m[base], f, f, f)]
      case PerChannel(_, fr, fg, fb) => m[name := ScaleHex(m[base], fr, fg, fb)]
  }

  /** The palette after the first `n` rules of the table, in declaration order. */
  function Derive(m: Palette, rules: seq<(string, Rule)>, n: nat): (r: Palette)
    requires n <= |rules| && WellFormed(m) && SafeRules(rules)
    ensures WellFormed(r)
    ensures m.Keys <= r.Keys
    decreases n
  {
    if n == 0 then m
    else ApplyRule(Derive(m, rules, n - 1), rules[n - 1].0, rules[n - 1].1)
  }

  /** Derivation only adds names the table produces. */
  lemma {:induction false} DeriveAddsRuleNames(m: Palette, rules: seq<(string, Rule)>, n: nat, k: string)
    requires n <= |rules| && WellFormed(m) && SafeRules(rules)
    requires k !in m && forall j :: 0 <= j < n ==> rules[j].0 != k
    ensures k !in Derive(m, rules, n)
    decreases n
  {
    if n > 0 {
      DeriveAddsRuleNames(m, rules, n - 1, k);
    }
  }

  /** Rules outside `[a, b)` aside, a name no rule in `[a, b)` produces is left
      exactly as it was after the first `a` rules. */
  lemma {:induction false} DeriveFrame(m: Palette, rules: seq<(string, Rule)>, a: nat, b: nat, k: string)
    requires a <= b <= |rules| && WellFormed(m) && SafeRules(rules)
    requires forall j :: a <= j < b ==> rules[j].0 != k
    ensures k in Derive(m, rules, b) <==> k in Derive(m, rules, a)
    ensures k in Derive(m, rules, a) ==> Derive(m, rules, b)[k] == Derive(m, rules, a)[k]
    decreases b - a
  {
    if a < b {
      DeriveFrame(m, rules, a, b - 1, k);
      var prev := Derive(m, rules, b - 1);
      assert Derive(m, rules, b) == ApplyRule(prev, rules[b - 1].0, rules[b - 1].1);
    }
  }

  /** Evaluation order: rule `i` sees exactly the palette the rules before it
      built. When no other rule writes its name and the base palette does not
      hold it, its name ends up in the final palette iff its reference was in
      the palette at its turn, with the value computed then. */
  lemma RuleOutcome(m: Palette, rules: seq<(string, Rule)>, i: nat)
    requires i < |rules| && WellFormed(m) && SafeRules(rules)
    requires rules[i].0 !in m
    requires forall j :: 0 <= j < |rules| && j != i ==> rules[j].0 != rules[i].0
    ensures rules[i].0 in Derive(m, rules, |rules|) <==> Reference(rules[i].1) in Derive(m, rules, i)
    ensures rules[i].0 in Derive(m, rules, |rules|) ==>
              Derive(m, rules, |rules|)[rules[i].0] == ApplyRule(Derive(m, rules, i), rules[i].0, rules[i].1)[rules[i].0]
  {
    var name := rules[i].0;
    DeriveFrame(m, rules, i + 1, |rules|, name);
    DeriveAddsRuleNames(m, rules, i, name);
    var before := Derive(m, rules, i);
    assert Derive(m, rules, i + 1) == ApplyRule(before, name, rules[i].1);
  }

  /** The same iteration with the literal check moved before the membership
      test, so that literal rules always store their text. */
  function ApplyRuleFixed(m: Palette, name: string, rule: Rule): (r: Palette)
    requires !IsLiteralText(Reference(rule)) && Reference(rule) in m && !rule.Literal? ==> IsHexColor(m[Reference(rule)])
    ensures IsLiteralText(Reference(rule)) ==> r == m[name := Reference(rule)]
    ensures !IsLiteralText(Reference(rule)) ==> r == ApplyRule(m, name, rule)
  {
    var base := Reference(rule);
    if IsLiteralText(base) then m[name := base]
    else if base !in m then m
    else match rule
      case Literal(v) => m[name := v]
      case Scale(_, f) => m[name := ScaleHex(m[base], f, f, f)]
      case PerChannel(_, fr, fg, fb) => m[name := ScaleHex(m[base], fr, fg, fb)]
  }

  /** The corrected derivation. While only scaling rules have run it agrees with
      `Derive`; afterwards every value is still a palette string or `NONE`, and
      every literal rule has stored its text under its name. */
  function DeriveFixed(m: Palette, rules: seq<(string, Rule)>, n: nat): (r: Palette)
    requires n <= |rules| && WellFormed(m) && SafeRules(rules) && LiteralsLast(rules)
    ensures (forall j :: 0 <= j < n ==> !rules[j].1.Literal?) ==> r == Derive(m, rules, n)
    ensures WellFormedWithSentinel(r)
    ensures m.Keys <= r.Keys
    ensures forall j :: 0 <= j < n && rules[j].1.Literal? && (forall l :: j < l < n ==> rules[l].0 != rules[j].0)
              ==> rules[j].0 in r && r[rules[j].0] == rules[j].1.value
    decreases n
  {
    if n == 0 then m
    else
      var prev := DeriveFixed(m, rules, n - 1);
      var name := rules[n - 1].0;
      var rule := rules[n - 1].1;
      assert !rule.Literal? ==> forall j :: 0 <= j < n - 1 ==> !rules[j].1.Literal?;
      var r := ApplyRuleFixed(prev, name, rule);
      assert rule.Literal? ==> r == prev[name := rule.value];
      r
  }

  /** A literal rule leaves the as-written derivation unchanged. */
  lemma DeriveLiteralStep(m: Palette, rules: seq<(string, Rule)>, n: nat)
    requires n < |rules| && WellFormed(m) && SafeRules(rules) && rules[n].1.Literal?
    ensures Derive(m, rules, n + 1) == Derive(m, rules, n)
  {
    assert SafeRule(rules[n].0, rules[n].1);
  }

  /** A literal rule stores its text in the corrected derivation. */
  lemma DeriveFixedLiteralStep(m: Palette, rules: seq<(string, Rule)>, n: nat)
    requires n < |rules| && WellFormed(m) && SafeRules(rules) && LiteralsLast(rules) && rules[n].1.Literal?
    ensures DeriveFixed(m, rules, n + 1) == DeriveFixed(m, rules, n)[rules[n].0 := rules[n].1.value]
  {
    assert SafeRule(rules[n].0, rules[n].1);
  }

  /** When only the last two rules are literals, the corrected derivation is
      the as-written one with the two literal texts stored. */
  lemma DeriveFixedLastTwo(m: Palette, rules: seq<(string, Rule)>)
    requires |rules| >= 2 && WellFormed(m) && SafeRules(rules) && LiteralsLast(rules)
    requires forall j :: 0 <= j < |rules| - 2 ==> !rules[j].1.Literal?
    requires rules[|rules| - 2].1.Literal? && rules[|rules| - 1].1.Literal?
    ensures DeriveFixed(m, rules, |rules|)
            == Derive(m, rules, |rules|)[rules[|rules| - 2].0 := rules[|rules| - 2].1.value][rules[|rules| - 1].0 := rules[|rules| - 1].1.value]
  {
    var n := |rules| - 2;
    var d := Derive(m, rules, n);
    assert DeriveFixed(m, rules, n) == d;
    DeriveLiteralStep(m, rules, n);
    DeriveLiteralStep(m, rules, n + 1);
    assert Derive(m, rules, n + 2) == d;
    DeriveFixedLiteralStep(m, rules, n);
    DeriveFixedLiteralStep(m, rules, n + 1);
  }

  /** One iteration of the alias loop: copy the target's string verbatim. */
  function ApplyAlias(m: Palette, name: string, target: string): (r: Palette)
    ensures r.Keys == if target in m then m.Keys + {name} else m.Keys
    ensures forall k :: k in m && k != name ==> r[k] == m[k]
    ensures target in m ==> r[name] == m[target]
  {
    if target in m then m[name := m[target]] else m
  }

  /** The palette after the first `n` semantic aliases. */
  function Alias(m: Palette, aliases: seq<(string, string)>, n: nat): (r: Palette)
    requires n <= |aliases|
    ensures m.Keys <= r.Keys
    ensures forall k :: k in r ==> k in m || exists j :: 0 <= j < n && aliases[j].0 == k
    ensures forall k :: k in m && (forall j :: 0 <= j < n ==> aliases[j].0 != k) ==> r[k] == m[k]
    decreases n
  {
    if n == 0 then m
    else
      var prev := Alias(m, aliases, n - 1);
      var r := ApplyAlias(prev, aliases[n - 1].0, aliases[n - 1].1);
      assert forall k :: k in r && k !in prev ==> aliases[n - 1].0 == k;
      r
  }

  /** Aliasing only copies: every value of the result is already a value of
      the input. */
  lemma {:induction false} AliasValues(m: Palette, aliases: seq<(string, string)>, n: nat)
    requires n <= |aliases|
    ensures Alias(m, aliases, n).Values <= m.Values
    decreases n
  {
    if n > 0 {
      AliasValues(m, aliases, n - 1);
      AliasCopies(Alias(m, aliases, n - 1), aliases[n - 1].0, aliases[n - 1].1);
    }
  }

  /** One alias adds no new value. */
  lemma AliasCopies(m: Palette, name: string, target: string)
    ensures ApplyAlias(m, name, target).Values <= m.Values
  {
    var r := ApplyAlias(m, name, target);
    forall v | v in r.Values
      ensures v in m.Values
    {
      var k :| k in r && r[k] == v;
      if k == name && target in m {
        assert m[target] == v;
      } else {
        assert m[k] == v;
      }
    }
  }

  /** Aliasing keeps the palette invariant when no alias name looks literal. */
  lemma AliasKeepsWellFormed(m: Palette, aliases: seq<(string, string)>)
    requires WellFormed(m)
    requires forall j :: 0 <= j < |aliases| ==> !IsLiteralText(aliases[j].0)
    ensures WellFormed(Alias(m, aliases, |aliases|))
  {
    var r := Alias(m, aliases, |aliases|);
    AliasValues(m, aliases, |aliases|);
    forall k | k in r
      ensures IsHexColor(r[k]) && !IsLiteralText(k)
    {
      var v := r[k];
      assert v in r.Values;
      var w :| w in m && m[w] == v;
    }
  }

  /** The same with the `NONE` sentinel allowed. */
  lemma AliasKeepsWellFormedWithSentinel(m: Palette, aliases: seq<(string, string)>)
    requires WellFormedWithSentinel(m)
    requires forall j :: 0 <= j < |aliases| ==> !IsLiteralText(aliases[j].0)
    ensures WellFormedWithSentinel(Alias(m, aliases, |aliases|))
  {
    var r := Alias(m, aliases, |aliases|);
    AliasValues(m, aliases, |aliases|);
    forall k | k in r
      ensures IsPaletteValue(r[k]) && !IsLiteralText(k)
    {
      var v := r[k];
      assert v in r.Values;
      var w :| w in m && m[w] == v;
    }
  }

  /** A name no alias in `[a, b)` writes keeps its state from step `a`. */
  lemma {:induction false} AliasFrame(m: Palette, aliases: seq<(string, string)>, a: nat, b: nat, k: string)
    requires a <= b <= |aliases|
    requires forall j :: a <= j < b ==> aliases[j].0 != k
    ensures k in Alias(m, aliases, b) <==> k in Alias(m, aliases, a)
    ensures k in Alias(m, aliases, a) ==> Alias(m, aliases, b)[k] == Alias(m, aliases, a)[k]
    decreases b - a
  {
    if a < b {
      AliasFrame(m, aliases, a, b - 1, k);
    }
  }

  /** An alias whose name nothing else writes, and whose target no alias
      overwrites, is present iff its target was, and then holds exactly the
      target's string. */
  lemma AliasOutcome(m: Palette, aliases: seq<(string, string)>, i: nat)
    requires i < |aliases|
    requires aliases[i].0 !in m
    requires forall j :: 0 <= j < |aliases| && j != i ==> aliases[j].0 != aliases[i].0
    requires forall j :: 0 <= j < |aliases| ==> aliases[j].0 != aliases[i].1
    ensures aliases[i].0 in Alias(m, aliases, |aliases|) <==> aliases[i].1 in m
    ensures aliases[i].1 in m ==> Alias(m, aliases, |aliases|)[aliases[i].0] == m[aliases[i].1]
  {
    var name := aliases[i].0;
    var target := aliases[i].1;
    AliasFrame(m, aliases, 0, i, name);
    AliasFrame(m, aliases, 0, i, target);
    AliasFrame(m, aliases, i + 1, |aliases|, name);
    var before := Alias(m, aliases, i);
    AliasStep(m, aliases, i);
    assert name !in before;
    assert target in before <==> target in m;
    assert target in m ==> before[target] == m[target];
  }

  /** The palette after `n + 1` aliases is the palette after `n` with alias
      `n` applied. */
  lemma AliasStep(m: Palette, aliases: seq<(string, string)>, n: nat)
    requires n < |aliases|
    ensures Alias(m, aliases, n + 1) == ApplyAlias(Alias(m, aliases, n), aliases[n].0, aliases[n].1)
  {
  }

  /** One alias commutes with storing a name it neither writes nor reads. */
  lemma ApplyAliasUpdate(m: Palette, name: string, target: string, k: string, v: string)
    requires name != k && target != k
    ensures ApplyAlias(m[k := v], name, target) == ApplyAlias(m, name, target)[k := v]
  {
    if target in m {
      assert m[k := v][target] == m[target];
      assert m[k := v][name := m[target]] == m[name := m[target]][k := v];
    }
  }

  /** Aliasing commutes with storing a name that no alias writes or reads. */
  lemma {:induction false} AliasUpdate(m: Palette, aliases: seq<(string, string)>, n: nat, k: string, v: string)
    requires n <= |aliases|
    requires forall j :: 0 <= j < n ==> aliases[j].0 != k && aliases[j].1 != k
    ensures Alias(m[k := v], aliases, n) == Alias(m, aliases, n)[k := v]
    decreases n
  {
    if n > 0 {
      AliasUpdate(m, aliases, n - 1, k, v);
      ApplyAliasUpdate(Alias(m, aliases, n - 1), aliases[n - 1].0, aliases[n - 1].1, k, v);
    }
  }
}
