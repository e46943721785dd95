# iTerm2 colour scheme to Vim palette, modelled in Dafny

This project models the core of `convert_iterm2_to_vim.py`, the script that turns an
iTerm2 `.itermcolors` property list into the `s:palette` dictionary of a Vim colour
scheme. It covers:

- **`to_hex`**: three real channels in [0, 1] become a `#rrggbb` string.
  The channels are clamped, multiplied by 255 and truncated (module `Hex`).
- **`get_color_from_dict`**: the red, green and blue components and the P3 flag
  are read from the key/value children of one colour dictionary (module `ColorDict`).
- **The driver loop of `parse_iterm_colors`**: each recognised terminal key whose
  next sibling is a `dict` gives one base palette entry, converted from P3 to sRGB
  when the dictionary says so (module `Driver`).
- **The `derived_colors` and `semantic_colors` tables**: they are evaluated in
  declaration order on top of the base palette. Scaling rules clamp and truncate,
  and semantic aliases copy a value verbatim (modules `Palette`, `Convert` and
  `Facts`). The two literal rules would store their text, but as written they never
  fire: line 241 tests that text for membership in the palette first, and it is
  never a palette name (see "## Findings"; module `Corrected` models the order in
  which the literal check comes first).
- **The palette block of `generate_vim_colorscheme`**: one line per entry in sorted
  name order, and a comma after every line but the last (modules `Render` and
  `Output`). A `none` entry would be spelled as the `NONE` sentinel, but only the
  corrected palette has one.
- **The derivation loop with its literal check moved before the membership test**:
  this is the corrected behaviour (module `Corrected`); see "## Findings".

The plist is modelled as an already-parsed tree. `Element` is `Key`, `Real`, `Str`,
`Dict` or any other element. Real numbers are Dafny `real`s. The P3-to-sRGB
conversion is the parameter `toSrgb`.

## Model

| member | source | states |
|---|---|---|
| Hex.FormatByte | convert_iterm2_to_vim.py:80-83 | `'{:02x}'` gives two lower-case hex digits whose value is the channel |
| Hex.ParseFormatByte | convert_iterm2_to_vim.py:259-261 | `int(_, 16)` on a formatted channel gives the channel back |
| Hex.FormatParseByte | convert_iterm2_to_vim.py:255-268 | formatting a parsed lower-case digit pair gives the same pair, so parse and format are inverse bijections on [0, 255] |
| Hex.FormatColor | convert_iterm2_to_vim.py:268 | `'#{:02x}{:02x}{:02x}'` is a palette string whose slices `[1:3]`, `[3:5]` and `[5:7]` parse back to the three channels |
| Hex.FormatChannels | convert_iterm2_to_vim.py:255-268 | reading the channels of a palette string and formatting them again reproduces the string |
| Hex.ToByte | convert_iterm2_to_vim.py:81-83 | `int(max(0, min(1, x)) * 255)` is in [0, 255]: 0 at or below 0, 255 at or above 1, otherwise the floor of `x * 255` |
| Hex.ToByteOfFraction | convert_iterm2_to_vim.py:81-83 | a channel `n / 255` comes back as `n` exactly |
| Hex.ToHex | convert_iterm2_to_vim.py:79-83 | `to_hex` always gives a `#rrggbb` string whose channels are the clamped, truncated inputs |
| Hex.ToHexExample | convert_iterm2_to_vim.py:79-83 | truncation, not rounding: `to_hex(1.0, 0.0, 0.5)` is `#ff007f` |
| ColorDict.StepEffect | convert_iterm2_to_vim.py:111-123 | one pair sets exactly the channel its key names when the value is a `real`, and raises the flag exactly when it declares P3 |
| ColorDict.ScanStep | convert_iterm2_to_vim.py:110-123 | one more pair keeps the scan's contract: last setter wins per channel, an unset channel is 0, the flag means some pair declared P3 |
| ColorDict.ScanPairsSpec | convert_iterm2_to_vim.py:106-123 | after the first `p` pairs each channel holds its last setter's value or 0, and the flag is set iff some pair declared P3 |
| ColorDict.ExtractColor | convert_iterm2_to_vim.py:103-125 | `get_color_from_dict` reads even offsets only; the last occurrence of a channel key wins; missing channels are 0; `is_p3` iff some pair declares P3 |
| ColorDict.ScanPairsPrefix | convert_iterm2_to_vim.py:110 | the scan of the first `p` pairs ignores anything after them |
| ColorDict.TrailingElementIgnored | convert_iterm2_to_vim.py:110 | `range(0, len(d) - 1, 2)` never reads a trailing unpaired element |
| ColorDict.LaterPairOverwrites | convert_iterm2_to_vim.py:113-118 | an appended channel pair sets that channel and leaves the other channels and the flag unchanged |
| ColorDict.P3NeverReset | convert_iterm2_to_vim.py:121-123 | once P3 is declared, the flag stays raised whatever follows |
| Driver.LookupSpec | convert_iterm2_to_vim.py:215-216 | a dictionary lookup finds a name iff some pair has the key, and the name belongs to such a pair |
| Driver.VimNameInBase | convert_iterm2_to_vim.py:135-157 | every recognised terminal key maps to one of the 21 base names |
| Driver.BaseNamesAreTableNames | convert_iterm2_to_vim.py:135-157 | the 21 base names are exactly the names the key table maps to, no more and no fewer |
| Driver.BaseNameInTable | convert_iterm2_to_vim.py:135-157 | each base name is the name of some entry in the key table |
| Driver.DictHex | convert_iterm2_to_vim.py:225-235 | the entry of one colour dictionary is always a `#rrggbb` string |
| Driver.StoredKeys | convert_iterm2_to_vim.py:213-237 | after `n` children, a name is stored iff some recognised key among them with a `dict` sibling maps to it |
| Driver.KeysStep | convert_iterm2_to_vim.py:214-237 | visiting one child keeps that property |
| Driver.KeysStepOther | convert_iterm2_to_vim.py:214-237 | a name the visited child does not store is present iff it was before |
| Driver.StoredHex | convert_iterm2_to_vim.py:237 | every stored value is a `#rrggbb` string |
| Driver.StoredLast | convert_iterm2_to_vim.py:213-237 | after `n` children, each name holds the colour of the dictionary after its last key |
| Driver.LastStep | convert_iterm2_to_vim.py:237 | visiting one child keeps the last-entry-wins property |
| Driver.LastStepAt | convert_iterm2_to_vim.py:237 | the last entry for a name is either the visited child, which stores its value, or an earlier one, which keeps its value |
| Driver.LastStepEarlier | convert_iterm2_to_vim.py:237 | an earlier last entry keeps its value when the visited child writes another name |
| Driver.ExtractWith | convert_iterm2_to_vim.py:213-237 | the driver with any key table: names are those of recognised keys with a `dict` sibling, values are palette strings, the last entry wins, and every name is a value of the table |
| Driver.ExtractPalette | convert_iterm2_to_vim.py:135-157 | the driver with `iterm_to_vim_map`: the same properties, and every name is a base name |
| Driver.StoredAgree | convert_iterm2_to_vim.py:220-224 | the palette after n children depends only on the first n + 1 children |
| Driver.AppendEntryWith | convert_iterm2_to_vim.py:216-237 | appending a key and its sibling adds or overwrites that key's entry iff the key is recognised and the sibling is a `dict`; otherwise nothing changes |
| Driver.AppendEntry | convert_iterm2_to_vim.py:216-237 | the same with `iterm_to_vim_map`: a repeated key overwrites the earlier entry |
| Palette.ScaleChannel | convert_iterm2_to_vim.py:259-268 | a scaled channel is in [0, 255]: 255 when the product reaches 255, 0 when it is not positive, otherwise its floor |
| Palette.ScaleHex | convert_iterm2_to_vim.py:255-268 | scaling a palette string gives a palette string whose channels are the scaled channels |
| Palette.ScaleChannelByOne | convert_iterm2_to_vim.py:259-268 | factor 1.0 leaves a channel unchanged |
| Palette.ScaleHexByOne | convert_iterm2_to_vim.py:187 | factor 1.0 reproduces the palette string exactly |
| Palette.ApplyRule | convert_iterm2_to_vim.py:240-285 | one iteration as written: the name is added iff the rule's `derived_info[0]` is present; other names are unchanged; a scaling rule stores the scaled channels; the palette invariant is kept |
| Palette.Derive | convert_iterm2_to_vim.py:240-285 | the loop keeps every value a `#rrggbb` string and never drops a name |
| Palette.DeriveAddsRuleNames | convert_iterm2_to_vim.py:240-285 | derivation adds only names of the table |
| Palette.DeriveFrame | convert_iterm2_to_vim.py:240-285 | a name no rule in a range writes is unchanged across that range |
| Palette.RuleOutcome | convert_iterm2_to_vim.py:240-285 | evaluation order: rule `i` sees the palette built by the rules before it, and its result is final |
| Palette.ApplyRuleFixed | convert_iterm2_to_vim.py:241-247 | the corrected iteration stores literal text unconditionally and otherwise agrees with `ApplyRule` |
| Palette.DeriveFixed | convert_iterm2_to_vim.py:240-285 | the corrected loop agrees with `Derive` while only scaling rules have run; values are palette strings or `NONE`; each literal stores its text |
| Palette.DeriveLiteralStep | convert_iterm2_to_vim.py:241 | as written, a literal rule changes nothing |
| Palette.DeriveFixedLiteralStep | convert_iterm2_to_vim.py:245-247 | corrected, a literal rule stores its text under its name |
| Palette.DeriveFixedLastTwo | convert_iterm2_to_vim.py:190-191 | when only the last two rules are literals, the corrected result is the as-written one with the two texts stored |
| Palette.ApplyAlias | convert_iterm2_to_vim.py:289-290 | an alias is added iff its target is present, copying the target's string; other names are unchanged |
| Palette.Alias | convert_iterm2_to_vim.py:288-290 | the alias loop keeps every name, adds only role names, and leaves names no alias writes unchanged |
| Palette.AliasValues | convert_iterm2_to_vim.py:288-290 | aliasing only copies: every value of the result was already a value |
| Palette.AliasCopies | convert_iterm2_to_vim.py:290 | one alias adds no new value |
| Palette.AliasKeepsWellFormed | convert_iterm2_to_vim.py:288-290 | aliasing keeps the `#rrggbb` invariant |
| Palette.AliasKeepsWellFormedWithSentinel | convert_iterm2_to_vim.py:288-290 | aliasing keeps the invariant that allows `NONE` |
| Palette.AliasFrame | convert_iterm2_to_vim.py:288-290 | a name no alias in a range writes is unchanged across that range |
| Palette.AliasOutcome | convert_iterm2_to_vim.py:288-290 | a role name is present iff its target was, and then holds the target's string |
| Palette.AliasStep | convert_iterm2_to_vim.py:288-290 | one more alias applies that alias to the palette so far |
| Palette.ApplyAliasUpdate | convert_iterm2_to_vim.py:289-290 | one alias commutes with storing a name it neither writes nor reads |
| Palette.AliasUpdate | convert_iterm2_to_vim.py:288-290 | aliasing commutes with storing such a name |
| Convert.DerivedNamesNotLiteral | convert_iterm2_to_vim.py:160-192 | no derived name looks like literal text |
| Convert.DerivedBasesNotLiteral | convert_iterm2_to_vim.py:160-189 | no scaling rule's base looks like literal text |
| Convert.DerivedLiteralValues | convert_iterm2_to_vim.py:190-191 | the literal texts are a palette string and `NONE` |
| Convert.DerivedRulesSafe | convert_iterm2_to_vim.py:160-192 | the table meets what derivation needs, and its literals come last |
| Convert.ScalingRulesFirst | convert_iterm2_to_vim.py:160-192 | 31 rules: the first 29 scale, the last two are literals |
| Convert.DerivedNamesDistinct | convert_iterm2_to_vim.py:160-192 | the derived names are distinct |
| Convert.DerivedNamesFresh | convert_iterm2_to_vim.py:135-210 | no derived name is a base name or a role name |
| Convert.DerivedNamesNotBase | convert_iterm2_to_vim.py:135-192 | no derived name is a base name |
| Convert.AliasNamesFresh | convert_iterm2_to_vim.py:135-210 | role names are distinct, are not base names, never look literal, and are never alias targets |
| Convert.AliasNamesDistinct | convert_iterm2_to_vim.py:195-210 | role names are distinct |
| Convert.AliasNamesNotBase | convert_iterm2_to_vim.py:135-210 | no role name is a base name |
| Convert.AliasNamesNotTargets | convert_iterm2_to_vim.py:195-210 | no role name is an alias target |
| Convert.BasePaletteWellFormed | convert_iterm2_to_vim.py:213-237 | the driver's palette meets the invariant, over base names |
| Convert.DerivedPalette | convert_iterm2_to_vim.py:240-285 | the derived palette holds only `#rrggbb` values |
| Convert.Resolve | convert_iterm2_to_vim.py:240-290 | after both loops, every value is `#rrggbb`, base entries are unchanged, and `white` and `none` are absent |
| Convert.ParseItermColors | convert_iterm2_to_vim.py:127-292 | `parse_iterm_colors` as written: the same, for the driver's palette |
| Convert.BaseEntriesKept | convert_iterm2_to_vim.py:240-290 | derivation and aliasing never change or drop a base entry |
| Convert.LiteralRulesDead | convert_iterm2_to_vim.py:241-247 | as written, `white` and `none` never reach the palette |
| Convert.NotAliased | convert_iterm2_to_vim.py:288-290 | aliasing adds only role names |
| Convert.LiteralNeverDerived | convert_iterm2_to_vim.py:241-247 | a literal rule's name is never in the derived palette |
| Convert.DerivedEntry | convert_iterm2_to_vim.py:240-285 | a derived name is present iff its reference was present at its turn, with the value computed then |
| Convert.BaseSeenAt | convert_iterm2_to_vim.py:240-285 | every rule sees the base entries as the driver stored them |
| Convert.DerivedSeenAt | convert_iterm2_to_vim.py:240-285 | a later rule sees an earlier derived entry as it finally is |
| Convert.NotARole | convert_iterm2_to_vim.py:288-290 | a name that is not a role name passes through aliasing unchanged |
| Convert.RoleEntry | convert_iterm2_to_vim.py:195-210 | a role name is present iff its target is in the derived palette, and then copies it |
| Convert.RoleNameNotDerived | convert_iterm2_to_vim.py:160-210 | no role name is in the derived palette |
| Facts.ScaledFromBase | convert_iterm2_to_vim.py:240-285 | a rule on a base colour is present iff that colour was extracted, and is then its scaled value |
| Facts.ScaledFromDerived | convert_iterm2_to_vim.py:240-285 | a rule on an earlier rule's name is present iff that entry is, and is then its scaled value |
| Facts.KeptByAliasing | convert_iterm2_to_vim.py:288-290 | a non-role name reaches the final palette unchanged |
| Facts.OrangeChain | convert_iterm2_to_vim.py:178-199 | without `yellow` there is no `orange`, `orange_contrast` or `number`; with it, their values scale by 0.9 and then 0.8, and `number` copies `orange` |
| Facts.OrangeFromYellow | convert_iterm2_to_vim.py:178 | `orange` is present iff `yellow` is, scaled by 0.9 |
| Facts.OrangeContrastFromOrange | convert_iterm2_to_vim.py:181 | `orange_contrast` is present iff `orange` is, scaled by 0.8 |
| Facts.NumberIsOrange | convert_iterm2_to_vim.py:199 | `number` is present iff `orange` is, with the same string |
| Facts.YellowContrast | convert_iterm2_to_vim.py:183 | `yellow_contrast` is present iff `yellow` is, scaled by 0.8 |
| Facts.BrightPinkChain | convert_iterm2_to_vim.py:184-186 | `bright_pink` scales `red_light` per channel, and its two lighter variants scale `bright_pink` |
| Facts.BrightYellowIsYellowLight | convert_iterm2_to_vim.py:187 | `bright_yellow` equals `yellow_light` exactly whenever it exists |
| Facts.CommentIsGray08 | convert_iterm2_to_vim.py:167-197 | `comment` and `gray08` exist iff `fg` does; `gray08` is `fg` scaled by 0.6, and `comment` copies it |
| Corrected.LiteralNamesNotAliased | convert_iterm2_to_vim.py:195-210 | no alias writes or reads `white` or `none` |
| Corrected.DerivedPaletteFixed | convert_iterm2_to_vim.py:240-285 | the corrected derived palette holds palette strings or `NONE` |
| Corrected.ResolveFixed | convert_iterm2_to_vim.py:240-290 | the corrected palette after aliasing keeps that invariant |
| Corrected.ParseItermColorsFixed | convert_iterm2_to_vim.py:127-292 | the corrected conversion keeps that invariant |
| Corrected.LiteralRules | convert_iterm2_to_vim.py:190-191 | the last two rules are `white` and `none` with their texts |
| Corrected.DerivedFixedAddsLiterals | convert_iterm2_to_vim.py:240-285 | the corrected derived palette is the as-written one plus `white` and `none` |
| Corrected.ResolveFixedAddsLiterals | convert_iterm2_to_vim.py:240-290 | the same after aliasing |
| Corrected.ParseFixedAddsLiterals | convert_iterm2_to_vim.py:240-247 | the corrected conversion holds `white = #fdfdfe` and `none = NONE`, and agrees with the as-written one on every other name |
| Render.LessIrreflexive | convert_iterm2_to_vim.py:316 | no name sorts before itself |
| Render.LessTransitive | convert_iterm2_to_vim.py:316 | string order is transitive |
| Render.LessTotal | convert_iterm2_to_vim.py:316 | of two different names, one sorts first |
| Render.LessAsymmetric | convert_iterm2_to_vim.py:316 | two names never each sort before the other |
| Render.Insert | convert_iterm2_to_vim.py:316 | inserting into a sorted list keeps it sorted and adds exactly the new name |
| Render.SortedUnique | convert_iterm2_to_vim.py:316 | a sorted list is determined by its names, so insertion order does not show |
| Render.TailMembers | convert_iterm2_to_vim.py:316 | the tail of a sorted list holds every name but the head |
| Render.SortedNames | convert_iterm2_to_vim.py:316 | `sorted(colors.items())` lists every palette name exactly once, in increasing order |
| Render.RenderLine | convert_iterm2_to_vim.py:316-322 | each line ends with a newline, preceded by a comma iff it is not the last |
| Render.RenderPalette | convert_iterm2_to_vim.py:316-322 | the block has one line per name, in sorted order, with the comma on every line but the last |
| Render.ParseLine | convert_iterm2_to_vim.py:316-322 | a line read back renders to exactly that line |
| Render.ParseTail | convert_iterm2_to_vim.py:319-322 | the part after the name reads back to an entry that renders to it |
| Render.ParseRenderLine | convert_iterm2_to_vim.py:316-322 | rendering then reading a line gives the name, value and last-line flag back |
| Render.SplitAtTail | convert_iterm2_to_vim.py:320-322 | a line is split at the fixed-length tail its comma implies |
| Render.ParseRenderTail | convert_iterm2_to_vim.py:319-322 | both line shapes read back to their entries |
| Render.BlockReadsBack | convert_iterm2_to_vim.py:316-322 | every line of a renderable palette's block reads back as its entry, with only the last line marked last |
| Output.AsWrittenRenderable | convert_iterm2_to_vim.py:240-322 | the as-written palette can be rendered faithfully |
| Output.FixedRenderable | convert_iterm2_to_vim.py:240-322 | the corrected palette can be rendered faithfully |
| Output.WithLiteralsRenderable | convert_iterm2_to_vim.py:319-322 | storing `white` and the sentinel keeps a palette renderable |
| Output.AsWrittenBlockOrdinary | convert_iterm2_to_vim.py:319-322 | as written, the `none` branch of the renderer never runs |
| Output.FixedBlockHasSentinel | convert_iterm2_to_vim.py:319-320 | corrected, the block holds a `none` line with the `NONE` sentinel |
| Output.FixedBlockSentinelOnce | convert_iterm2_to_vim.py:316-320 | with the names in sorted order, that `none` sentinel line is the only `none` line in the block |
| Output.RenderConverted | convert_iterm2_to_vim.py:316-322 | end to end: the block of the converted palette reads back as its entries in sorted order |

## Left out

- The colour-space numerics (`p3_to_srgb`, `srgb_to_p3`, the gamma functions and `convert_color`, lines 7-101) are not modelled.
  They are the parameter `toSrgb: Rgb -> Rgb`, applied exactly when the dictionary declares P3.
  The model states nothing about the converted values except that `to_hex` clamps them.
- XML parsing and `float(value_elem.text)` are not modelled.
  Children arrive already typed as `Key`, `Real`, `Str`, `Dict` or another element.
  Real components are exact Dafny reals, not IEEE doubles.
  So every product is exact. When a product lies within rounding error of an integer, a channel can differ from Python's by one, in either direction.
  In scaling, `45 * 1.4` is 62.999… in doubles, so Python gives 62 while the model gives 63.
  In `to_hex`, `float('0.00392156862745098')` is the double nearest 1/255. Its exact product with 255 is just below 1, so `Hex.ToByte` gives 0, but the double product rounds to 1.0, so Python gives 1.
- Driver.ExtractPalette: models a single top-level `dict`. The source's `root.find('./dict')` always takes the first one while `findall` reads keys of every top-level `dict`; plist files have exactly one.
- Driver.ExtractPalette: a recognised key is matched with its sibling by position.
  The source uses an identity search (`elem is key_elem`); that is the same since every element is a distinct object.
- The Vim boilerplate around the palette block (the header, the highlight groups, `main` and file output) is not modelled.
  Only the palette block of lines 316-322 is.
  The lower-cased theme name (line 297) reaches only `let g:colors_name` (line 374) and the default output file name in `main` (line 508), both outside the palette block.
- Render.ParseLine: reads a line from its end.
  The trailing comma fixes the length of the tail, and the name is what lies between prefix and tail.
  It is a model-side inverse that shows the rendering loses nothing, not a function of the source.
- Palette.ScaleChannel: the clamp is stated per channel.
  A factor above 2 does not saturate every channel: channel 100 scaled by 2.1 is 210, and channel 0 stays 0 under any factor.
  The model states only what the code does.
- Hex.ToByteOfFraction: proved for exact reals only. The model claims nothing about the rounding of `n / 255 * 255` in doubles.

## Findings

| source | as written | input that shows it | evidently intended | confidence | as-written member | corrected member |
|---|---|---|---|---|---|---|
| convert_iterm2_to_vim.py:240-247, 389 | the membership test `derived_info[0] in colors` (line 241) runs before the literal check (line 245). The literal texts `#fdfdfe` and `NONE` are never palette names, so `white` and `none` are never stored. The template's `s:palette.none` (line 389) then names a missing key, and the `none` branch of the renderer (line 319) never runs | any theme, e.g. one whose only children are `Foreground Color` with its `dict` | literal rules store their text, so `none` maps to the `NONE` sentinel and `white` to `#fdfdfe` | not executed | Convert.LiteralRulesDead, Output.AsWrittenBlockOrdinary | Corrected.ParseFixedAddsLiterals, Output.FixedBlockHasSentinel |
