/** The already-parsed property-list elements and `get_color_from_dict`, which
    reads the three channel values and the wide-gamut flag out of the children
    of one colour dictionary. */
module ColorDict {

  /** One property-list element, already parsed. `Real` carries the value
      `float(text)` would give; `Other` is any tag that is none of `key`,
      `real`, `string` and `dict`. */
  datatype Element =
    | Key(name: string)
    | Real(value: real)
    | Str(text: string)
    | Dict(children: seq<Element>)
    | Other

  /** A real-valued colour triple. */
  datatype Rgb = Rgb(r: real, g: real, b: real)

  /** What `get_color_from_dict` returns: the channels and the `is_p3` flag. */
  datatype Components = Components(rgb: Rgb, isP3: bool)

  datatype Channel = Red | Green | Blue

  function ChannelKey(ch: Channel): string {
    match ch
    case Red => "Red Component"
    case Green => "Green Component"
    case Blue => "Blue Component"
  }

  const ColorSpaceKey: string := "Color Space"
  const WideGamutTag: string := "P3"

  function ChannelOf(c: Rgb, ch: Channel): real {
    match ch
    case Red => c.r
    case Green => c.g
    case Blue => c.b
  }

  const NoComponents: Components := Components(Rgb(0.0, 0.0, 0.0), false)

  /** The pair read at pair index `k` sets channel `ch`: a channel key at the
      even offset `2k` followed by a `real` element. */
  predicate SetsChannel(cs: seq<Element>, k: int, ch: Channel) {
    0 <= k && 2 * k + 1 < |cs| && PairSets(cs[2 * k], cs[2 * k + 1], ch)
  }

  predicate PairSets(key: Element, value: Element, ch: Channel) {
    key == Key(ChannelKey(ch)) && value.Real?
  }

  predicate PairDeclaresP3(key: Element, value: Element) {
    key == Key(ColorSpaceKey) && value == Str(WideGamutTag)
  }

  /** The pair read at pair index `k` declares the wide-gamut colour space. */
  predicate DeclaresP3(cs: seq<Element>, k: int) {
    0 <= k && 2 * k + 1 < |cs| && PairDeclaresP3(cs[2 * k], cs[2 * k + 1])
  }

  /** One iteration of the loop body: the `if`/`elif` chain on one key/value pair. */
  function Step(acc: Components, key: Element, value: Element): Components {
    if !key.Key? then acc
    else if key.name == "Red Component" && value.Real? then acc.(rgb := acc.rgb.(r := value.value))
    else if key.name == "Green Component" && value.Real? then acc.(rgb := acc.rgb.(g := value.value))
    else if key.name == "Blue Component" && value.Real? then acc.(rgb := acc.rgb.(b := value.value))
    else if key.name == ColorSpaceKey && value.Str? then
      (if value.text == WideGamutTag then acc.(isP3 := true) else acc)
    else acc
  }

  /** What one pair does: it sets exactly the channel its key names when the
      value is a `real`, and raises the flag exactly when it declares P3. */
  lemma StepEffect(acc: Components, key: Element, value: Element)
    ensures forall ch :: PairSets(key, value, ch) ==> ChannelOf(Step(acc, key, value).rgb, ch) == value.value
    ensures forall ch :: !PairSets(key, value, ch) ==> ChannelOf(Step(acc, key, value).rgb, ch) == ChannelOf(acc.rgb, ch)
    ensures Step(acc, key, value).isP3 <==> acc.isP3 || PairDeclaresP3(key, value)
  {
  }

  /** The state after the first `p` pairs (offsets `0, 2, ..., 2p - 2`). */
  function ScanPairs(cs: seq<Element>, p: nat): Components
    requires 2 * p <= |cs|
    decreases p
  {
    if p == 0 then NoComponents
    else Step(ScanPairs(cs, p - 1), cs[2 * p - 2], cs[2 * p - 1])
  }

  /** Each channel holds the value of the LAST pair that set it, or 0 when none
      did; the flag is set iff some pair declared P3. */
  lemma {:induction false} ScanPairsSpec(cs: seq<Element>, p: nat)
    requires 2 * p <= |cs|
    ensures ScanResult(cs, p, ScanPairs(cs, p))
    decreases p
  {
    if p > 0 {
      ScanPairsSpec(cs, p - 1);
      ScanStep(cs, p, ScanPairs(cs, p - 1), ScanPairs(cs, p));
    }
  }

  /** `c` is what scanning the first `p` pairs must give (the contract of `ScanPairs`). */
  ghost predicate ScanResult(cs: seq<Element>, p: nat, c: Components)
    requires 2 * p <= |cs|
  {
    && (forall ch :: (forall k :: 0 <= k < p ==> !SetsChannel(cs, k, ch)) ==> ChannelOf(c.rgb, ch) == 0.0)
    && (forall ch, k :: 0 <= k < p && SetsChannel(cs, k, ch) && (forall j :: k < j < p ==> !SetsChannel(cs, j, ch))
          ==> ChannelOf(c.rgb, ch) == cs[2 * k + 1].value)
    && (c.isP3 <==> exists k :: 0 <= k < p && DeclaresP3(cs, k))
  }

  /** The induction step of `ScanPairs`: one more pair keeps the contract. */
  lemma ScanStep(cs: seq<Element>, p: nat, prev: Components, c: Components)
    requires 1 <= p && 2 * p <= |cs|
    requires ScanResult(cs, p - 1, prev)
    requires c == Step(prev, cs[2 * p - 2], cs[2 * p - 1])
    ensures ScanResult(cs, p, c)
  {
    StepEffect(prev, cs[2 * p - 2], cs[2 * p - 1]);
    forall ch | forall k :: 0 <= k < p ==> !SetsChannel(cs, k, ch)
      ensures ChannelOf(c.rgb, ch) == 0.0
    {
      assert !SetsChannel(cs, p - 1, ch);
    }
    forall ch, k | 0 <= k < p && SetsChannel(cs, k, ch) && (forall j :: k < j < p ==> !SetsChannel(cs, j, ch))
      ensures ChannelOf(c.rgb, ch) == cs[2 * k + 1].value
    {
      if k < p - 1 {
        assert !SetsChannel(cs, p - 1, ch);
      }
    }
    if c.isP3 {
      if !prev.isP3 {
        assert DeclaresP3(cs, p - 1);
      }
    } else {
      assert !DeclaresP3(cs, p - 1);
    }
  }

  /** `get_color_from_dict`: the loop `for i in range(0, len(d) - 1, 2)` reads
      `len(d) / 2` whole pairs; a trailing unpaired element is never read. */
  function ExtractColor(cs: seq<Element>): (c: Components)
    ensures forall ch :: (forall k :: !SetsChannel(cs, k, ch)) ==> ChannelOf(c.rgb, ch) == 0.0
    ensures forall ch, k :: SetsChannel(cs, k, ch) && (forall j :: k < j ==> !SetsChannel(cs, j, ch))
              ==> ChannelOf(c.rgb, ch) == cs[2 * k + 1].value
    ensures c.isP3 <==> exists k :: DeclaresP3(cs, k)
  {
    ScanPairsSpec(cs, |cs| / 2);
    ScanPairs(cs, |cs| / 2)
  }

  /** Scanning only reads pairs, so elements after the first `2p` do not matter. */
  lemma {:induction false} ScanPairsPrefix(cs: seq<Element>, more: seq<Element>, p: nat)
    requires 2 * p <= |cs|
    ensures ScanPairs(cs + more, p) == ScanPairs(cs, p)
    decreases p
  {
    if p > 0 {
      ScanPairsPrefix(cs, more, p - 1);
      assert (cs + more)[2 * p - 2] == cs[2 * p - 2];
      assert (cs + more)[2 * p - 1] == cs[2 * p - 1];
    }
  }

  /** A trailing unpaired element is ignored. */
  lemma TrailingElementIgnored(cs: seq<Element>, e: Element)
    requires |cs| % 2 == 0
    ensures ExtractColor(cs + [e]) == ExtractColor(cs)
  {
    ScanPairsPrefix(cs, [e], |cs| / 2);
  }

  /** A later occurrence of a channel key overwrites an earlier one: appending
      a pair that sets a channel makes that channel the appended value and
      leaves the other channels and the flag as they were. */
  lemma LaterPairOverwrites(cs: seq<Element>, ch: Channel, v: real)
    requires |cs| % 2 == 0
    ensures ChannelOf(ExtractColor(cs + [Key(ChannelKey(ch)), Real(v)]).rgb, ch) == v
    ensures forall other :: other != ch ==>
              ChannelOf(ExtractColor(cs + [Key(ChannelKey(ch)), Real(v)]).rgb, other) == ChannelOf(ExtractColor(cs).rgb, other)
    ensures ExtractColor(cs + [Key(ChannelKey(ch)), Real(v)]).isP3 == ExtractColor(cs).isP3
  {
    var ext := cs + [Key(ChannelKey(ch)), Real(v)];
    var p := |cs| / 2;
    assert |ext| / 2 == p + 1;
    ScanPairsPrefix(cs, [Key(ChannelKey(ch)), Real(v)], p);
    assert ext[2 * p] == Key(ChannelKey(ch)) && ext[2 * p + 1] == Real(v);
    var before := ScanPairs(ext, p);
    assert before == ExtractColor(cs);
    assert ExtractColor(ext) == Step(before, Key(ChannelKey(ch)), Real(v));
    StepEffect(before, Key(ChannelKey(ch)), Real(v));
    assert !PairDeclaresP3(Key(ChannelKey(ch)), Real(v));
  }

  /** Once a pair has declared P3 the flag is never reset: whatever follows,
      the flag stays raised. */
  lemma P3NeverReset(cs: seq<Element>, more: seq<Element>)
    requires ExtractColor(cs).isP3
    ensures ExtractColor(cs + more).isP3
  {
    var k :| DeclaresP3(cs, k);
    assert (cs + more)[2 * k] == cs[2 * k] && (cs + more)[2 * k + 1] == cs[2 * k + 1];
    assert DeclaresP3(cs + more, k);
  }
}
