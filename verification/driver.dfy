/** The driver loop of `parse_iterm_colors`: every `key` child of the top-level
    dictionary whose name is a recognised terminal colour, and whose next
    sibling is a `dict`, contributes one base palette entry. */
module Driver {
  import opened Hex
  import opened ColorDict
  import opened Wrappers

  /** `iterm_to_vim_map`, in declaration order: terminal colour key, then
      palette name. */
  const KeyTable: seq<(string, string)> := [
    ("Ansi 0 Color", "gray0d"),
    ("Ansi 8 Color", "gray09"),
    ("Ansi 1 Color", "red"),
    ("Ansi 9 Color", "red_light"),
    ("Ansi 2 Color", "green"),
    ("Ansi 10 Color", "green_light"),
    ("Ansi 3 Color", "yellow"),
    ("Ansi 11 Color", "yellow_light"),
    ("Ansi 4 Color", "blue"),
    ("Ansi 12 Color", "blue_light"),
    ("Ansi 5 Color", "purple"),
    ("Ansi 13 Color", "purple_light"),
    ("Ansi 6 Color", "teal"),
    ("Ansi 14 Color", "teal_light"),
    ("Ansi 7 Color", "gray05"),
    ("Ansi 15 Color", "gray04"),
    ("Background Color", "bg"),
    ("Foreground Color", "fg"),
    ("Cursor Color", "cursor"),
    ("Selection Color", "selection"),
    ("Bold Color", "bold")
  ]

  /** The palette names a base entry can have: the values of `KeyTable`, as
      `BaseNamesAreTableNames` proves. */
  const BaseNames: set<string> := {
    "gray0d", "gray09", "red", "red_light", "green", "green_light", "yellow",
    "yellow_light", "blue", "blue_light", "purple", "purple_light", "teal",
    "teal_light", "gray05", "gray04", "bg", "fg", "cursor", "selection", "bold"
  }

  /** Dictionary lookup in an association table: the name of the first pair
      whose key matches. */
  function Lookup(table: seq<(string, string)>, key: string): Option<string> {
    if |table| == 0 then None
    else if table[0].0 == key then Some(table[0].1)
    else Lookup(table[1..], key)
  }

  /** A lookup finds a name iff some pair has the key, and the name it finds
      belongs to such a pair. */
  lemma {:induction false} LookupSpec(table: seq<(string, string)>, key: string)
    ensures Lookup(table, key).None? <==> forall j :: 0 <= j < |table| ==> table[j].0 != key
    ensures Lookup(table, key).Some? ==> exists j :: 0 <= j < |table| && table[j] == (key, Lookup(table, key).value)
  {
    if |table| > 0 && table[0].0 != key {
      LookupSpec(table[1..], key);
      if Lookup(table, key).Some? {
        var j :| 0 <= j < |table[1..]| && table[1..][j] == (key, Lookup(table, key).value);
        assert table[j + 1] == table[1..][j];
      }
      assert forall j :: 1 <= j < |table| ==> table[j] == table[1..][j - 1];
    }
  }

  /** `iterm_to_vim_map.get(key)`. */
  function VimName(key: string): Option<string> {
    Lookup(KeyTable, key)
  }

  lemma TableNamesAreBaseNames()
    ensures forall j :: 0 <= j < |KeyTable| ==> KeyTable[j].1 in BaseNames
  {
  }

  /** `BaseNames` is exactly the set of names `KeyTable` maps to. */
  lemma BaseNamesAreTableNames()
    ensures BaseNames == set j | 0 <= j < |KeyTable| :: KeyTable[j].1
  {
    TableNamesAreBaseNames();
    forall k | k in BaseNames
      ensures exists j :: 0 <= j < |KeyTable| && KeyTable[j].1 == k
    {
      BaseNameInTable(k);
    }
  }

  lemma BaseNameInTable(k: string)
    requires k in BaseNames
    ensures exists j :: 0 <= j < |KeyTable| && KeyTable[j].1 == k
  {
    var names := seq(|KeyTable|, j requires 0 <= j < |KeyTable| => KeyTable[j].1);
    assert names == ["gray0d", "gray09", "red", "red_light", "green", "green_light", "yellow",
                     "yellow_light", "blue", "blue_light", "purple", "purple_light", "teal",
                     "teal_light", "gray05", "gray04", "bg", "fg", "cursor", "selection", "bold"];
    assert k in names;
    var j :| 0 <= j < |names| && names[j] == k;
    assert KeyTable[j].1 == k;
  }

  /** Every recognised key maps to a base name. */
  lemma VimNameInBase(key: string)
    ensures VimName(key).Some? ==> VimName(key).value in BaseNames
  {
    LookupSpec(KeyTable, key);
    TableNamesAreBaseNames();
  }

  /** The palette string of one colour dictionary: the extracted channels,
      first converted from P3 to sRGB by `toSrgb` when the dictionary declares
      P3, then formatted by `to_hex`. */
  function DictHex(children: seq<Element>, toSrgb: Rgb -> Rgb): (s: string)
    ensures IsHexColor(s)
  {
    var c := ExtractColor(children);
    var rgb := if c.isP3 then toSrgb(c.rgb) else c.rgb;
    ToHex(rgb.r, rgb.g, rgb.b)
  }

  /** The child at offset `i` is a key that `table` recognises, immediately
      followed by a `dict` sibling, so the driver stores an entry for it. */
  predicate EntryAt(cs: seq<Element>, table: seq<(string, string)>, i: int) {
    0 <= i && i + 1 < |cs| && cs[i].Key? && Lookup(table, cs[i].name).Some? && cs[i + 1].Dict?
  }

  /** The palette name the entry at offset `i` is stored under. */
  function EntryName(cs: seq<Element>, table: seq<(string, string)>, i: int): string
    requires EntryAt(cs, table, i)
  {
    Lookup(table, cs[i].name).value
  }

  /** The base palette after the driver has visited the first `n` children,
      in document order. */
  function Stored(cs: seq<Element>, table: seq<(string, string)>, n: nat, toSrgb: Rgb -> Rgb): map<string, string>
    requires n <= |cs|
    decreases n
  {
    if n == 0 then map[]
    else Visit(cs, table, n - 1, Stored(cs, table, n - 1, toSrgb), toSrgb)
  }

  /** One iteration of the driver loop, on the child at offset `i`. */
  function Visit(cs: seq<Element>, table: seq<(string, string)>, i: nat, prev: map<string, string>, toSrgb: Rgb -> Rgb): map<string, string>
    requires i < |cs|
  {
    if EntryAt(cs, table, i) then prev[EntryName(cs, table, i) := DictHex(cs[i + 1].children, toSrgb)] else prev
  }

  /** A name is stored iff some entry among the first `n` children has it. */
  ghost predicate KeysFrom(cs: seq<Element>, table: seq<(string, string)>, n: nat, m: map<string, string>) {
    forall name :: name in m <==> exists i :: 0 <= i < n && EntryAt(cs, table, i) && EntryName(cs, table, i) == name
  }

  /** Every stored value is a palette string. */
  ghost predicate AllHex(m: map<string, string>) {
    forall name :: name in m ==> IsHexColor(m[name])
  }

  /** The entry at offset `i` is the last one for its name among the first
      `n` children. */
  ghost predicate LastEntry(cs: seq<Element>, table: seq<(string, string)>, n: nat, i: int) {
    EntryAt(cs, table, i) && forall j :: i < j < n && EntryAt(cs, table, j) ==> EntryName(cs, table, j) != EntryName(cs, table, i)
  }

  /** Among the first `n` children, the last entry for a name decides its
      value. */
  ghost predicate LastWins(cs: seq<Element>, table: seq<(string, string)>, n: nat, toSrgb: Rgb -> Rgb, m: map<string, string>)
    requires n <= |cs|
  {
    forall i :: 0 <= i < n && LastEntry(cs, table, n, i) ==> Holds(m, EntryName(cs, table, i), DictHex(cs[i + 1].children, toSrgb))
  }

  /** `m` stores `value` under `name`. */
  predicate Holds(m: map<string, string>, name: string, value: string) {
    name in m && m[name] == value
  }

  /** The stored names are those of the entries visited so far. */
  lemma {:induction false} StoredKeys(cs: seq<Element>, table: seq<(string, string)>, n: nat, toSrgb: Rgb -> Rgb)
    requires n <= |cs|
    ensures KeysFrom(cs, table, n, Stored(cs, table, n, toSrgb))
    decreases n
  {
    if n > 0 {
      StoredKeys(cs, table, n - 1, toSrgb);
      KeysStep(cs, table, n, toSrgb, Stored(cs, table, n - 1, toSrgb));
    }
  }

  lemma KeysStep(cs: seq<Element>, table: seq<(string, string)>, n: nat, toSrgb: Rgb -> Rgb, prev: map<string, string>)
    requires 1 <= n <= |cs|
    requires KeysFrom(cs, table, n - 1, prev)
    ensures KeysFrom(cs, table, n, Visit(cs, table, n - 1, prev, toSrgb))
  {
    var m := Visit(cs, table, n - 1, prev, toSrgb);
    forall name
      ensures name in m <==> exists i :: 0 <= i < n && EntryAt(cs, table, i) && EntryName(cs, table, i) == name
    {
      if EntryAt(cs, table, n - 1) && EntryName(cs, table, n - 1) == name {
        assert name in m;
      } else {
        KeysStepOther(cs, table, n, toSrgb, prev, name);
      }
    }
  }

  /** A name the visited child does not store is present iff it was before. */
  lemma KeysStepOther(cs: seq<Element>, table: seq<(string, string)>, n: nat, toSrgb: Rgb -> Rgb, prev: map<string, string>, name: string)
    requires 1 <= n <= |cs|
    requires KeysFrom(cs, table, n - 1, prev)
    requires !(EntryAt(cs, table, n - 1) && EntryName(cs, table, n - 1) == name)
    ensures name in Visit(cs, table, n - 1, prev, toSrgb) <==> exists i :: 0 <= i < n && EntryAt(cs, table, i) && EntryName(cs, table, i) == name
  {
    assert name in Visit(cs, table, n - 1, prev, toSrgb) <==> name in prev;
    assert name in prev <==> exists i :: 0 <= i < n - 1 && EntryAt(cs, table, i) && EntryName(cs, table, i) == name;
    if exists i :: 0 <= i < n && EntryAt(cs, table, i) && EntryName(cs, table, i) == name {
      var i :| 0 <= i < n && EntryAt(cs, table, i) && EntryName(cs, table, i) == name;
      assert i < n - 1;
    }
  }

  /** Every stored value is a palette string. */
  lemma {:induction false} StoredHex(cs: seq<Element>, table: seq<(string, string)>, n: nat, toSrgb: Rgb -> Rgb)
    requires n <= |cs|
    ensures AllHex(Stored(cs, table, n, toSrgb))
    decreases n
  {
    if n > 0 {
      StoredHex(cs, table, n - 1, toSrgb);
    }
  }

  /** The value of a name is that of its last entry visited so far. */
  lemma {:induction false} StoredLast(cs: seq<Element>, table: seq<(string, string)>, n: nat, toSrgb: Rgb -> Rgb)
    requires n <= |cs|
    ensures LastWins(cs, table, n, toSrgb, Stored(cs, table, n, toSrgb))
    decreases n
  {
    if n > 0 {
      StoredLast(cs, table, n - 1, toSrgb);
      LastStep(cs, table, n, toSrgb, Stored(cs, table, n - 1, toSrgb));
    }
  }

  lemma LastStep(cs: seq<Element>, table: seq<(string, string)>, n: nat, toSrgb: Rgb -> Rgb, prev: map<string, string>)
    requires 1 <= n <= |cs|
    requires LastWins(cs, table, n - 1, toSrgb, prev)
    ensures LastWins(cs, table, n, toSrgb, Visit(cs, table, n - 1, prev, toSrgb))
  {
    forall i | 0 <= i < n && LastEntry(cs, table, n, i)
      ensures Holds(Visit(cs, table, n - 1, prev, toSrgb), EntryName(cs, table, i), DictHex(cs[i + 1].children, toSrgb))
    {
      LastStepAt(cs, table, n, toSrgb, prev, i);
    }
  }

  /** The last entry for a name among the first `n` children: either the
      visited child, which stores its own value, or an earlier one, which keeps
      the value it had. */
  lemma LastStepAt(cs: seq<Element>, table: seq<(string, string)>, n: nat, toSrgb: Rgb -> Rgb, prev: map<string, string>, i: nat)
    requires 1 <= n <= |cs| && i < n
    requires LastWins(cs, table, n - 1, toSrgb, prev)
    requires LastEntry(cs, table, n, i)
    ensures Holds(Visit(cs, table, n - 1, prev, toSrgb), EntryName(cs, table, i), DictHex(cs[i + 1].children, toSrgb))
  {
    if i < n - 1 {
      LastStepEarlier(cs, table, n, toSrgb, prev, i);
    }
  }

  /** An earlier last entry: the visited child does not write its name. */
  lemma LastStepEarlier(cs: seq<Element>, table: seq<(string, string)>, n: nat, toSrgb: Rgb -> Rgb, prev: map<string, string>, i: nat)
    requires 1 <= n <= |cs| && i < n - 1
    requires LastWins(cs, table, n - 1, toSrgb, prev)
    requires LastEntry(cs, table, n, i)
    ensures Holds(Visit(cs, table, n - 1, prev, toSrgb), EntryName(cs, table, i), DictHex(cs[i + 1].children, toSrgb))
  {
    var name := EntryName(cs, table, i);
    assert LastEntry(cs, table, n - 1, i);
    assert Holds(prev, name, DictHex(cs[i + 1].children, toSrgb));
    assert !EntryAt(cs, table, n - 1) || EntryName(cs, table, n - 1) != name;
  }

  /** The driver over all children of the top-level dictionary, with the key
      table as a parameter. A name is present iff some recognised key with a
      `dict` sibling maps to it; its value is the palette string of the
      dictionary after the last such key. */
  function ExtractWith(cs: seq<Element>, table: seq<(string, string)>, toSrgb: Rgb -> Rgb): (m: map<string, string>)
    ensures forall name :: name in m <==> exists i :: EntryAt(cs, table, i) && EntryName(cs, table, i) == name
    ensures forall name :: name in m ==> IsHexColor(m[name])
    ensures forall i :: EntryAt(cs, table, i) && (forall j :: i < j && EntryAt(cs, table, j) ==> EntryName(cs, table, j) != EntryName(cs, table, i))
              ==> m[EntryName(cs, table, i)] == DictHex(cs[i + 1].children, toSrgb)
    ensures forall name :: name in m ==> exists j :: 0 <= j < |table| && table[j].1 == name
  {
    StoredKeys(cs, table, |cs|, toSrgb);
    StoredHex(cs, table, |cs|, toSrgb);
    StoredLast(cs, table, |cs|, toSrgb);
    forall i | EntryAt(cs, table, i)
      ensures exists j :: 0 <= j < |table| && table[j].1 == EntryName(cs, table, i)
    {
      LookupSpec(table, cs[i].name);
    }
    Stored(cs, table, |cs|, toSrgb)
  }

  /** The base palette: the driver with `iterm_to_vim_map`. Its names are base
      names. */
  function ExtractPalette(cs: seq<Element>, toSrgb: Rgb -> Rgb): (m: map<string, string>)
    ensures forall name :: name in m <==> exists i :: EntryAt(cs, KeyTable, i) && EntryName(cs, KeyTable, i) == name
    ensures forall name :: name in m ==> IsHexColor(m[name])
    ensures forall i :: EntryAt(cs, KeyTable, i) && (forall j :: i < j && EntryAt(cs, KeyTable, j) ==> EntryName(cs, KeyTable, j) != EntryName(cs, KeyTable, i))
              ==> m[EntryName(cs, KeyTable, i)] == DictHex(cs[i + 1].children, toSrgb)
    ensures m.Keys <= BaseNames
  {
    var m := ExtractWith(cs, KeyTable, toSrgb);
    TableNamesAreBaseNames();
    m
  }

  /** What the driver has stored after visiting `n` children depends only on
      the first `n + 1` of them. */
  lemma {:induction false} StoredAgree(cs: seq<Element>, ds: seq<Element>, table: seq<(string, string)>, n: nat, toSrgb: Rgb -> Rgb)
    requires n < |cs| && n < |ds|
    requires forall j :: 0 <= j <= n ==> cs[j] == ds[j]
    ensures Stored(cs, table, n, toSrgb) == Stored(ds, table, n, toSrgb)
    decreases n
  {
    if n > 0 {
      StoredAgree(cs, ds, table, n - 1, toSrgb);
      assert EntryAt(cs, table, n - 1) == EntryAt(ds, table, n - 1);
    }
  }

  /** Appending a key and the element after it to the top-level children: the
      palette gains, or overwrites, the key's entry exactly when the key is
      recognised and the element is a `dict`; otherwise nothing changes. */
  lemma AppendEntryWith(cs: seq<Element>, table: seq<(string, string)>, key: string, e: Element, toSrgb: Rgb -> Rgb)
    ensures Lookup(table, key).Some? && e.Dict? ==>
              ExtractWith(cs + [Key(key), e], table, toSrgb) == ExtractWith(cs, table, toSrgb)[Lookup(table, key).value := DictHex(e.children, toSrgb)]
    ensures !(Lookup(table, key).Some? && e.Dict?) ==>
              ExtractWith(cs + [Key(key), e], table, toSrgb) == ExtractWith(cs, table, toSrgb)
  {
    var ext := cs + [Key(key), e];
    var n := |cs|;
    assert ext[n] == Key(key) && ext[n + 1] == e;
    assert !EntryAt(ext, table, n + 1);
    assert EntryAt(ext, table, n) <==> Lookup(table, key).Some? && e.Dict?;
    var before := Stored(ext, table, n, toSrgb);
    if n > 0 {
      assert !EntryAt(ext, table, n - 1);
      assert !EntryAt(cs, table, n - 1);
      StoredAgree(cs, ext, table, n - 1, toSrgb);
    }
    assert before == Stored(cs, table, n, toSrgb);
    assert Stored(ext, table, n + 2, toSrgb) == Stored(ext, table, n + 1, toSrgb);
  }

  /** `AppendEntryWith` for `iterm_to_vim_map`: a repeated key overwrites. */
  lemma AppendEntry(cs: seq<Element>, key: string, e: Element, toSrgb: Rgb -> Rgb)
    ensures VimName(key).Some? && e.Dict? ==>
              ExtractPalette(cs + [Key(key), e], toSrgb) == ExtractPalette(cs, toSrgb)[VimName(key).value := DictHex(e.children, toSrgb)]
    ensures !(VimName(key).Some? && e.Dict?) ==>
              ExtractPalette(cs + [Key(key), e], toSrgb) == ExtractPalette(cs, toSrgb)
  {
    AppendEntryWith(cs, KeyTable, key, e, toSrgb);
  }
}
