/** config.c in its own form: three dictionaries that are filled by index loops, and the loops that
    read the loaded one. */
module Configs {
  import opened Wrappers
  import opened Slots
  import opened Tables
  import opened Dictionaries
  import opened CStrings
  import opened IniFiles
  import opened IniSections
  import opened EntryLists
  import opened ConfigTables
  import opened LoadedFiles
  import opened LoadedViews

  ghost predicate Apart(d: Dictionary, e: Dictionary)
    reads d, e
  {
    d != e && d.Arrays() !! e.Arrays()
  }

  /** In a packed dictionary slot i holds entry i. */
  lemma {:induction false} EntryAt(d: Dictionary, i: nat)
    requires d.Valid() && Packed(d.table) && i < d.n
    ensures i < d.size && i < d.key.Length && i < d.val.Length && i < |Items(d.table)|
    ensures d.key[i] == Some(Items(d.table)[i].key) && d.val[i] == Items(d.table)[i].val
  {
    PackedItems(d.table);
    d.At(i);
  }

  lemma CountIsItems(d: Dictionary)
    requires d.Valid()
    ensures d.n == |Items(d.table)| <= d.size && d.table != []
  {
  }

  // ----- the loops of config_load -----

  method ApplyOverrides(config: Dictionary, overrides: Dictionary)
    requires config.Valid() && overrides.Valid() && Apart(config, overrides) && Packed(overrides.table)
    modifies config, config.Arrays()
    ensures config.Valid() && config.table == SetAll(old(config.table), Items(overrides.table))
    ensures fresh(config.Arrays() - old(config.Arrays()))
  {
    hide Items, SetIn, StrLwc, Packed, Dictionary.Valid;
    CountIsItems(config);
    CountIsItems(overrides);
    ghost var es := Items(overrides.table);
    var n := 0;
    assert es[0..] == es;
    while n < overrides.n
      invariant 0 <= n <= overrides.n == |es|
      invariant config.Valid() && config.table != [] && fresh(config.Arrays() - old(config.Arrays()))
      invariant SetAll(config.table, es[n..]) == SetAll(old(config.table), es)
    {
      EntryAt(overrides, n);
      var _ := SetString(config, overrides.key[n].value, overrides.val[n]);
      CountIsItems(config);
      assert es[n..][1..] == es[n + 1..];
      n := n + 1;
    }
  }

  method ApplyDefaults(config: Dictionary, defaults: Dictionary)
    requires config.Valid() && defaults.Valid() && Apart(config, defaults) && Packed(defaults.table)
    modifies config, config.Arrays()
    ensures config.Valid() && config.table == SetDefaults(old(config.table), Items(defaults.table))
    ensures fresh(config.Arrays() - old(config.Arrays()))
  {
    hide Items, SetDefault, Packed, Dictionary.Valid;
    CountIsItems(config);
    CountIsItems(defaults);
    ghost var es := Items(defaults.table);
    var n := 0;
    assert es[0..] == es;
    while n < defaults.n
      invariant 0 <= n <= defaults.n == |es|
      invariant config.Valid() && config.table != [] && fresh(config.Arrays() - old(config.Arrays()))
      invariant SetDefaults(config.table, es[n..]) == SetDefaults(old(config.table), es)
    {
      EntryAt(defaults, n);
      assert es[n..][1..] == es[n + 1..];
      ApplyDefault(config, defaults.key[n].value, defaults.val[n]);
      CountIsItems(config);
      n := n + 1;
    }
  }

  /** Sets the value if the key reads as NULL. */
  method ApplyDefault(config: Dictionary, key: string, val: Value)
    requires config.Valid()
    modifies config, config.Arrays()
    ensures old(config.table) != []
    ensures config.Valid() && config.table == SetDefault(old(config.table), Entry(key, val))
    ensures fresh(config.Arrays() - old(config.Arrays()))
  {
    hide Items, SetIn, StrLwc, Lookup, Dictionary.Valid;
    CountIsItems(config);
    var value := GetString(config, key, None);
    if value.None? {
      var _ := SetString(config, key, val);
    }
  }

  // ----- the loops over a dictionary -----

  /** config_copydict. */
  method CopyDict(src: Dictionary) returns (dest: Dictionary)
    requires src.Valid()
    ensures dest.Valid() && fresh(dest) && fresh(dest.Arrays())
    ensures dest.table == Copied(src.table)
  {
    hide Items, SetIn, StrLwc, SetAll, Dictionary.Valid;
    CountIsItems(src);
    dest := new Dictionary(src.n);
    ghost var t, cnt := src.table, src.n;
    var n := 0;
    assert t[0..cnt] == t[..cnt];
    while n < src.n
      invariant 0 <= n <= src.n
      invariant dest.Valid() && dest.table != [] && fresh(dest) && fresh(dest.Arrays())
      invariant SetAll(dest.table, Items(t[n..cnt])) == Copied(t)
    {
      src.At(n);
      CopyStep(dest.table, t, n, cnt);
      if src.key[n].Some? {
        var _ := SetString(dest, src.key[n].value, src.val[n]);
        CountIsItems(dest);
      }
      n := n + 1;
    }
    NothingToCopy(dest.table, t[n..cnt]);
  }

  lemma {:induction false} CopyStep(d: Table, t: Table, n: nat, cnt: nat)
    requires n < cnt <= |t| && d != []
    ensures SetAll(d, Items(t[n..cnt])) ==
      SetAll(if t[n].None? then d else SetIn(d, StrLwc(t[n].value.key), t[n].value.val), Items(t[n + 1..cnt]))
  {
    hide SetIn, StrLwc;
    assert t[n..cnt][1..] == t[n + 1..cnt];
    assert Items(t[n..cnt]) == One(t[n]) + Items(t[n + 1..cnt]);
    hide Items;
    if t[n].Some? {
      assert Items(t[n..cnt])[1..] == Items(t[n + 1..cnt]);
    } else {
      assert Items(t[n..cnt]) == Items(t[n + 1..cnt]);
    }
  }

  lemma {:induction false} NothingToCopy(d: Table, t: Table)
    requires d != []
    ensures t == [] ==> SetAll(d, Items(t)) == d
  {
  }

  /** What slot n hands to module_load. */
  method ModuleAt(config: Dictionary, n: nat) returns (found: Option<string>)
    requires config.Valid() && Packed(config.table) && n < config.n
    ensures n < |Items(config.table)|
    ensures ModuleOf(Items(config.table)[n]) == if found.Some? then [found.value] else []
  {
    hide Items, Packed, Dictionary.Valid;
    EntryAt(config, n);
    found := if config.key[n].value == MODULE_KEY then config.val[n] else None;
  }

  ghost function ModulesUpTo(es: seq<Entry>, n: nat): seq<string>
    requires n <= |es|
  {
    Modules(es[..n])
  }

  lemma {:induction false} ModulesStep(es: seq<Entry>, n: nat)
    ensures ModulesUpTo(es, 0) == [] && ModulesUpTo(es, |es|) == Modules(es)
    ensures n < |es| ==> ModulesUpTo(es, n + 1) == ModulesUpTo(es, n) + ModuleOf(es[n])
  {
    hide ModuleOf;
    assert es[..|es|] == es;
    if n < |es| {
      assert Front(es[..n + 1]) == es[..n];
    }
  }

  /** config_load_modules: the values handed to module_load, in order. */
  method LoadModules(config: Dictionary?) returns (r: int, loaded: seq<string>)
    requires config != null ==> config.Valid() && Packed(config.table)
    ensures r == (if config == null then -1 else 0)
    ensures loaded == if config == null then [] else Modules(Items(config.table))
  {
    hide Items, Packed, Modules, ModulesUpTo, ModuleOf, Dictionary.Valid;
    loaded := [];
    if config == null {
      return -1, [];
    }
    CountIsItems(config);
    ghost var es := Items(config.table);
    ModulesStep(es, 0);
    var n := 0;
    while n < config.n
      invariant 0 <= n <= config.n == |es|
      invariant loaded == ModulesUpTo(es, n)
    {
      var found := ModuleAt(config, n);
      ModulesStep(es, n);
      loaded := loaded + (if found.Some? then [found.value] else []);
      n := n + 1;
    }
    ModulesStep(es, n);
    r := 0;
  }

  /** The loop over the spaces from t on. */
  method SkipSpaces(key: string, from: nat) returns (t: nat)
    requires from <= |key|
    ensures from <= t <= |key| && LStrip(key[from..]) == key[t..]
  {
    t := from;
    while t < |key| && IsSpace(key[t])
      invariant from <= t <= |key| && LStrip(key[t..]) == LStrip(key[from..])
    {
      assert key[t..][1..] == key[t + 1..];
      t := t + 1;
    }
  }

  /** The scan for "container", spaces, ':', spaces and a name. */
  method ContainerTitle(key: string) returns (title: Option<string>)
    ensures title == Title(key)
    ensures forall name :: title == Some(name) <==> exists a, b :: IsTitle(key, a, b, name)
    ensures title.None? <==> !exists a, b, name :: IsTitle(key, a, b, name)
  {
    hide LStrip, IsTitle;
    TitleIs(key);
    if !(CONTAINER <= key) {
      return None;
    }
    var t := SkipSpaces(key, |CONTAINER|);
    if t == |key| || key[t] != ':' {
      return None;
    }
    assert key[t..][1..] == key[t + 1..];
    t := SkipSpaces(key, t + 1);
    title := if t == |key| then None else Some(key[t..]);
  }

  /** One entry of the inner loop of config_foreach_container. */
  method CollectEntry(dict: Dictionary, section: string, key: string, val: Value)
    requires dict.Valid()
    modifies dict, dict.Arrays()
    ensures old(dict.table) != []
    ensures dict.Valid() && fresh(dict.Arrays() - old(dict.Arrays()))
    ensures dict.table == Collected(old(dict.table), Entry(key, val), section)
  {
    hide Items, SetIn, StrLwc, InSection, Dictionary.Valid;
    CountIsItems(dict);
    InSectionTest(key, section);
    var l := |section|;
    if section <= key && l < |key| && key[l] == ':' {
      var _ := SetString(dict, key[l + 1..], val);
    }
  }

  lemma {:induction false} CollectStep(es: seq<Entry>, n: nat, c: nat, section: string)
    ensures n < |es| ==> SectionDict(es[n + 1..n + 1], section) == Nones(DICTMINSZ) && es[n + 1..|es|] == es[n + 1..]
    ensures n < c < |es| ==>
      SectionDict(es[n + 1..c + 1], section) == Collected(SectionDict(es[n + 1..c], section), es[c], section)
  {
    hide SetIn, StrLwc, InSection;
    if n < c < |es| {
      var more := es[n + 1..c + 1];
      assert more[..|more| - 1] == es[n + 1..c] && more[|more| - 1] == es[c];
    }
  }

  /** The inner loop of config_foreach_container. */
  method CollectSection(config: Dictionary, n: nat) returns (dict: Dictionary)
    requires config.Valid() && Packed(config.table) && n < config.n
    ensures n < |Items(config.table)|
    ensures dict.Valid() && fresh(dict) && fresh(dict.Arrays())
    ensures dict.table == SectionDict(Items(config.table)[n + 1..], Items(config.table)[n].key)
  {
    hide Items, Packed, SectionDict, Collected, Dictionary.Valid;
    CountIsItems(config);
    EntryAt(config, n);
    ghost var es := Items(config.table);
    var section := config.key[n].value;
    dict := new Dictionary(0);
    CollectStep(es, n, n + 1, section);
    var c := n + 1;
    while c < config.n
      invariant n < c <= config.n == |es|
      invariant dict.Valid() && fresh(dict) && fresh(dict.Arrays())
      invariant dict.table == SectionDict(es[n + 1..c], section)
    {
      EntryAt(config, c);
      CollectStep(es, n, c, section);
      CollectEntry(dict, section, config.key[c].value, config.val[c]);
      c := c + 1;
    }
  }

  lemma InSectionTest(key: string, section: string)
    ensures section <= key && |section| < |key| && key[|section|] == ':' <==> InSection(key, section)
  {
    if section <= key && |section| < |key| && key[|section|] == ':' {
      assert key[..|section| + 1] == section + ":";
    }
    if InSection(key, section) {
      assert (section + ":")[|section|] == ':';
      assert forall i | 0 <= i < |section| :: key[i] == (section + ":")[i] == section[i];
    }
  }

  /** What a callback can read in the dictionary it is given. */
  method Contents(d: Dictionary) returns (t: Table)
    requires d.Valid()
    ensures t == d.table
  {
    hide Represents, Items;
    t := [];
    var i := 0;
    while i < d.size
      invariant 0 <= i <= d.size && t == d.table[..i]
    {
      d.At(i);
      t := t + [if d.key[i].None? then None else Some(Entry(d.key[i].value, d.val[i]))];
      i := i + 1;
    }
  }

  /** The body of the outer loop of config_foreach_container: the arguments of the callback, if it is
      called. */
  method CallAt(config: Dictionary, n: nat) returns (call: seq<Call>)
    requires config.Valid() && Packed(config.table) && n < config.n
    ensures n < |Items(config.table)| && call == CallOf(Items(config.table), n)
  {
    hide Items, Packed, Title, SectionDict, Dictionary.Valid;
    EntryAt(config, n);
    call := [];
    if config.val[n].None? {
      var title := ContainerTitle(config.key[n].value);
      if title.Some? {
        var dict := CollectSection(config, n);
        var slots := Contents(dict);
        call := [Call(title.value, slots)];
      }
    }
  }

  lemma CallsStep(es: seq<Entry>, n: nat)
    ensures Calls(es, 0) == []
    ensures n < |es| ==> Calls(es, n + 1) == Calls(es, n) + CallOf(es, n)
  {
    hide CallOf;
  }

  /** config_foreach_container: the names and dictionaries handed to the callback, in order. */
  method ForeachContainer(config: Dictionary?) returns (r: int, calls: seq<Call>)
    requires config != null ==> config.Valid() && Packed(config.table)
    ensures r == (if config == null then -1 else 0)
    ensures calls == if config == null then [] else Calls(Items(config.table), |Items(config.table)|)
  {
    hide Items, Packed, Calls, CallOf, Dictionary.Valid;
    calls := [];
    if config == null {
      return -1, [];
    }
    CountIsItems(config);
    ghost var es := Items(config.table);
    CallsStep(es, 0);
    var n := 0;
    while n < config.n
      invariant 0 <= n <= config.n == |es|
      invariant calls == Calls(es, n)
    {
      CallsStep(es, n);
      var call := CallAt(config, n);
      calls := calls + call;
      n := n + 1;
    }
    r := 0;
  }

  // ----- the three dictionaries -----

  /** The loops over the loaded dictionary see all of it, and no section twice. */
  predicate Loopable(t: Table) {
    t != [] && Packed(t) && NullsFirst(Items(t))
  }

  lemma {:induction false} SetLoopable(t: Table, key: string, val: Value)
    requires Loopable(t)
    ensures Loopable(SetIn(t, key, val))
  {
    hide Items, Packed, NullsFirst, SetIn, Put;
    PutPacked(t, key, val);
    PutKeepsNullsFirst(Items(t), key, val);
    SetNonEmpty(t, key, val);
  }

  lemma {:induction false} SetAllLoopable(t: Table, es: seq<Entry>)
    requires Loopable(t)
    ensures t != [] && Loopable(SetAll(t, es))
    decreases |es|
  {
    hide SetIn, StrLwc, Packed, NullsFirst, Items;
    if es != [] {
      SetLoopable(t, StrLwc(es[0].key), es[0].val);
      SetAllLoopable(SetIn(t, StrLwc(es[0].key), es[0].val), es[1..]);
    }
  }

  lemma {:induction false} SetDefaultsLoopable(t: Table, es: seq<Entry>)
    requires Loopable(t)
    ensures t != [] && Loopable(SetDefaults(t, es))
    decreases |es|
  {
    hide SetIn, StrLwc, Packed, NullsFirst, Items, ValueOrNull;
    if es != [] {
      SetLoopable(t, StrLwc(es[0].key), es[0].val);
      SetDefaultsLoopable(SetDefault(t, es[0]), es[1..]);
    }
  }

  lemma {:induction false} LoadedLoopable(text: string)
    ensures LoadText(text, START).Reading? ==> Loopable(LoadText(text, START).table)
  {
    hide LoadText, Stores, Items, Packed, NullsFirst, Entries;
    LoadedTable(text);
    NullsComeFirst(Stores(text, START));
  }

  lemma {:induction false} LayeredLoopable(t: Table, overrides: Table, defaults: Table)
    requires Loopable(t)
    ensures t != [] && Loopable(Layered(t, overrides, defaults))
  {
    hide SetAll, SetDefaults, Packed, NullsFirst, Items;
    SetAllLoopable(t, Items(overrides));
    SetDefaultsLoopable(SetAll(t, Items(overrides)), Items(defaults));
  }

  lemma LayerPacked(t: Table)
    requires Layer(t)
    ensures t != [] && Packed(t)
  {
  }

  /** The dictionary a file gives, if it can be opened and its last lines are free of errors. */
  ghost function FileTable(file: Option<string>): Option<Table> {
    if file.None? then None
    else
      match LoadText(file.value, START)
      case Reading(table, _, _, errs) => if errs == 0 then Some(table) else None
      case _ => None
  }

  /** The part of config_load that makes the dictionary. */
  method ReadAndLayer(file: Option<string>, overrides: Dictionary, defaults: Dictionary) returns (config: Dictionary?)
    requires overrides.Valid() && Layer(overrides.table) && defaults.Valid() && Layer(defaults.table)
    requires file.Some? ==> !LoadText(file.value, START).Undefined?
    ensures config == null <==> FileTable(file) == None
    ensures config != null ==>
      && config.Valid() && fresh(config) && fresh(config.Arrays())
      && FileTable(file).value != []
      && config.table == Layered(FileTable(file).value, overrides.table, defaults.table)
      && Loopable(config.table)
  {
    hide Items, SetIn, StrLwc, Dictionary.Valid, Packed, NullsFirst, LoadText, SetAll, SetDefaults, Layer;
    config := null;
    if file.Some? {
      config := IniparserLoad(file.value);
    }
    if config == null {
      return;
    }
    CountIsItems(config);
    LoadedLoopable(file.value);
    LayeredLoopable(config.table, overrides.table, defaults.table);
    LayerPacked(overrides.table);
    LayerPacked(defaults.table);
    ApplyOverrides(config, overrides);
    ApplyDefaults(config, defaults);
  }

  class Config {
    var defaults: Dictionary?
    var overrides: Dictionary?
    var config: Dictionary?

    static ghost function Owned(d: Dictionary?): set<object>
      reads d
    {
      if d == null then {} else {d} + d.Arrays()
    }

    ghost predicate Valid()
      reads this, defaults, overrides, config, Owned(defaults), Owned(overrides), Owned(config)
    {
      && this !in Owned(defaults) + Owned(overrides) + Owned(config)
      && Owned(defaults) !! Owned(overrides) && Owned(defaults) !! Owned(config) && Owned(overrides) !! Owned(config)
      && (defaults != null ==> defaults.Valid() && Layer(defaults.table))
      && (overrides != null ==> overrides.Valid() && Layer(overrides.table))
      && (config != null ==> config.Valid() && Loopable(config.table))
    }

    lemma Unowned(d: Dictionary?)
      ensures this !in Owned(d)
    {
    }

    lemma NoneOwned()
      ensures Owned(null) == {}
    {
    }

    static method NewLayers() returns (d: Dictionary, o: Dictionary)
      ensures d.Valid() && o.Valid() && fresh(Owned(d)) && fresh(Owned(o)) && Owned(d) !! Owned(o)
      ensures d.table == o.table == Nones(DICTMINSZ)
    {
      hide Items, Represents;
      d := new Dictionary(0);
      o := new Dictionary(0);
    }

    /** config_init. */
    constructor ()
      ensures Valid() && config == null
      ensures defaults != null && fresh(Owned(defaults)) && defaults.table == Nones(DICTMINSZ)
      ensures overrides != null && fresh(Owned(overrides)) && overrides.table == Nones(DICTMINSZ)
    {
      EmptyLayer(DICTMINSZ);
      hide Items, Layer, Loopable, Dictionary.Valid, Owned;
      config := null;
      var d, o := NewLayers();
      defaults, overrides := d, o;
      new;
      NoneOwned();
      Unowned(defaults);
      Unowned(overrides);
    }

    /** config_set: an override until config_load, a change of the loaded dictionary after it. */
    method Set(key: string, value: Value)
      requires Valid()
      modifies Owned(if overrides != null then overrides else config)
      ensures Valid()
      ensures overrides != null ==> overrides.table == SetIn(old(overrides.table), StrLwc(key), value)
      ensures overrides == null && config != null ==> config.table == SetIn(old(config.table), StrLwc(key), value)
    {
      hide Items, SetIn, StrLwc, Dictionary.Valid, Layer, Loopable;
      var target := if overrides != null then overrides else config;
      if target == null {
        return;
      }
      if overrides != null {
        LayerKept(overrides.table, key, value);
      } else {
        SetLoopable(config.table, StrLwc(key), value);
      }
      var _ := SetString(target, key, value);
    }

    /** config_set_default. */
    method SetDefaultValue(key: string, value: Value)
      requires Valid()
      modifies Owned(if defaults != null then defaults else config)
      ensures Valid()
      ensures defaults != null ==> defaults.table == SetIn(old(defaults.table), StrLwc(key), value)
      ensures defaults == null && config != null ==>
        old(config.table) != [] && config.table == SetDefault(old(config.table), Entry(key, value))
    {
      hide Items, SetIn, StrLwc, SetDefault, Dictionary.Valid, Layer, Loopable, Lookup;
      if defaults != null {
        LayerKept(defaults.table, key, value);
        var _ := SetString(defaults, key, value);
        return;
      }
      if config != null {
        DefaultLoopable(config.table, Entry(key, value));
        LoopableNonEmpty(config.table);
        ApplyDefault(config, key, value);
      }
    }

    lemma DefaultLoopable(t: Table, e: Entry)
      requires Loopable(t)
      ensures t != [] && Loopable(SetDefault(t, e))
    {
      hide SetIn, StrLwc, Items, Packed, NullsFirst, Lookup;
      SetLoopable(t, StrLwc(e.key), e.val);
    }

    lemma LoopableNonEmpty(t: Table)
      requires Loopable(t)
      ensures t != []
    {
    }

    /** config_get: the caller's default only for a key that is absent, from the loaded dictionary
        or, before that, from the defaults. */
    method Get(key: string, def: Value) returns (r: Value)
      requires Valid()
      ensures r ==
        if config != null then Lookup(config.table, StrLwc(key)).GetOr(def)
        else if defaults != null then Lookup(defaults.table, StrLwc(key)).GetOr(def)
        else def
    {
      if config != null {
        r := GetString(config, key, def);
      } else if defaults != null {
        r := GetString(defaults, key, def);
      } else {
        r := def;
      }
    }

    /** config_load: the overrides go over the file, the defaults where nothing else is. */
    method Load(file: Option<string>) returns (r: int)
      requires Valid() && overrides != null && defaults != null
      requires file.Some? ==> !LoadText(file.value, START).Undefined?
      modifies this
      ensures Valid()
      ensures match FileTable(file)
        case None =>
          r == -1 && config == null && overrides == old(overrides) && defaults == old(defaults)
        case Some(t) =>
          && r == 0 && overrides == null && defaults == null && config != null && t != []
          && config.table == Layered(t, old(overrides.table), old(defaults.table))
    {
      hide Items, Dictionary.Valid, Layer, Layered, Loopable, FileTable, LoadText;
      config := ReadAndLayer(file, overrides, defaults);
      if config == null {
        return -1;
      }
      overrides := null;
      defaults := null;
      r := 0;
    }
  }
}
