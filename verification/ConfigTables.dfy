/** config.c on values: layering, copying, and the loops over the loaded dictionary. */
module ConfigTables {
  import opened Wrappers
  import opened Slots
  import opened Tables
  import opened CStrings
  import opened EntryLists
  import opened IniSections

  // ----- the three layers -----

  /** iniparser_set for each entry in turn. */
  function SetAll(t: Table, es: seq<Entry>): (r: Table)
    requires t != []
    ensures r != []
    decreases |es|
  {
    if es == [] then t else SetAll(SetIn(t, StrLwc(es[0].key), es[0].val), es[1..])
  }

  /** iniparser_getstring with NULL as the default: absent and NULL look alike. */
  function ValueOrNull(t: Table, key: string): Value {
    Lookup(t, key).GetOr(None)
  }

  function SetDefault(t: Table, e: Entry): (r: Table)
    requires t != []
    ensures r != []
  {
    if ValueOrNull(t, StrLwc(e.key)).None? then SetIn(t, StrLwc(e.key), e.val) else t
  }

  function SetDefaults(t: Table, es: seq<Entry>): (r: Table)
    requires t != []
    ensures r != []
    decreases |es|
  {
    if es == [] then t else SetDefaults(SetDefault(t, es[0]), es[1..])
  }

  /** What config_load makes of the file, the overrides and the defaults. */
  function Layered(file: Table, overrides: Table, defaults: Table): (r: Table)
    requires file != []
    ensures r != []
  {
    SetDefaults(SetAll(file, Items(overrides)), Items(defaults))
  }

  lemma {:induction false} SetAllBinds(t: Table, es: seq<Entry>, key: string)
    requires t != [] && KeysDistinct(es) && CleanKeys(es)
    ensures Lookup(SetAll(t, es), key) == if Binding(es, key).Some? then Binding(es, key) else Lookup(t, key)
    decreases |es|
  {
    hide SetIn, Lookup, StrLwc;
    if es != [] {
      LookupAfterSet(t, es[0].key, es[0].val, key);
      assert forall i | 0 <= i < |es[1..]| :: es[1..][i] == es[i + 1];
      SetAllBinds(SetIn(t, es[0].key, es[0].val), es[1..], key);
      BindingNone(es[1..], es[0].key);
    }
  }

  /** What a default does to a binding: it replaces a NULL or missing one. */
  function Defaulted(value: Option<Value>, default: Option<Value>): Option<Value> {
    if value.GetOr(None).None? && default.Some? then default else value
  }

  lemma {:induction false} SetDefaultsBinds(t: Table, es: seq<Entry>, key: string)
    requires t != [] && KeysDistinct(es) && CleanKeys(es)
    ensures Lookup(SetDefaults(t, es), key) == Defaulted(Lookup(t, key), Binding(es, key))
    decreases |es|
  {
    hide SetIn, Lookup, StrLwc;
    if es != [] {
      LookupAfterSet(t, es[0].key, es[0].val, key);
      assert forall i | 0 <= i < |es[1..]| :: es[1..][i] == es[i + 1];
      SetDefaultsBinds(SetDefault(t, es[0]), es[1..], key);
      BindingNone(es[1..], es[0].key);
    }
  }

  /** A layer that was only written through config_set or config_set_default. */
  predicate Layer(t: Table) {
    t != [] && Packed(t) && Distinct(t) && CleanKeys(Items(t))
  }

  /** After config_load every key has its override if there is one, else its first binding in the
      file, duplicates or not; and its default if that is NULL or missing and there is one. */
  lemma {:induction false} LayersResolve(file: Table, overrides: Table, defaults: Table, key: string)
    requires file != [] && Layer(overrides) && Layer(defaults)
    ensures Lookup(Layered(file, overrides, defaults), key) ==
      Defaulted(
        if Lookup(overrides, key).Some? then Lookup(overrides, key) else Lookup(file, key),
        Lookup(defaults, key))
  {
    hide Items, Lookup, SetAll, SetDefaults, Distinct, Packed, Binding, KeysDistinct, CleanKeys;
    DistinctItems(overrides);
    DistinctItems(defaults);
    SetAllBinds(file, Items(overrides), key);
    SetDefaultsBinds(SetAll(file, Items(overrides)), Items(defaults), key);
    LookupIsBinding(overrides, key);
    LookupIsBinding(defaults, key);
  }

  lemma SetNonEmpty(t: Table, key: string, val: Value)
    requires t != []
    ensures SetIn(t, key, val) != []
  {
  }

  lemma PutKeepsClean(es: seq<Entry>, key: string, v: Value)
    requires CleanKeys(es) && CleanKey(key)
    ensures CleanKeys(Put(es, key, v))
  {
    hide CleanKey;
  }

  /** Writing through iniparser_set keeps a layer a layer. */
  lemma {:induction false} LayerKept(t: Table, entry: string, v: Value)
    requires Layer(t)
    ensures Layer(SetIn(t, StrLwc(entry), v))
  {
    var key := StrLwc(entry);
    StrLwcFixed(entry);
    SetNonEmpty(t, key, v);
    hide Items, SetIn, Find, StrLwc, Distinct, Packed, CleanKeys, Put;
    PutPacked(t, key, v);
    SetCounts(t, key, v);
    PutKeepsClean(Items(t), key, v);
  }

  // ----- copying -----

  /** config_copydict: its loop ends at n, the number of entries, and skips empty slots. */
  function Copied(t: Table): Table {
    var n := |Items(t)|;
    SetAll(Nones(if n < DICTMINSZ then DICTMINSZ else n), Items(t[..n]))
  }

  /** A loop that ends at n sees every entry iff no hole comes before an entry. */
  lemma {:induction false} CountBoundSeesAll(t: Table)
    ensures |Items(t[..|Items(t)|])| <= |Items(t)|
    ensures |Items(t[..|Items(t)|])| == |Items(t)| <==> Packed(t)
    ensures Packed(t) ==> Items(t[..|Items(t)|]) == Items(t)
  {
    hide Items;
    var n := |Items(t)|;
    var a, b := t[..n], t[n..];
    assert t == a + b;
    ItemsAppend(a, b);
    if Packed(t) {
      PackedItems(t);
      ItemsAllEmpty(b);
    }
    if |Items(a)| == n {
      assert Items(b) == [];
      EmptyBehind(a, b);
    }
  }

  lemma {:induction false} EmptyBehind(a: Table, b: Table)
    requires |Items(a)| == |a| && Items(b) == []
    ensures Packed(a + b)
  {
    forall i | 0 <= i < |a| ensures a[i].Some? {
      ItemsSet(a, i, None);
    }
    forall i | 0 <= i < |b| ensures b[i].None? {
      ItemsSet(b, i, None);
    }
  }

  lemma {:induction false} SetAllLayer(t: Table, es: seq<Entry>)
    requires Layer(t)
    ensures Layer(SetAll(t, es))
    decreases |es|
  {
    hide Layer, SetIn, StrLwc;
    if es != [] {
      assert t != [] by {
        LayerNonEmpty(t);
      }
      LayerKept(t, es[0].key, es[0].val);
      SetAllLayer(SetIn(t, StrLwc(es[0].key), es[0].val), es[1..]);
    }
  }

  lemma {:induction false} LayerNonEmpty(t: Table)
    requires Layer(t)
    ensures t != []
  {
  }

  /** None of these keys is bound by the others. */
  predicate NewKeys(es: seq<Entry>, others: seq<Entry>) {
    forall i | 0 <= i < |es| :: Binding(others, es[i].key).None?
  }

  lemma {:induction false} NewKeysCons(es: seq<Entry>, others: seq<Entry>)
    requires es != [] && KeysDistinct(es) && CleanKeys(es) && NewKeys(es, others)
    ensures KeysDistinct(es[1..]) && CleanKeys(es[1..]) && NewKeys(es[1..], others + [es[0]])
    ensures StrLwc(es[0].key) == es[0].key && First(others, es[0].key) == |others|
  {
    hide StrLwc, First;
    var e, rest := es[0], es[1..];
    assert CleanKey(e.key) && Binding(others, e.key).None?;
    assert forall i | 0 <= i < |rest| :: rest[i] == es[i + 1];
    forall i | 0 <= i < |rest| ensures Binding(others + [e], rest[i].key).None? {
      assert Binding(others, es[i + 1].key).None?;
      FirstSnoc(others, e, rest[i].key);
    }
  }

  lemma {:induction false} SetAllAppends(t: Table, es: seq<Entry>)
    requires t != [] && Packed(t) && KeysDistinct(es) && CleanKeys(es) && NewKeys(es, Items(t))
    ensures Packed(SetAll(t, es)) && Items(SetAll(t, es)) == Items(t) + es
    decreases |es|
  {
    hide Items, SetIn, Packed, StrLwc, First, NewKeys, KeysDistinct, CleanKeys;
    if es == [] {
      assert Items(t) + [] == Items(t);
    } else {
      var e := es[0];
      NewKeysCons(es, Items(t));
      PutPacked(t, e.key, e.val);
      SetAllAppends(SetIn(t, e.key, e.val), es[1..]);
      assert es == [e] + es[1..] && Entry(e.key, e.val) == e;
      assert Items(t) + [e] + es[1..] == Items(t) + es;
    }
  }

  lemma NothingBound(es: seq<Entry>)
    ensures NewKeys(es, [])
  {
  }

  lemma {:induction false} SetAllCount(t: Table, es: seq<Entry>)
    requires t != []
    ensures |Items(SetAll(t, es))| <= |Items(t)| + |es|
    decreases |es|
  {
    hide Items, SetIn, StrLwc;
    if es != [] {
      SetCounts(t, StrLwc(es[0].key), es[0].val);
      SetAllCount(SetIn(t, StrLwc(es[0].key), es[0].val), es[1..]);
    }
  }

  /** The copy has the same entries in the same order iff no hole comes before an entry and the
      keys are distinct, in lower case and short enough for strlwc. */
  lemma {:induction false} CopyPreserves(t: Table)
    ensures Items(Copied(t)) == Items(t) <==> Packed(t) && KeysDistinct(Items(t)) && CleanKeys(Items(t))
  {
    hide Items, SetAll, Binding, KeysDistinct, CleanKeys, Distinct, Packed;
    var es := Items(t[..|Items(t)|]);
    var n := if |Items(t)| < DICTMINSZ then DICTMINSZ else |Items(t)|;
    CountBoundSeesAll(t);
    EmptyLayer(n);
    SetAllLayer(Nones(n), es);
    SetAllCount(Nones(n), es);
    DistinctItems(Copied(t));
    if Packed(t) && KeysDistinct(es) && CleanKeys(es) {
      NothingBound(es);
      SetAllAppends(Nones(n), es);
      assert [] + es == es;
    }
  }

  lemma {:induction false} EmptyLayer(n: nat)
    requires n > 0
    ensures Layer(Nones(n)) && Items<Entry>(Nones(n)) == []
  {
    ItemsAllEmpty<Entry>(Nones(n));
  }

  // ----- the loops over the loaded dictionary -----

  const MODULE_KEY := "modules:module"

  /** The value of an entry that names a module. */
  function ModuleOf(e: Entry): seq<string> {
    if e.key == MODULE_KEY && e.val.Some? then [e.val.value] else []
  }

  /** The values config_load_modules hands to module_load. */
  function Modules(es: seq<Entry>): seq<string> {
    if es == [] then [] else Modules(Front(es)) + ModuleOf(Last(es))
  }

  const CONTAINER := "container"

  /** "container", spaces, ':', spaces, and a name that is not empty. */
  function Title(key: string): Option<string> {
    if !(CONTAINER <= key) then None
    else
      var rest := LStrip(key[|CONTAINER|..]);
      if rest == "" || rest[0] != ':' then None
      else
        var name := LStrip(rest[1..]);
        if name == "" then None else Some(name)
  }

  /** A key is the title of a container exactly if it is split like this. */
  predicate IsTitle(key: string, a: string, b: string, name: string) {
    key == "container" + a + ":" + b + name && AllSpace(a) && AllSpace(b) && name != "" && !IsSpace(name[0])
  }

  /** The name is what follows the colon and the spaces behind it. */
  lemma {:induction false} TitleReads(key: string, a: string, b: string, name: string)
    requires IsTitle(key, a, b, name)
    ensures Title(key) == Some(name)
  {
    assert key[..9] == "container" && key[9..] == a + (":" + b + name);
    LStripSpaces(a, ":" + b + name);
    assert (":" + b + name)[1..] == b + name;
    LStripSpaces(b, name);
  }

  lemma {:induction false} TitleSplits(key: string) returns (a: string, b: string)
    requires Title(key).Some?
    ensures IsTitle(key, a, b, Title(key).value)
  {
    hide LStrip, AllSpace;
    var tail := key[9..];
    a := LStripSplits(tail);
    var rest := LStrip(tail)[1..];
    b := LStripSplits(rest);
    assert key == "container" + tail && LStrip(tail) == ":" + rest;
    TitleParts(a, b, LStrip(rest));
  }

  lemma TitleParts(a: string, b: string, name: string)
    ensures "container" + (a + (":" + (b + name))) == "container" + a + ":" + b + name
  {
  }

  /** config_foreach_container finds a name exactly in the keys that are split like this, and nothing
      in any other. */
  lemma {:induction false} TitleIs(key: string)
    ensures forall name :: Title(key) == Some(name) <==> exists a, b :: IsTitle(key, a, b, name)
    ensures Title(key).None? <==> !exists a, b, name :: IsTitle(key, a, b, name)
  {
    hide Title, IsTitle;
    forall a, b, name | IsTitle(key, a, b, name) ensures Title(key) == Some(name) {
      TitleReads(key, a, b, name);
    }
    if Title(key).Some? {
      var a, b := TitleSplits(key);
    }
  }

  /** What config_foreach_container does with one entry behind a section. */
  function Collected(t: Table, e: Entry, section: string): (r: Table)
    requires t != []
    ensures r != []
  {
    if InSection(e.key, section) then SetIn(t, StrLwc(PrintedKey(e, section)), e.val) else t
  }

  /** The dictionary config_foreach_container fills from the entries behind a section. */
  function SectionDict(es: seq<Entry>, section: string): (r: Table)
    ensures r != []
  {
    if es == [] then Nones(DICTMINSZ)
    else Collected(SectionDict(es[..|es| - 1], section), es[|es| - 1], section)
  }

  predicate IsContainer(e: Entry) {
    e.val.None? && Title(e.key).Some?
  }

  datatype Call = Call(name: string, dict: Table)

  /** The call for entry i, if it is a container section; its dictionary is filled from all entries
      behind it. */
  function CallOf(es: seq<Entry>, i: nat): seq<Call>
    requires i < |es|
  {
    if IsContainer(es[i]) then [Call(Title(es[i].key).value, SectionDict(es[i + 1..], es[i].key))] else []
  }

  /** The calls config_foreach_container makes for the first n entries. */
  function Calls(es: seq<Entry>, n: nat): seq<Call>
    requires n <= |es|
  {
    if n == 0 then [] else Calls(es, n - 1) + CallOf(es, n - 1)
  }
}
