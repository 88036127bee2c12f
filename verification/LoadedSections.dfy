/** What config_foreach_container and config_load_modules hand out, and what config_get answers, for
    a file and the layers on top of it. */
module LoadedSections {
  import opened Wrappers
  import opened Slots
  import opened Tables
  import opened CStrings
  import opened EntryLists
  import opened IniLines
  import opened IniFiles
  import opened IniSections
  import opened IniRoundTrip
  import opened IniExact
  import opened ConfigTables
  import opened LoadedFiles
  import opened LoadedViews
  import opened LoadedOrder

  // ----- one section's dictionary -----

  lemma {:induction false} CleanSuffix(section: string, k: string)
    requires CleanKey(section + ":" + k)
    ensures CleanKey(k)
  {
    var key := section + ":" + k;
    StrLwcFixed(key);
    StrLwcFixed(k);
    forall i | 0 <= i < |k| ensures ToLower(k[i]) == k[i] {
      assert key[|section| + 1 + i] == k[i];
    }
  }

  lemma {:induction false} KeyInSection(key: string, section: string, k: string)
    ensures InSection(key, section) && key[|section| + 1..] == k <==> key == section + ":" + k
  {
    if InSection(key, section) {
      assert key == (section + ":") + key[|section| + 1..];
    }
    if key == section + ":" + k {
      assert key[|section| + 1..] == k;
    }
  }

  /** The dictionary of a section holds, for each key, the last value among the entries given. */
  lemma {:induction false} SectionDictBinds(es: seq<Entry>, section: string, k: string)
    requires CleanKeys(es)
    ensures var vs := Of(es, section + ":" + k);
      Lookup(SectionDict(es, section), k) == if vs == [] then None else Some(Last(vs))
  {
    hide SetIn, Lookup, InSection, CleanKey, Of, StrLwc;
    OfSnoc([], Entry("", None), section + ":" + k);
    if es == [] {
      EmptyTable(DICTMINSZ, k);
    } else {
      var e, t := Last(es), SectionDict(Front(es), section);
      SectionDictBinds(Front(es), section, k);
      OfSnoc(Front(es), e, section + ":" + k);
      assert es == Front(es) + [e];
      KeyInSection(e.key, section, k);
      if InSection(e.key, section) {
        var k' := PrintedKey(e, section);
        KeyInSection(e.key, section, k');
        CleanSuffix(section, k');
        assert StrLwc(k') == k' by {
          IsClean(k');
        }
        LookupAfterSet(t, k', e.val, k);
      }
    }
  }

  lemma IsClean(key: string)
    requires CleanKey(key)
    ensures StrLwc(key) == key
  {
  }

  lemma {:induction false} EntriesClean(ws: seq<Store>)
    requires Ordered(ws)
    ensures CleanKeys(Entries(ws))
  {
    hide CleanKey;
    if ws != [] {
      EntriesClean(Front(ws));
    }
  }

  lemma CleanTail(es: seq<Entry>, i: nat)
    requires CleanKeys(es) && i <= |es|
    ensures CleanKeys(es[i..])
  {
    hide CleanKey;
  }

  // ----- which keys are stored behind a section -----

  /** Store j names `key` and adds an entry for it: it is a value line, or the first store of it. */
  predicate Adds(ws: seq<Store>, j: nat, key: string) {
    j < |ws| && ws[j].Key() == key && (ws[j].Pair? || Pos(Keys(ws), key) == j)
  }

  /** An entry for `key` is added behind the first store of `section`. */
  ghost predicate AddedBehind(ws: seq<Store>, section: string, key: string) {
    exists j: nat :: Pos(Keys(ws), section) < j && Adds(ws, j, key)
  }

  lemma {:induction false} AddsSnoc(ws: seq<Store>, w: Store, j: nat, key: string)
    ensures Adds(ws + [w], j, key) <==>
      if j < |ws| then Adds(ws, j, key) else j == |ws| && w.Key() == key && (w.Pair? || key !in Keys(ws))
  {
    KeysSnoc(ws, w);
    PosSnoc(Keys(ws), w.Key(), key);
  }

  lemma {:induction false} AddedBehindSnoc(ws: seq<Store>, w: Store, section: string, key: string)
    requires key != section
    ensures AddedBehind(ws + [w], section, key) <==>
      section in Keys(ws) &&
      (AddedBehind(ws, section, key) || (w.Key() == key && (w.Pair? || key !in Keys(ws))))
  {
    hide Adds, Pos;
    var all := ws + [w];
    KeysSnoc(ws, w);
    PosSnoc(Keys(ws), w.Key(), section);
    PosInRange(Keys(ws), section);
    if j: nat :| Pos(Keys(all), section) < j && Adds(all, j, key) {
      AddsSnoc(ws, w, j, key);
    }
    if j: nat :| Pos(Keys(ws), section) < j && Adds(ws, j, key) {
      AddsSnoc(ws, w, j, key);
      AddsInRange(ws, j, key);
    }
    AddsSnoc(ws, w, |ws|, key);
  }

  lemma PosInRange<T>(s: seq<T>, x: T)
    ensures Pos(s, x) <= |s| && (Pos(s, x) < |s| <==> x in s)
  {
  }

  lemma AddsInRange(ws: seq<Store>, j: nat, key: string)
    requires Adds(ws, j, key)
    ensures j < |ws|
  {
  }

  /** The entries behind the first one of a section are those added behind it. */
  predicate HasBehind(es: seq<Entry>, section: string, key: string) {
    exists l :: First(es, section) < l < |es| && es[l].key == key
  }

  lemma {:induction false} HasBehindAfter(es: seq<Entry>, w: Store, section: string, key: string)
    requires key != section
    ensures HasBehind(After(es, w), section, key) <==>
      section in EntryKeys(es) &&
      (HasBehind(es, section, key) || (w.Key() == key && (w.Pair? || key !in EntryKeys(es))))
  {
    KeyPresent(es, section);
    KeyPresent(es, w.Key());
    FirstAfter(es, w, section);
    hide First, EntryKeys;
    var es' := After(es, w);
    if HasBehind(es, section, key) {
      var l :| First(es, section) < l < |es| && es[l].key == key;
      assert es'[l].key == key;
    }
    if l :| First(es', section) < l < |es'| && es'[l].key == key {
      assert l < |es| ==> es[l].key == key;
    }
    if section in EntryKeys(es) && w.Key() == key && (w.Pair? || key !in EntryKeys(es)) {
      assert es'[|es|].key == key;
    }
  }

  lemma {:induction false} FirstAfter(es: seq<Entry>, w: Store, key: string)
    ensures var es' := After(es, w);
      && |es'| == (if w.Pair? || First(es, w.Key()) == |es| then |es| + 1 else |es|)
      && (forall i | 0 <= i < |es'| :: es'[i].key == if i < |es| then es[i].key else w.Key())
      && First(es', key) == if First(es, key) < |es| then First(es, key) else if w.Key() == key then |es| else |es'|
  {
    hide First;
    FirstPut(es, w.Key(), w.Val(), key);
    FirstSnoc(es, Entry(w.Key(), w.Val()), key);
  }

  lemma {:induction false} BehindIsAdded(ws: seq<Store>, section: string, key: string)
    requires key != section
    ensures HasBehind(Entries(ws), section, key) <==> AddedBehind(ws, section, key)
  {
    if ws != [] {
      hide HasBehind, AddedBehind, After, Keys, EntryKeys, Firsts;
      BehindIsAdded(Front(ws), section, key);
      assert ws == Front(ws) + [Last(ws)];
      AddedBehindSnoc(Front(ws), Last(ws), section, key);
      HasBehindAfter(Entries(Front(ws)), Last(ws), section, key);
      EntriesInStoreOrder(Front(ws));
    }
  }

  lemma {:induction false} OfBehind(es: seq<Entry>, i: nat, key: string)
    requires i < |es|
    ensures var vs := Of(es[i + 1..], key);
      && (vs != [] <==> exists l :: i < l < |es| && es[l].key == key)
      && (vs != [] ==> Of(es, key) != [] && Last(vs) == Last(Of(es, key)))
  {
    hide Of;
    var tail := es[i + 1..];
    OfAbsent(tail, key);
    OfAround(es, i, key);
    var f := First(tail, key);
    if f < |tail| {
      assert es[i + 1 + f].key == key;
    }
    if l :| i < l < |es| && es[l].key == key {
      assert tail[l - i - 1].key == key;
      assert f <= l - i - 1;
    }
  }

  /** The dictionary that the callback gets for a section, key by key: exactly the keys for which an
      entry is added behind the section's first store, each with its last value. Those are the keys
      of the lines under the section, and keys with this prefix that other lines add later. */
  lemma {:induction false} DictOfSection(ws: seq<Store>, section: string, k: string)
    requires Ordered(ws) && First(Entries(ws), section) < |Entries(ws)|
    ensures var es, key := Entries(ws), section + ":" + k;
      && (AddedBehind(ws, section, key) ==> Resolved(ws, key) != [])
      && Lookup(SectionDict(es[First(es, section) + 1..], section), k) ==
         if AddedBehind(ws, section, key) then Some(Last(Resolved(ws, key))) else None
  {
    hide Entries, Ordered, Resolved, Of, First, SectionDict, Lookup, CleanKey, Adds, Pos, Keys;
    var es, key := Entries(ws), section + ":" + k;
    var i := First(es, section);
    EntriesClean(ws);
    CleanTail(es, i + 1);
    SectionDictBinds(es[i + 1..], section, k);
    OfBehind(es, i, key);
    assert |key| > |section|;
    BehindIsAdded(ws, section, key);
    EntriesOfKey(ws, key);
  }

  lemma {:induction false} CurrentIsStored(ws: seq<Store>)
    requires Current(ws) != ""
    ensures Current(ws) in Keys(ws)
  {
    var w := Last(ws);
    assert ws == Front(ws) + [w];
    KeysSnoc(Front(ws), w);
    if !w.Header? {
      CurrentIsStored(Front(ws));
    }
  }

  lemma {:induction false} OrderedAt(ws: seq<Store>, j: nat)
    requires Ordered(ws) && j < |ws|
    ensures ws[j].Pair? ==> ws[j].section == Current(ws[..j])
  {
    if j < |ws| - 1 {
      OrderedAt(Front(ws), j);
      assert Front(ws)[..j] == ws[..j];
    }
  }

  /** Every value line under a section adds its entry behind the section's. */
  lemma {:induction false} StoredBehindSection(ws: seq<Store>, j: nat)
    requires Ordered(ws) && j < |ws| && ws[j].Pair? && ws[j].section != ""
    ensures AddedBehind(ws, ws[j].section, ws[j].Key())
  {
    hide Ordered, Current;
    OrderedAt(ws, j);
    CurrentIsStored(ws[..j]);
    var i :| 0 <= i < j && Keys(ws[..j])[i] == ws[j].section;
    assert Keys(ws)[i] == ws[j].section;
    assert Adds(ws, j, ws[j].Key());
  }

  // ----- the calls -----

  /** The call for a section: its title, and the dictionary of the entries behind it. */
  predicate IsCall(es: seq<Entry>, section: string, call: Call) {
    var i := First(es, section);
    && i < |es| && Title(section).Some?
    && call == Call(Title(section).value, SectionDict(es[i + 1..], section))
  }

  /** What the calls are, one for each section called. */
  lemma {:induction false} CallsAre(es: seq<Entry>, n: nat)
    requires n <= |es| && NullsFirst(es)
    ensures |Calls(es, n)| == |Called(es[..n])|
    ensures forall c | 0 <= c < |Calls(es, n)| :: IsCall(es, Called(es[..n])[c], Calls(es, n)[c])
  {
    hide SectionDict, Title, First, Called;
    if n == 0 {
      assert es[..0] == [];
      NothingCalled([]);
    } else {
      var e, before := es[n - 1], es[..n - 1];
      CallsAre(es, n - 1);
      assert es[..n] == before + [e];
      CalledSnoc(before, e);
      if IsContainer(e) {
        FirstIs(es, e.key, n - 1);
      }
    }
  }

  /** One call for each container section that is NULL in the end, in the order in which the stores
      first name them; each with exactly the keys added behind it, and their last values. */
  ghost predicate CallsFollow(calls: seq<Call>, ws: seq<Store>) {
    var names := Selected(Firsts(Keys(ws)), ws);
    && |calls| == |names|
    && forall c | 0 <= c < |calls| ::
      Title(names[c]) == Some(calls[c].name) && HoldsSection(calls[c].dict, names[c], ws)
  }

  ghost predicate HoldsSection(dict: Table, section: string, ws: seq<Store>) {
    forall k :: Lookup(dict, k) == SectionValue(ws, section + ":" + k, AddedBehind(ws, section, section + ":" + k))
  }

  function SectionValue(ws: seq<Store>, key: string, added: bool): Option<Value> {
    if added && Resolved(ws, key) != [] then Some(Last(Resolved(ws, key))) else None
  }

  lemma {:induction false} CallHoldsSection(ws: seq<Store>, section: string, call: Call)
    requires Ordered(ws) && IsCall(Entries(ws), section, call)
    ensures HoldsSection(call.dict, section, ws)
  {
    hide Ordered, Entries, Resolved, SectionDict, Lookup, AddedBehind, Title, First;
    forall k
      ensures Lookup(call.dict, k) == SectionValue(ws, section + ":" + k, AddedBehind(ws, section, section + ":" + k))
    {
      DictOfSection(ws, section, k);
    }
  }

  lemma {:induction false} CallsOfStores(ws: seq<Store>)
    requires Ordered(ws)
    ensures CallsFollow(Calls(Entries(ws), |Entries(ws)|), ws)
  {
    hide Calls, Called, Selected, Firsts, Entries, Ordered, HoldsSection, Keys, Title, SectionDict, First, NullsFirst;
    var es := Entries(ws);
    NullsComeFirst(ws);
    CallsAre(es, |es|);
    assert es[..|es|] == es;
    CalledOncePerSection(ws);
    var calls := Calls(es, |es|);
    forall c | 0 <= c < |calls| ensures HoldsSection(calls[c].dict, Called(es)[c], ws) {
      CallHoldsSection(ws, Called(es)[c], calls[c]);
    }
  }

  /** config_foreach_container after config_load: what it calls back with follows the lines of the
      file, the overrides, and the defaults that apply. */
  lemma {:induction false} ContainersOfConfig(text: string, overrides: Table, defaults: Table)
    requires LoadText(text, START).Reading? && Layer(overrides) && Layer(defaults)
    ensures LoadText(text, START).table != []
    ensures var t, ws := LoadText(text, START).table, ConfigStores(Stores(text, START), overrides, defaults);
      var es := Items(Layered(t, overrides, defaults));
      CallsFollow(Calls(es, |es|), ws)
  {
    hide LoadText, Stores, Items, Calls, CallsFollow, Ordered, Entries, Layered, ConfigStores, Layer;
    LoadedTable(text);
    LayeredStores(LoadText(text, START).table, Stores(text, START), overrides, defaults);
    CallsOfStores(ConfigStores(Stores(text, START), overrides, defaults));
  }

  // ----- modules -----

  function Strings(vs: seq<Value>): seq<string> {
    if vs == [] then [] else Strings(Front(vs)) + (if Last(vs).Some? then [Last(vs).value] else [])
  }

  lemma {:induction false} ModulesAre(es: seq<Entry>)
    ensures Modules(es) == Strings(Of(es, MODULE_KEY))
  {
    if es == [] {
      OfSnoc([], Entry("", None), MODULE_KEY);
    } else {
      ModulesAre(Front(es));
      var vs, e := Of(Front(es), MODULE_KEY), Last(es);
      assert Front(vs + [e.val]) == vs && Last(vs + [e.val]) == e.val;
      assert vs + [] == vs;
    }
  }

  /** config_load_modules after config_load: the values of all value lines for modules:module are
      visited in file order, duplicates included; a section line of that name, an override or a
      default puts its own value first, in the place of the first value line if that came first. */
  lemma {:induction false} ModulesOfConfig(text: string, overrides: Table, defaults: Table)
    requires LoadText(text, START).Reading? && Layer(overrides) && Layer(defaults)
    ensures LoadText(text, START).table != []
    ensures var t, ws := LoadText(text, START).table, ConfigStores(Stores(text, START), overrides, defaults);
      var us := Under(ws, "modules:module");
      Modules(Items(Layered(t, overrides, defaults))) ==
      match Replaced(ws, "modules:module")
      case None => Strings(Added(us))
      case Some(v) => Strings([v] + Added(if us != [] && us[0].Pair? then us[1..] else us))
  {
    hide LoadText, Stores, Items, Modules, Ordered, Entries, Layered, ConfigStores, Layer;
    hide Under, Added, Replaced, Strings, Of;
    LoadedTable(text);
    var ws := ConfigStores(Stores(text, START), overrides, defaults);
    LayeredStores(LoadText(text, START).table, Stores(text, START), overrides, defaults);
    ModulesAre(Entries(ws));
    EntriesOfKey(ws, MODULE_KEY);
  }

  // ----- looking up -----

  lemma {:induction false} LinesOnly(text: string, st: Load)
    requires st.Reading? ==> st.table != []
    ensures forall i | 0 <= i < |Stores(text, st)| :: !Stores(text, st)[i].Setting?
    decreases |text|
  {
    hide LineOutcome, LoadLine, LineEnd, Outcomes, StoresOf;
    StoresStep(text, st);
    if text != "" && st.Reading? {
      LineInText(text);
      LineIsNoSetting(st, text[..LineEnd(text)]);
      LoadLineKeeps(st, text[..LineEnd(text)]);
      LinesOnly(text[LineEnd(text)..], LoadLine(st, text[..LineEnd(text)]));
    }
  }

  lemma LineIsNoSetting(st: Load, raw: string)
    requires raw != "" && st.Reading?
    ensures LineOutcome(st, raw).Stored? ==> !LineOutcome(st, raw).store.Setting?
  {
    hide ParseLine, RStrip;
  }

  /** A key of a loaded file reads as NULL if a section line has its name, else as the value of the
      first line that stores it. */
  lemma {:induction false} FileBinding(text: string, key: string)
    requires LoadText(text, START).Reading?
    ensures var st, ws := LoadText(text, START), Stores(text, START);
      Lookup(st.table, key) ==
      if Under(ws, key) == [] then None
      else if Header(key) in ws then Some(None)
      else Some(Under(ws, key)[0].Val())
  {
    hide LoadText, Stores, Items, Entries, Ordered, Under, Lookup, Binding, Of, Replaced;
    LoadedTable(text);
    var st, ws := LoadText(text, START), Stores(text, START);
    LookupIsBinding(st.table, key);
    FirstValue(ws, key);
    LinesOnly(text, START);
    SectionsAreNull(ws, key);
    ReplacedIsHeader(ws, key);
  }

  lemma {:induction false} TitleHasColon(name: string)
    requires Title(name).Some?
    ensures HasColon(name)
  {
    var rest := name[|CONTAINER|..];
    LStripIsSuffix(rest);
    var c := |name| - |LStrip(rest)|;
    assert name[c] == rest[c - |CONTAINER|] == LStrip(rest)[0] == ':';
  }

  /** What is printed of a file with a container section never loads to the same dictionary: a name
      with a colon is not listed as a section. */
  lemma {:induction false} ContainersAreLost(text: string, name: string)
    requires LoadText(text, START).Reading?
    requires Header(name) in Stores(text, START) && Title(name).Some?
    ensures !ComesBack(LoadText(text, START).table)
  {
    hide LoadText, Stores, Items, Entries, Ordered, NullsFirst, Binding, Title, HasColon, IsNull, ComesBack;
    LoadedTable(text);
    LinesOnly(text, START);
    SectionsAreNull(Stores(text, START), name);
    NullEntries(Stores(text, START), name);
    TitleHasColon(name);
    ColonNameIsLost(LoadText(text, START).table, name);
  }

  lemma {:induction false} ReplacedIsHeader(ws: seq<Store>, key: string)
    requires forall i | 0 <= i < |ws| :: !ws[i].Setting?
    ensures Replaced(ws, key).Some? ==> Replaced(ws, key).value.None? && Under(ws, key) != []
  {
    if ws != [] {
      assert forall i | 0 <= i < |Front(ws)| :: Front(ws)[i] == ws[i];
      ReplacedIsHeader(Front(ws), key);
    }
  }

  /** The configuration a file, the overrides and the defaults make, told by the lines: the override
      if there is one; else the first value line, if no section line has the key's name; else the
      default; and without that NULL for a section and nothing for any other key. */
  lemma {:induction false} ConfigOfFile(text: string, overrides: Table, defaults: Table, key: string)
    requires Layer(overrides) && Layer(defaults) && LoadText(text, START).Reading?
    ensures LoadText(text, START).table != []
    ensures var ws := Stores(text, START);
      Lookup(Layered(LoadText(text, START).table, overrides, defaults), key) ==
      if Lookup(overrides, key).Some? && Lookup(overrides, key).value.Some? then Lookup(overrides, key)
      else if Lookup(overrides, key).None? && Under(ws, key) != [] && Header(key) !in ws
      then Some(Under(ws, key)[0].Val())
      else if Lookup(defaults, key).Some? then Lookup(defaults, key)
      else if Lookup(overrides, key).Some? || Under(ws, key) != [] then Some(None)
      else None
  {
    hide LoadText, Stores, Under, Lookup, Layered, Layer, Ordered, Entries, Replaced;
    LoadedTable(text);
    LayersResolve(LoadText(text, START).table, overrides, defaults, key);
    FileBinding(text, key);
    LinesOnly(text, START);
    ValueLinesHaveValues(Stores(text, START), key);
  }

  lemma {:induction false} ValueLinesHaveValues(ws: seq<Store>, key: string)
    requires forall i | 0 <= i < |ws| :: !ws[i].Setting?
    ensures Under(ws, key) != [] && Header(key) !in ws ==> Under(ws, key)[0].Val().Some?
  {
    hide Under, Replaced;
    AllAdded(ws, key);
    SectionsAreNull(ws, key);
    ReplacedIsHeader(ws, key);
  }

  // ----- a file whose sections are not called in their order -----

  function Overtaking(): string {
    SectionLine("container") + "\n" + (EntryLine("b", "1") + "\n" +
    (SectionLine("container:a") + "\n" + (SectionLine("container:b") + "\n" + "")))
  }

  lemma {:induction false} ExampleLines()
    ensures PrintableSection("container", "") && PrintableSection("container:a", "container")
    ensures PrintableSection("container:b", "container:a")
    ensures PrintableEntry("container", "b", "1")
  {
  }

  lemma {:induction false} ExampleLoads(t: Table)
    requires t != []
    ensures LoadText(Overtaking(), Reading(t, "", "", 0)) ==
      var t1 := AddTo(SetIn(t, "container", None), "container" + ":" + "b", Some("1"));
      Reading(SetIn(SetIn(t1, "container:a", None), "container:b", None), "container:b", "", 0)
  {
    hide LoadText, SetIn, AddTo, SectionLine, EntryLine, PrintableSection, PrintableEntry;
    ExampleLines();
    var rest2 := SectionLine("container:b") + "\n" + "";
    var rest1 := SectionLine("container:a") + "\n" + rest2;
    LoadSectionLine("container", EntryLine("b", "1") + "\n" + rest1, t, "");
    var t0 := SetIn(t, "container", None);
    LoadEntryLine("container", "b", "1", rest1, t0);
    var t1 := AddTo(t0, "container" + ":" + "b", Some("1"));
    LoadSectionLine("container:a", rest2, t1, "container");
    var t2 := SetIn(t1, "container:a", None);
    LoadSectionLine("container:b", "", t2, "container:a");
    LoadTextEnds(Reading(SetIn(t2, "container:b", None), "container:b", "", 0));
  }

  lemma {:induction false} ExampleTitles()
    ensures Title("container").None? && Title("container:a") == Some("a") && Title("container:b") == Some("b")
  {
    assert CONTAINER <= "container" && "container"[|CONTAINER|..] == "";
    assert CONTAINER <= "container:a" && "container:a"[|CONTAINER|..] == ":a" && ":a"[1..] == "a";
    assert CONTAINER <= "container:b" && "container:b"[|CONTAINER|..] == ":b" && ":b"[1..] == "b";
  }

  /** The entries of the example: the value line has taken the slot of the section [container:b]. */
  lemma {:induction false} ExampleEntries(t: Table)
    requires t != [] && Packed(t) && Items(t) == []
    ensures var t1 := AddTo(SetIn(t, "container", None), "container" + ":" + "b", Some("1"));
      Items(SetIn(SetIn(t1, "container:a", None), "container:b", None)) ==
        [Entry("container", None), Entry("container:b", None), Entry("container:a", None)]
  {
    hide Items, SetIn, AddTo, Packed, First;
    HeaderStored(t, "container");
    var t0 := SetIn(t, "container", None);
    assert "container" + ":" + "b" == "container:b";
    PairStored(t0, "container", "b", "1");
    var t1 := AddTo(t0, "container" + ":" + "b", Some("1"));
    HeaderStored(t1, "container:a");
    var t2 := SetIn(t1, "container:a", None);
    HeaderStored(t2, "container:b");
    FirstIs([], "container", 0);
    var es := [Entry("container", None), Entry("container:b", Some("1"))];
    FirstIs(es, "container:a", 2);
    FirstIs(es + [Entry("container:a", None)], "container:b", 1);
    assert Items(t0) == [] + [Entry("container", None)] == [Entry("container", None)];
    assert Items(t1) == es;
    assert Items(t2) == es + [Entry("container:a", None)];
    assert Items(t2)[1 := Entry("container:b", None)] ==
      [Entry("container", None), Entry("container:b", None), Entry("container:a", None)];
  }

  /** [container:a] comes before [container:b] in this file, but is called after it. */
  lemma {:induction false} OvertakingIsCalledOutOfOrder()
    ensures LoadText(Overtaking(), START).Reading?
    ensures Called(Items(LoadText(Overtaking(), START).table)) == ["container:b", "container:a"]
  {
    hide Items, SetIn, AddTo, Title, LoadText, Packed, Overtaking, Called;
    ItemsAllEmpty<Entry>(Nones(DICTMINSZ));
    PackedNones();
    ExampleLoads(Nones(DICTMINSZ));
    ExampleEntries(Nones(DICTMINSZ));
    ExampleTitles();
    var a, b, c := Entry("container", None), Entry("container:b", None), Entry("container:a", None);
    assert [a, b, c] == [] + [a] + [b] + [c];
    NothingCalled([]);
    CalledSnoc([], a);
    CalledSnoc([] + [a], b);
    CalledSnoc([] + [a] + [b], c);
  }

  lemma PackedNones()
    ensures Packed<Entry>(Nones(DICTMINSZ))
  {
  }
}
