/** The entries of the configuration, key by key, in terms of the lines and settings that store them. */
module LoadedViews {
  import opened Wrappers
  import opened Slots
  import opened Tables
  import opened CStrings
  import opened EntryLists
  import opened ConfigTables
  import opened LoadedFiles

  // ----- one key at a time -----

  /** The stores of a key, in order. */
  function Under(ws: seq<Store>, key: string): seq<Store> {
    if ws == [] then [] else Under(Front(ws), key) + (if Last(ws).Key() == key then [Last(ws)] else [])
  }

  /** The values of the value lines, in order. */
  function Added(ws: seq<Store>): seq<Value> {
    if ws == [] then [] else Added(Front(ws)) + (if Last(ws).Pair? then [Last(ws).Val()] else [])
  }

  /** What the last section line or setting of a key stores. */
  function Replaced(ws: seq<Store>, key: string): Option<Value> {
    if ws == [] then None
    else if Last(ws).Key() == key && !Last(ws).Pair? then Some(Last(ws).Val())
    else Replaced(Front(ws), key)
  }

  /** A key's values in the end: with section lines or settings of that key, the last of them comes
      first and takes the place of a value line before them all; every other value line is kept, in
      order, duplicates included. */
  function Resolved(ws: seq<Store>, key: string): seq<Value> {
    var us := Under(ws, key);
    match Replaced(ws, key)
    case None => Added(us)
    case Some(v) => [v] + Added(if us != [] && us[0].Pair? then us[1..] else us)
  }

  lemma {:induction false} UnderSnoc(ws: seq<Store>, w: Store, key: string)
    ensures Under(ws + [w], key) == Under(ws, key) + (if w.Key() == key then [w] else [])
    ensures Added(ws + [w]) == Added(ws) + (if w.Pair? then [w.Val()] else [])
    ensures Replaced(ws + [w], key) == if w.Key() == key && !w.Pair? then Some(w.Val()) else Replaced(ws, key)
  {
    assert Front(ws + [w]) == ws && Last(ws + [w]) == w;
  }

  lemma {:induction false} NothingUnder(key: string)
    ensures Under([], key) == [] && Added([]) == [] && Replaced([], key) == None && Resolved([], key) == []
  {
  }

  /** Every store of a key that nothing has replaced is a value line. */
  lemma {:induction false} AllAdded(ws: seq<Store>, key: string)
    ensures Replaced(ws, key).Some? ==> Under(ws, key) != []
    ensures Replaced(ws, key).None? ==>
      forall i | 0 <= i < |Under(ws, key)| :: Under(ws, key)[i].Pair? && Under(ws, key)[i].Key() == key
  {
    if ws != [] {
      AllAdded(Front(ws), key);
      assert ws == Front(ws) + [Last(ws)];
    }
  }

  lemma {:induction false} AddedAll(us: seq<Store>)
    requires forall i | 0 <= i < |us| :: us[i].Pair?
    ensures |Added(us)| == |us| && forall i | 0 <= i < |us| :: Added(us)[i] == us[i].Val()
  {
    if us != [] {
      AddedAll(Front(us));
      assert us == Front(us) + [Last(us)];
    }
  }

  /** What one more store of a key does to its values. */
  lemma {:induction false} ResolvedSnoc(ws: seq<Store>, w: Store, key: string)
    ensures Resolved(ws + [w], key) ==
      if w.Key() != key then Resolved(ws, key)
      else if w.Pair? then Resolved(ws, key) + [w.Val()]
      else if Resolved(ws, key) == [] then [w.Val()]
      else [w.Val()] + Resolved(ws, key)[1..]
    ensures Under(ws, key) == [] <==> Resolved(ws, key) == []
  {
    hide Under, Added, Replaced;
    UnderSnoc(ws, w, key);
    AllAdded(ws, key);
    var us := Under(ws, key);
    if Replaced(ws, key).None? {
      AddedAll(us);
    }
    assert us + [] == us;
    if w.Key() == key {
      ResolvedOnce(ws, w, key);
    }
  }

  lemma {:induction false} ResolvedOnce(ws: seq<Store>, w: Store, key: string)
    requires w.Key() == key
    requires Replaced(ws, key).Some? ==> Under(ws, key) != []
    requires Replaced(ws, key).None? ==> forall i | 0 <= i < |Under(ws, key)| :: Under(ws, key)[i].Pair?
    ensures Resolved(ws + [w], key) ==
      if w.Pair? then Resolved(ws, key) + [w.Val()]
      else if Resolved(ws, key) == [] then [w.Val()]
      else [w.Val()] + Resolved(ws, key)[1..]
    ensures Under(ws, key) == [] <==> Resolved(ws, key) == []
  {
    hide Under, Added, Replaced;
    UnderSnoc(ws, w, key);
    NothingUnder(key);
    var us := Under(ws, key);
    UnderSnoc(us, w, key);
    if Replaced(ws, key).None? {
      AddedAll(us);
    }
    if us == [] {
      UnderSnoc([], w, key);
      assert us + [w] == [w] && [w][1..] == [] && [] + [w] == [w];
    } else {
      assert (us + [w])[1..] == us[1..] + [w] && (us + [w])[0] == us[0];
      UnderSnoc(us[1..], w, key);
      TailAdded(us);
    }
  }

  lemma {:induction false} AddedAppend(us: seq<Store>, vs: seq<Store>)
    ensures Added(us + vs) == Added(us) + Added(vs)
    decreases |vs|
  {
    hide Added;
    NothingUnder("");
    if vs == [] {
      assert us + vs == us && Added(us) + [] == Added(us);
    } else {
      assert us + vs == (us + Front(vs)) + [Last(vs)] && vs == Front(vs) + [Last(vs)];
      AddedAppend(us, Front(vs));
      UnderSnoc(us + Front(vs), Last(vs), "");
      UnderSnoc(Front(vs), Last(vs), "");
    }
  }

  lemma {:induction false} TailAdded(us: seq<Store>)
    requires us != []
    ensures Added(us) == (if us[0].Pair? then [us[0].Val()] else []) + Added(us[1..])
  {
    hide Added;
    NothingUnder("");
    assert us == [us[0]] + us[1..] && [us[0]] == [] + [us[0]];
    AddedAppend([us[0]], us[1..]);
    UnderSnoc([], us[0], "");
  }

  /** The entries of a key hold its values, in order. */
  lemma {:induction false} EntriesOfKey(ws: seq<Store>, key: string)
    ensures Of(Entries(ws), key) == Resolved(ws, key)
  {
    hide Of, Resolved, Under, Entries, After;
    if ws == [] {
      NothingUnder(key);
      NoEntries(key);
    } else {
      var before, w := Front(ws), Last(ws);
      EntriesOfKey(before, key);
      assert ws == before + [w];
      ResolvedSnoc(before, w, key);
      Snoc(before, w);
      OfAfter(Entries(before), w, key);
    }
  }

  lemma NoEntries(key: string)
    ensures Entries([]) == [] && Of([], key) == []
  {
  }

  lemma {:induction false} OfAfter(es: seq<Entry>, w: Store, key: string)
    ensures Of(After(es, w), key) ==
      if w.Key() != key then Of(es, key)
      else if w.Pair? then Of(es, key) + [w.Val()]
      else if Of(es, key) == [] then [w.Val()]
      else [w.Val()] + Of(es, key)[1..]
  {
    hide Of, Put;
    OfSnoc(es, Entry(w.Key(), w.Val()), key);
    OfPut(es, w.Key(), w.Val(), key);
    assert Of(es, key) + [] == Of(es, key);
  }

  /** The first value of a key, told by its stores. */
  lemma {:induction false} FirstValue(ws: seq<Store>, key: string)
    ensures Binding(Entries(ws), key) ==
      if Under(ws, key) == [] then None
      else if Replaced(ws, key).Some? then Replaced(ws, key)
      else Some(Under(ws, key)[0].Val())
  {
    hide Of, Under, Added, Replaced, Binding;
    EntriesOfKey(ws, key);
    BindingIsFirst(Entries(ws), key);
    AllAdded(ws, key);
    if Replaced(ws, key).None? {
      AddedAll(Under(ws, key));
    }
  }

  // ----- NULL entries -----

  /** An entry without a value comes before all others with its key. */
  predicate NullsFirst(es: seq<Entry>) {
    forall i, j | 0 <= i < j < |es| && es[j].val.None? :: es[i].key != es[j].key
  }

  /** The last section line or setting of a key makes it NULL. */
  predicate IsNull(ws: seq<Store>, key: string) {
    Replaced(ws, key) == Some(None)
  }

  lemma {:induction false} PutKeepsNullsFirst(es: seq<Entry>, key: string, val: Value)
    requires NullsFirst(es)
    ensures NullsFirst(Put(es, key, val))
  {
    var i := First(es, key);
  }

  lemma {:induction false} NullsComeFirst(ws: seq<Store>)
    ensures NullsFirst(Entries(ws))
  {
    if ws != [] {
      hide NullsFirst, Put;
      var es, w := Entries(Front(ws)), Last(ws);
      NullsComeFirst(Front(ws));
      if w.Pair? {
        AddedKeepsNullsFirst(es, Entry(w.Key(), w.Val()));
      } else {
        PutKeepsNullsFirst(es, w.Key(), w.Val());
      }
    }
  }

  lemma AddedKeepsNullsFirst(es: seq<Entry>, e: Entry)
    requires NullsFirst(es) && e.val.Some?
    ensures NullsFirst(es + [e])
  {
  }

  /** With NULL entries first, a key has one iff its first entry is NULL. */
  lemma {:induction false} NullIsFirst(es: seq<Entry>, key: string)
    requires NullsFirst(es)
    ensures Entry(key, None) in es <==> Binding(es, key) == Some(None)
  {
    var i := First(es, key);
    if Entry(key, None) in es {
      var j :| 0 <= j < |es| && es[j] == Entry(key, None);
      assert i <= j;
    }
    if i < |es| && es[i].val == None {
      assert es[i] == Entry(key, None);
    }
  }

  /** NULL entries come first of their key, and they are those of the keys that a section line, or a
      setting to NULL, is the last to replace. */
  lemma {:induction false} NullEntries(ws: seq<Store>, key: string)
    ensures NullsFirst(Entries(ws))
    ensures Entry(key, None) in Entries(ws) <==> IsNull(ws, key)
    ensures Binding(Entries(ws), key) == Some(None) <==> IsNull(ws, key)
  {
    hide Entries, NullsFirst, Binding, Under, Replaced;
    NullsComeFirst(ws);
    NullIsFirst(Entries(ws), key);
    FirstValue(ws, key);
    AllAdded(ws, key);
  }

  /** Without settings the NULL entries are those of the section lines. */
  lemma {:induction false} SectionsAreNull(ws: seq<Store>, name: string)
    requires forall i | 0 <= i < |ws| :: !ws[i].Setting?
    ensures IsNull(ws, name) <==> Header(name) in ws
  {
    if ws != [] {
      assert forall i | 0 <= i < |Front(ws)| :: Front(ws)[i] == ws[i];
      SectionsAreNull(Front(ws), name);
      assert ws == Front(ws) + [Last(ws)];
    }
  }

  // ----- config_load -----

  lemma {:induction false} SetStored(t: Table, e: Entry, ws: seq<Store>)
    requires t != [] && Packed(t) && Items(t) == Entries(ws) && Ordered(ws) && CleanKey(e.key)
    ensures var t', ws' := SetIn(t, e.key, e.val), ws + [Setting(e.key, e.val)];
      Packed(t') && Items(t') == Entries(ws') && Ordered(ws')
  {
    hide Items, SetIn, Packed, Put, Ordered, Entries, Current, CleanKey;
    PutPacked(t, e.key, e.val);
    Snoc(ws, Setting(e.key, e.val));
  }

  lemma CleanCons(es: seq<Entry>)
    requires CleanKeys(es) && es != []
    ensures CleanKey(es[0].key) && StrLwc(es[0].key) == es[0].key && CleanKeys(es[1..])
  {
    hide StrLwc;
    assert forall i | 0 <= i < |es[1..]| :: es[1..][i] == es[i + 1];
  }

  lemma SettingsCons(ws: seq<Store>, es: seq<Entry>)
    ensures es == [] ==> ws + Settings(es) == ws
    ensures es != [] ==> ws + [Setting(es[0].key, es[0].val)] + Settings(es[1..]) == ws + Settings(es)
  {
  }

  lemma {:induction false} SetAllStored(t: Table, es: seq<Entry>, ws: seq<Store>)
    requires t != [] && Packed(t) && Items(t) == Entries(ws) && Ordered(ws) && CleanKeys(es)
    ensures var t', ws' := SetAll(t, es), ws + Settings(es);
      Packed(t') && Items(t') == Entries(ws') && Ordered(ws')
    decreases |es|
  {
    hide Items, SetIn, Packed, Entries, Ordered, CleanKeys, CleanKey, StrLwc, Settings;
    SettingsCons(ws, es);
    if es != [] {
      var e := es[0];
      CleanCons(es);
      SetStored(t, e, ws);
      SetAllStored(SetIn(t, e.key, e.val), es[1..], ws + [Setting(e.key, e.val)]);
    }
  }

  lemma {:induction false} SetDefaultsStored(t: Table, es: seq<Entry>, ws: seq<Store>)
    requires t != [] && Packed(t) && Items(t) == Entries(ws) && Ordered(ws) && CleanKeys(es)
    ensures var t', ws' := SetDefaults(t, es), WithDefaults(ws, es);
      Packed(t') && Items(t') == Entries(ws') && Ordered(ws')
    decreases |es|
  {
    hide Items, SetIn, Packed, Entries, Ordered, Lookup, Binding, CleanKeys, CleanKey, StrLwc;
    if es != [] {
      var e := es[0];
      CleanCons(es);
      SetStored(t, e, ws);
      LookupIsBinding(t, e.key);
      SetDefaultsStored(SetDefault(t, e), es[1..],
        if ValueOrNull(t, e.key).None? then ws + [Setting(e.key, e.val)] else ws);
    }
  }

  /** The configuration is what the lines of the file, the overrides and the defaults that apply
      leave, in that order. */
  lemma {:induction false} LayeredStores(t: Table, ws: seq<Store>, overrides: Table, defaults: Table)
    requires t != [] && Packed(t) && Items(t) == Entries(ws) && Ordered(ws) && Layer(overrides) && Layer(defaults)
    ensures var t', ws' := Layered(t, overrides, defaults), ConfigStores(ws, overrides, defaults);
      Packed(t') && Items(t') == Entries(ws') && Ordered(ws')
  {
    hide Items, Packed, Entries, Ordered, SetAll, SetDefaults, WithDefaults, Distinct, CleanKeys;
    SetAllStored(t, Items(overrides), ws);
    SetDefaultsStored(SetAll(t, Items(overrides)), Items(defaults), ws + Settings(Items(overrides)));
  }
}
