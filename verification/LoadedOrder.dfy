/** For which sections config_foreach_container calls back, and in what order. */
module LoadedOrder {
  import opened Wrappers
  import opened Tables
  import opened EntryLists
  import opened ConfigTables
  import opened LoadedFiles
  import opened LoadedViews

  // ----- first occurrences -----

  function Pos<T(==)>(s: seq<T>, x: T): (i: nat)
    ensures i <= |s| && (i < |s| <==> x in s) && (i < |s| ==> s[i] == x)
    ensures forall j | 0 <= j < i :: s[j] != x
  {
    if s == [] || s[0] == x then 0 else Pos(s[1..], x) + 1
  }

  lemma {:induction false} PosSnoc<T>(s: seq<T>, e: T, x: T)
    ensures Pos(s + [e], x) == if x in s then Pos(s, x) else if e == x then |s| else |s| + 1
  {
    var i, i' := Pos(s, x), Pos(s + [e], x);
    assert forall j | 0 <= j < |s| :: (s + [e])[j] == s[j];
    assert (s + [e])[|s|] == e;
    assert i < |s| ==> (s + [e])[i] == x;
  }

  /** Both occur, and the first x comes before the first y. */
  predicate Before<T(==)>(s: seq<T>, x: T, y: T) {
    Pos(s, x) < Pos(s, y) < |s|
  }

  lemma {:induction false} BeforeSnoc<T>(s: seq<T>, e: T, x: T, y: T)
    ensures Before(s, x, y) ==> x in s && y in s
    ensures Before(s + [e], x, y) <==> if y in s then Before(s, x, y) else e == y && x in s
  {
    PosSnoc(s, e, x);
    PosSnoc(s, e, y);
  }

  /** In a sequence without duplicates the last element is behind all others, and nothing is behind
      it. */
  lemma {:induction false} LastIsBehind<T>(s: seq<T>, x: T)
    requires s != [] && NoDuplicates(s)
    ensures !Before(s, Last(s), x)
    ensures x in s && x != Last(s) ==> Before(s, x, Last(s))
  {
  }

  lemma {:induction false} FrontOfDistinct<T>(s: seq<T>, x: T)
    requires s != [] && NoDuplicates(s)
    ensures NoDuplicates(Front(s)) && (x in Front(s) <==> x in s && x != Last(s))
  {
    assert s == Front(s) + [Last(s)];
  }

  lemma SomethingIn<T>(s: seq<T>)
    ensures s == [] || exists x :: x in s
  {
    if s != [] {
      assert s[0] in s;
    }
  }

  lemma {:induction false} FrontKeepsOrder<T>(s: seq<T>, x: T, y: T)
    requires s != []
    ensures Before(Front(s), x, y) ==> Before(s, x, y) && y in Front(s)
    ensures y in Front(s) && Before(s, x, y) ==> Before(Front(s), x, y)
  {
    BeforeSnoc(Front(s), Last(s), x, y);
    assert s == Front(s) + [Last(s)];
  }

  /** Two sequences of the same things, each once, are equal if they order every pair alike. */
  lemma {:induction false} SameOrder<T(!new)>(a: seq<T>, b: seq<T>)
    requires NoDuplicates(a) && NoDuplicates(b)
    requires forall x :: x in a <==> x in b
    requires forall x, y | Before(a, x, y) :: Before(b, x, y)
    ensures a == b
    decreases |a|
  {
    if a == [] {
      SomethingIn(b);
    } else {
      assert Last(a) in b;
      LastIsBehind(a, Last(b));
      LastIsBehind(b, Last(a));
      assert Last(b) in a && Last(a) == Last(b);
      hide Before, NoDuplicates;
      FrontOfDistinct(a, Last(a));
      FrontOfDistinct(b, Last(b));
      forall x ensures x in Front(a) <==> x in Front(b) {
        FrontOfDistinct(a, x);
        FrontOfDistinct(b, x);
      }
      forall x, y | Before(Front(a), x, y) ensures Before(Front(b), x, y) {
        FrontKeepsOrder(a, x, y);
        FrontKeepsOrder(b, x, y);
        FrontOfDistinct(a, y);
      }
      SameOrder(Front(a), Front(b));
      assert a == Front(a) + [Last(a)] && b == Front(b) + [Last(b)];
    }
  }

  // ----- the sections called, told by the lines -----

  /** A container section that is NULL in the end. */
  predicate Chosen(ws: seq<Store>, name: string) {
    Title(name).Some? && IsNull(ws, name)
  }

  function Keys(ws: seq<Store>): (ks: seq<string>)
    ensures |ks| == |ws| && forall i | 0 <= i < |ws| :: ks[i] == ws[i].Key()
  {
    seq(|ws|, i requires 0 <= i < |ws| => ws[i].Key())
  }

  /** The keys of the section lines and settings; None for a value line. */
  function Named(ws: seq<Store>): (ns: seq<Option<string>>)
    ensures |ns| == |ws| && forall i | 0 <= i < |ws| :: ns[i] == if ws[i].Pair? then None else Some(ws[i].Key())
  {
    seq(|ws|, i requires 0 <= i < |ws| => if ws[i].Pair? then None else Some(ws[i].Key()))
  }

  /** The keys, each where it first occurs. */
  function Firsts(ks: seq<string>): seq<string> {
    if ks == [] then [] else Firsts(Front(ks)) + (if Last(ks) in Front(ks) then [] else [Last(ks)])
  }

  /** The section names, each where its first section line or setting is. */
  function SectionOrder(ns: seq<Option<string>>): seq<string> {
    if ns == [] then []
    else SectionOrder(Front(ns)) + (if Last(ns).Some? && Last(ns) !in Front(ns) then [Last(ns).value] else [])
  }

  function Selected(ks: seq<string>, ws: seq<Store>): seq<string> {
    if ks == [] then [] else Selected(Front(ks), ws) + (if Chosen(ws, Last(ks)) then [Last(ks)] else [])
  }

  /** The sections config_foreach_container calls back for, in order. */
  function Called(es: seq<Entry>): seq<string> {
    if es == [] then [] else Called(Front(es)) + (if IsContainer(Last(es)) then [Last(es).key] else [])
  }

  lemma {:induction false} FirstsOrder(ks: seq<string>, x: string, y: string)
    ensures x in Firsts(ks) <==> x in ks
    ensures Before(Firsts(ks), x, y) <==> Before(ks, x, y)
    ensures NoDuplicates(Firsts(ks))
  {
    hide Before;
    if ks != [] {
      var k, fs := Last(ks), Firsts(Front(ks));
      FirstsOrder(Front(ks), x, y);
      FirstsOrder(Front(ks), y, x);
      FirstsOrder(Front(ks), k, k);
      BeforeSnoc(Front(ks), k, x, y);
      BeforeSnoc(fs, k, x, y);
      assert ks == Front(ks) + [k];
      assert fs + [] == fs;
    } else {
      assert Firsts(ks) == ks;
    }
  }

  lemma {:induction false} NamedOrder(ns: seq<Option<string>>, x: string, y: string)
    ensures x in SectionOrder(ns) <==> Some(x) in ns
    ensures Before(SectionOrder(ns), x, y) <==> Before(ns, Some(x), Some(y))
    ensures NoDuplicates(SectionOrder(ns))
  {
    hide Before;
    if ns != [] {
      var n, fs := Last(ns), SectionOrder(Front(ns));
      NamedOrder(Front(ns), x, y);
      NamedOrder(Front(ns), y, x);
      BeforeSnoc(Front(ns), n, Some(x), Some(y));
      if n.Some? {
        NamedOrder(Front(ns), n.value, n.value);
        BeforeSnoc(fs, n.value, x, y);
      }
      assert ns == Front(ns) + [n];
      assert fs + [] == fs;
    } else {
      NeverBefore(x, y);
      NeverBefore(Some(x), Some(y));
    }
  }

  lemma NeverBefore<T>(x: T, y: T)
    ensures !Before([], x, y)
  {
  }

  lemma {:induction false} SelectedOrder(ks: seq<string>, ws: seq<Store>, x: string, y: string)
    ensures x in Selected(ks, ws) <==> x in ks && Chosen(ws, x)
    ensures Before(Selected(ks, ws), x, y) <==> Before(ks, x, y) && Chosen(ws, x) && Chosen(ws, y)
    ensures NoDuplicates(ks) ==> NoDuplicates(Selected(ks, ws))
  {
    hide Before, Chosen;
    if ks != [] {
      var k, fs := Last(ks), Selected(Front(ks), ws);
      SelectedOrder(Front(ks), ws, x, y);
      SelectedOrder(Front(ks), ws, y, x);
      SelectedOrder(Front(ks), ws, k, k);
      BeforeSnoc(Front(ks), k, x, y);
      BeforeSnoc(fs, k, x, y);
      assert ks == Front(ks) + [k];
      assert fs + [] == fs;
    } else {
      NeverBefore(x, y);
    }
  }

  // ----- the order of the calls -----

  lemma {:induction false} KeysSnoc(ws: seq<Store>, w: Store)
    ensures Keys(ws + [w]) == Keys(ws) + [w.Key()]
  {
  }

  function EntryKeys(es: seq<Entry>): (ks: seq<string>)
    ensures |ks| == |es| && forall i | 0 <= i < |es| :: ks[i] == es[i].key
  {
    seq(|es|, i requires 0 <= i < |es| => es[i].key)
  }

  lemma {:induction false} FirstsSnoc(ks: seq<string>, k: string)
    ensures Firsts(ks + [k]) == if k in ks then Firsts(ks) else Firsts(ks) + [k]
  {
    assert Front(ks + [k]) == ks && Last(ks + [k]) == k;
    assert Firsts(ks) + [] == Firsts(ks);
  }

  /** The keys of the entries first occur in the order in which the stores first name them. */
  lemma {:induction false} EntriesInStoreOrder(ws: seq<Store>)
    ensures Firsts(EntryKeys(Entries(ws))) == Firsts(Keys(ws))
    ensures forall k :: k in EntryKeys(Entries(ws)) <==> k in Keys(ws)
  {
    if ws == [] {
      assert Keys(ws) == [] == EntryKeys(Entries(ws));
    } else {
      hide Firsts, EntryKeys, Keys, After;
      var es, w := Entries(Front(ws)), Last(ws);
      EntriesInStoreOrder(Front(ws));
      assert ws == Front(ws) + [w];
      KeysSnoc(Front(ws), w);
      KeysAfter(es, w);
      FirstsSnoc(Keys(Front(ws)), w.Key());
      FirstsSnoc(EntryKeys(es), w.Key());
    }
  }

  lemma {:induction false} KeysAfter(es: seq<Entry>, w: Store)
    ensures EntryKeys(After(es, w)) == EntryKeys(es) + [w.Key()]
      || (w.Key() in EntryKeys(es) && EntryKeys(After(es, w)) == EntryKeys(es))
    ensures w.Pair? || w.Key() !in EntryKeys(es) ==> EntryKeys(After(es, w)) == EntryKeys(es) + [w.Key()]
    ensures !w.Pair? && w.Key() in EntryKeys(es) ==> EntryKeys(After(es, w)) == EntryKeys(es)
  {
    KeyPresent(es, w.Key());
    hide First;
    if !w.Pair? && First(es, w.Key()) < |es| {
      assert EntryKeys(After(es, w)) == EntryKeys(es);
    } else {
      assert EntryKeys(After(es, w)) == EntryKeys(es) + [w.Key()];
    }
  }

  lemma {:induction false} KeyPresent(es: seq<Entry>, key: string)
    ensures First(es, key) < |es| <==> key in EntryKeys(es)
  {
    if First(es, key) < |es| {
      assert EntryKeys(es)[First(es, key)] == key;
    }
    if key in EntryKeys(es) {
      var i :| 0 <= i < |es| && EntryKeys(es)[i] == key;
    }
  }

  /** The sections called from the first n entries. */
  lemma {:induction false} CalledUpTo(ws: seq<Store>, n: nat)
    requires n <= |Entries(ws)|
    ensures Called(Entries(ws)[..n]) == Selected(Firsts(EntryKeys(Entries(ws)[..n])), ws)
  {
    hide Entries, Title, Firsts, Selected, Called;
    var es := Entries(ws);
    if n == 0 {
      NothingCalled(ws);
      assert EntryKeys(es[..n]) == [] && es[..n] == [];
    } else {
      var e, before := es[n - 1], es[..n - 1];
      assert es[..n] == before + [e];
      CalledUpTo(ws, n - 1);
      CalledSnoc(before, e);
      assert EntryKeys(es[..n]) == EntryKeys(before) + [e.key];
      FirstsSnoc(EntryKeys(before), e.key);
      SelectedSnoc(Firsts(EntryKeys(before)), e.key, ws);
      CalledHere(ws, n - 1);
      KeyPresent(before, e.key);
      FirstOfPrefix(es, n - 1, e.key);
    }
  }

  lemma {:induction false} NothingCalled(ws: seq<Store>)
    ensures Called([]) == [] && Selected(Firsts([]), ws) == []
  {
  }

  lemma {:induction false} CalledSnoc(es: seq<Entry>, e: Entry)
    ensures Called(es + [e]) == Called(es) + (if IsContainer(e) then [e.key] else [])
  {
    assert Front(es + [e]) == es && Last(es + [e]) == e;
  }

  lemma {:induction false} SelectedSnoc(ks: seq<string>, k: string, ws: seq<Store>)
    ensures Selected(ks + [k], ws) == Selected(ks, ws) + (if Chosen(ws, k) then [k] else [])
  {
    assert Front(ks + [k]) == ks && Last(ks + [k]) == k;
  }

  lemma {:induction false} FirstOfPrefix(es: seq<Entry>, n: nat, key: string)
    requires n <= |es|
    ensures First(es[..n], key) < n <==> exists j :: 0 <= j < n && es[j].key == key
  {
    var i := First(es[..n], key);
    assert i < n ==> es[i].key == key;
    assert forall j | 0 <= j < i :: es[..n][j] == es[j];
  }

  /** An entry is called for iff it is the first of its key and the key is a chosen section. */
  lemma {:induction false} CalledHere(ws: seq<Store>, i: nat)
    requires i < |Entries(ws)|
    ensures var es := Entries(ws);
      IsContainer(es[i]) <==> Chosen(ws, es[i].key) && forall j | 0 <= j < i :: es[j].key != es[i].key
  {
    hide Entries, Title, IsNull, Binding;
    var es := Entries(ws);
    NullEntries(ws, es[i].key);
    if forall j | 0 <= j < i :: es[j].key != es[i].key {
      NullHere(es, i);
    }
  }

  /** Where a key first occurs, the entry is NULL iff any entry of the key is. */
  lemma {:induction false} NullHere(es: seq<Entry>, i: nat)
    requires NullsFirst(es) && i < |es|
    requires forall j | 0 <= j < i :: es[j].key != es[i].key
    ensures es[i].val.None? <==> Entry(es[i].key, None) in es
  {
    assert es[i] in es;
  }

  /** config_foreach_container calls back once for each container section that is NULL in the end, in
      the order in which a line or a setting of whatever kind first names it. */
  lemma {:induction false} CalledOncePerSection(ws: seq<Store>)
    ensures Called(Entries(ws)) == Selected(Firsts(Keys(ws)), ws)
    ensures NoDuplicates(Called(Entries(ws)))
    ensures forall name :: name in Called(Entries(ws)) <==> Title(name).Some? && IsNull(ws, name)
  {
    hide Entries, Called, Selected, Firsts, IsNull, EntryKeys, Keys;
    CalledUpTo(ws, |Entries(ws)|);
    assert Entries(ws)[..|Entries(ws)|] == Entries(ws);
    EntriesInStoreOrder(ws);
    forall name ensures name in Called(Entries(ws)) <==> Title(name).Some? && IsNull(ws, name) {
      FirstsOrder(Keys(ws), name, name);
      SelectedOrder(Firsts(Keys(ws)), ws, name, name);
      NullIsNamed(ws, name);
    }
    FirstsOrder(Keys(ws), "", "");
    SelectedOrder(Firsts(Keys(ws)), ws, "", "");
  }

  /** Whatever was set since the file was loaded, no section is called for twice. */
  lemma {:induction false} CalledOnce(es: seq<Entry>)
    requires NullsFirst(es)
    ensures NoDuplicates(Called(es))
  {
    if es != [] {
      hide Called, First, Title;
      assert es == Front(es) + [Last(es)];
      CalledSnoc(Front(es), Last(es));
      FrontNullsFirst(es);
      CalledOnce(Front(es));
      if IsContainer(Last(es)) {
        LastIsNew(es);
      }
    }
  }

  lemma FrontNullsFirst(es: seq<Entry>)
    requires NullsFirst(es) && es != []
    ensures NullsFirst(Front(es))
  {
  }

  /** A NULL entry in the last place has a key that was not called for before. */
  lemma {:induction false} LastIsNew(es: seq<Entry>)
    requires NullsFirst(es) && es != [] && Last(es).val.None?
    ensures Last(es).key !in Called(Front(es))
  {
    CalledIsKey(Front(es), Last(es).key);
  }

  lemma {:induction false} CalledIsKey(es: seq<Entry>, key: string)
    ensures key in Called(es) ==> exists i :: 0 <= i < |es| && es[i].key == key
  {
    hide Title;
    if es != [] {
      CalledIsKey(Front(es), key);
      if key in Called(es) {
        if key in Called(Front(es)) {
          var i :| 0 <= i < |Front(es)| && Front(es)[i].key == key;
          assert es[i].key == key;
        } else {
          assert es[|es| - 1].key == key;
        }
      }
    }
  }

  lemma {:induction false} NullIsNamed(ws: seq<Store>, name: string)
    ensures Replaced(ws, name).Some? <==> Some(name) in Named(ws)
    ensures IsNull(ws, name) ==> name in Keys(ws) && Some(name) in Named(ws)
  {
    if ws != [] {
      NullIsNamed(Front(ws), name);
      var w := Last(ws);
      assert ws == Front(ws) + [w];
      NamedSnoc(Front(ws), w);
      KeysSnoc(Front(ws), w);
    }
  }

  lemma {:induction false} NamedSnoc(ws: seq<Store>, w: Store)
    ensures Named(ws + [w]) == Named(ws) + [if w.Pair? then None else Some(w.Key())]
  {
  }

  // ----- when that is the order of the section lines -----

  /** Value line i stores the name of a container section whose first section line comes only behind
      line j, and the container section of line j is first stored behind line i. */
  predicate Overtakes(ws: seq<Store>, i: nat, j: nat) {
    && i < j < |ws| && ws[i].Pair? && !ws[j].Pair?
    && Chosen(ws, ws[i].Key()) && j < Pos(Named(ws), Some(ws[i].Key()))
    && Chosen(ws, ws[j].Key()) && i < Pos(Keys(ws), ws[j].Key())
  }

  lemma {:induction false} KeyBeforeName(ws: seq<Store>, name: string)
    requires Some(name) in Named(ws)
    ensures name in Keys(ws) && Pos(Keys(ws), name) <= Pos(Named(ws), Some(name)) < |ws|
  {
    assert Keys(ws)[Pos(Named(ws), Some(name))] == name;
  }

  /** Both orders, in terms of the stores. */
  lemma {:induction false} OrdersTold(ws: seq<Store>, x: string, y: string)
    ensures Before(Called(Entries(ws)), x, y) <==> Before(Keys(ws), x, y) && Chosen(ws, x) && Chosen(ws, y)
    ensures Before(Selected(SectionOrder(Named(ws)), ws), x, y) <==>
      Before(Named(ws), Some(x), Some(y)) && Chosen(ws, x) && Chosen(ws, y)
    ensures NoDuplicates(Called(Entries(ws))) && NoDuplicates(Selected(SectionOrder(Named(ws)), ws))
    ensures x in Called(Entries(ws)) <==> Chosen(ws, x)
    ensures x in Selected(SectionOrder(Named(ws)), ws) <==> Chosen(ws, x)
  {
    hide Entries, Called, Selected, Firsts, SectionOrder, Before, Title, NoDuplicates, IsNull, Keys, Named;
    CalledOncePerSection(ws);
    FirstsOrder(Keys(ws), x, y);
    SelectedOrder(Firsts(Keys(ws)), ws, x, y);
    NamedOrder(Named(ws), x, y);
    SelectedOrder(SectionOrder(Named(ws)), ws, x, y);
    NullIsNamed(ws, x);
  }

  lemma {:induction false} WhenOvertaken(ws: seq<Store>, i: nat, j: nat)
    requires Overtakes(ws, i, j)
    ensures Called(Entries(ws)) != Selected(SectionOrder(Named(ws)), ws)
  {
    hide Entries, Called, Selected, SectionOrder, Title, IsNull;
    var x, y := ws[j].Key(), ws[i].Key();
    OrdersTold(ws, x, y);
    OrdersTold(ws, y, x);
    NullIsNamed(ws, y);
    assert Named(ws)[j] == Some(x) && Keys(ws)[i] == y;
    assert Keys(ws)[j] == x;
  }

  lemma {:induction false} InversionOvertakes(ws: seq<Store>, x: string, y: string)
    requires Chosen(ws, x) && Chosen(ws, y) && x in Keys(ws) && y in Keys(ws)
    requires Pos(Keys(ws), x) <= Pos(Named(ws), Some(x)) < Pos(Named(ws), Some(y)) <= |ws|
    ensures Pos(Keys(ws), y) < Pos(Keys(ws), x) ==> Overtakes(ws, Pos(Keys(ws), y), Pos(Named(ws), Some(x)))
  {
    hide Chosen;
    var i, j := Pos(Keys(ws), y), Pos(Named(ws), Some(x));
    assert ws[i].Key() == y && Named(ws)[j] == Some(x);
    assert Named(ws)[i] == if ws[i].Pair? then None else Some(y);
  }

  lemma BeforeOrNot<T>(s: seq<T>, x: T, y: T)
    ensures x in s && y in s && x != y ==> Before(s, x, y) || Before(s, y, x)
    ensures Before(s, x, y) <==> Pos(s, x) < Pos(s, y) < |s|
    ensures Before(s, x, y) ==> x != y && x in s && y in s
  {
  }

  lemma {:induction false} WhenNot(ws: seq<Store>, x: string, y: string)
    requires !exists i: nat, j: nat :: Overtakes(ws, i, j)
    requires Before(Selected(SectionOrder(Named(ws)), ws), x, y)
    ensures Before(Called(Entries(ws)), x, y)
  {
    hide Entries, Called, Selected, SectionOrder, Chosen, Keys, Named, Overtakes, Pos, Before;
    OrdersTold(ws, x, y);
    BeforeOrNot(Named(ws), Some(x), Some(y));
    KeyBeforeName(ws, x);
    KeyBeforeName(ws, y);
    NamedLength(ws);
    InversionOvertakes(ws, x, y);
    BeforeOrNot(Keys(ws), x, y);
    BeforeOrNot(Keys(ws), y, x);
  }

  lemma NamedLength(ws: seq<Store>)
    ensures |Named(ws)| == |Keys(ws)| == |ws|
  {
  }

  /** The calls come in the order of the section lines iff no value line overtakes: one under
      [container], say, that has stored a later section's name as its own key. */
  lemma {:induction false} CalledInFileOrder(ws: seq<Store>)
    ensures Called(Entries(ws)) == Selected(SectionOrder(Named(ws)), ws) <==>
      !exists i: nat, j: nat :: Overtakes(ws, i, j)
  {
    hide Entries, Called, Selected, SectionOrder, Before, NoDuplicates, Overtakes, Chosen, Named;
    if i: nat, j: nat :| Overtakes(ws, i, j) {
      WhenOvertaken(ws, i, j);
    } else {
      var a, b := Selected(SectionOrder(Named(ws)), ws), Called(Entries(ws));
      forall x ensures x in a <==> x in b {
        OrdersTold(ws, x, x);
      }
      forall x, y | Before(a, x, y) ensures Before(b, x, y) {
        WhenNot(ws, x, y);
      }
      OrdersTold(ws, "", "");
      SameOrder(a, b);
    }
  }
}
