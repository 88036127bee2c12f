/** The entries of a dictionary as a sequence, and the operations of dictionary.c on it when no slot
    before an entry is empty. */
module EntryLists {
  import opened Wrappers
  import opened Slots
  import opened Tables
  import opened CStrings

  function Last<T>(s: seq<T>): T
    requires s != []
  {
    s[|s| - 1]
  }

  function Front<T>(s: seq<T>): seq<T>
    requires s != []
  {
    s[..|s| - 1]
  }

  predicate NoDuplicates<T(==)>(s: seq<T>) {
    forall i, j | 0 <= i < j < |s| :: s[i] != s[j]
  }

  // ----- the first entry of a key -----

  /** The first entry with this key, or |es|. */
  function First(es: seq<Entry>, key: string): (i: nat)
    ensures i <= |es| && (i < |es| ==> es[i].key == key)
    ensures forall j | 0 <= j < i :: es[j].key != key
  {
    if es == [] || es[0].key == key then 0 else First(es[1..], key) + 1
  }

  /** The value of the first entry of a key. */
  function Binding(es: seq<Entry>, key: string): Option<Value> {
    if First(es, key) < |es| then Some(es[First(es, key)].val) else None
  }

  lemma {:induction false} FirstIs(es: seq<Entry>, key: string, i: nat)
    requires i <= |es| && (i < |es| ==> es[i].key == key)
    requires forall j | 0 <= j < i :: es[j].key != key
    ensures First(es, key) == i
  {
  }

  lemma {:induction false} FirstSnoc(es: seq<Entry>, e: Entry, key: string)
    ensures First(es + [e], key) ==
      if First(es, key) < |es| then First(es, key) else if e.key == key then |es| else |es| + 1
  {
    var i := First(es, key);
    FirstIs(es + [e], key, if i < |es| then i else if e.key == key then |es| else |es| + 1);
  }

  lemma {:induction false} BindingCons(e: Entry, es: seq<Entry>, key: string)
    ensures Binding([e] + es, key) == if e.key == key then Some(e.val) else Binding(es, key)
    ensures Binding([], key) == None
  {
    assert ([e] + es)[1..] == es;
  }

  lemma {:induction false} BindingNone(es: seq<Entry>, key: string)
    ensures Binding(es, key).None? <==> forall i | 0 <= i < |es| :: es[i].key != key
  {
  }

  lemma {:induction false} LookupCons(slot: Option<Entry>, t: Table, key: string)
    ensures Lookup([slot] + t, key) == if HasKey(slot, key) then Some(slot.value.val) else Lookup(t, key)
    ensures Lookup([], key) == None
  {
    assert ([slot] + t)[1..] == t;
  }

  /** Looking up in a table, holes or not, is looking for the first entry. */
  lemma {:induction false} LookupIsBinding(t: Table, key: string)
    ensures Lookup(t, key) == Binding(Items(t), key)
  {
    hide Items, Lookup, Binding;
    if t == [] {
      ItemsAllEmpty(t);
      LookupCons(None, [], key);
      BindingCons(Entry("", None), [], key);
    } else {
      var slot, rest := t[0], t[1..];
      LookupIsBinding(rest, key);
      assert t == [slot] + rest;
      ItemsCons(slot, rest);
      LookupCons(slot, rest, key);
      if slot.Some? {
        BindingCons(slot.value, Items(rest), key);
      } else {
        assert [] + Items(rest) == Items(rest);
      }
    }
  }

  lemma {:induction false} FindItems(t: Table, key: string)
    ensures Find(t, key) == |t| <==> First(Items(t), key) == |Items(t)|
  {
    hide Items;
    LookupIsBinding(t, key);
  }

  /** In a packed table entry i is in slot i. */
  lemma {:induction false} FirstIsFind(t: Table, key: string)
    requires Packed(t) && Find(t, key) < |t|
    ensures First(Items(t), key) == Find(t, key) < |Items(t)|
  {
    hide Items;
    PackedItems(t);
    var es, f := Items(t), Find(t, key);
    forall j | 0 <= j < f ensures es[j].key != key {
      assert !HasKey(t[j], key) && t[j] == Some(es[j]);
    }
    FirstIs(es, key, f);
  }

  // ----- distinct keys -----

  predicate KeysDistinct(es: seq<Entry>) {
    forall i, j | 0 <= i < j < |es| :: es[i].key != es[j].key
  }

  predicate CleanKeys(es: seq<Entry>) {
    forall i | 0 <= i < |es| :: CleanKey(es[i].key)
  }

  lemma {:induction false} DistinctItems(t: Table)
    requires Distinct(t)
    ensures KeysDistinct(Items(t))
  {
    if t != [] {
      DistinctItems(t[1..]);
      var es := Items(t[1..]);
      if t[0].Some? {
        forall j | 0 <= j < |es| ensures es[j].key != t[0].value.key {
          ItemAt(t[1..], es[j]);
          var i :| 0 <= i < |t[1..]| && t[1..][i] == Some(es[j]);
          assert t[i + 1] == Some(es[j]);
        }
      }
    }
  }

  // ----- all entries of a key -----

  /** The values of the entries with this key, in order. */
  function Of(es: seq<Entry>, key: string): seq<Value> {
    if es == [] then [] else Of(Front(es), key) + (if Last(es).key == key then [Last(es).val] else [])
  }

  lemma {:induction false} OfSnoc(es: seq<Entry>, e: Entry, key: string)
    ensures Of(es + [e], key) == Of(es, key) + (if e.key == key then [e.val] else [])
    ensures Of([], key) == []
  {
    assert Front(es + [e]) == es && Last(es + [e]) == e;
  }

  lemma {:induction false} OfAppend(a: seq<Entry>, b: seq<Entry>, key: string)
    ensures Of(a + b, key) == Of(a, key) + Of(b, key)
    decreases |b|
  {
    hide Of;
    OfSnoc([], Entry("", None), key);
    if b == [] {
      assert a + b == a && Of(a, key) + [] == Of(a, key);
    } else {
      assert a + b == (a + Front(b)) + [Last(b)] && b == Front(b) + [Last(b)];
      OfAppend(a, Front(b), key);
      OfSnoc(a + Front(b), Last(b), key);
      OfSnoc(Front(b), Last(b), key);
    }
  }

  /** The entries around entry i of a key. */
  lemma {:induction false} OfAround(es: seq<Entry>, i: nat, key: string)
    requires i < |es|
    ensures Of(es, key) ==
      Of(es[..i], key) + (if es[i].key == key then [es[i].val] else []) + Of(es[i + 1..], key)
  {
    hide Of;
    assert es == es[..i] + [es[i]] + es[i + 1..];
    OfAppend(es[..i] + [es[i]], es[i + 1..], key);
    OfSnoc(es[..i], es[i], key);
  }

  lemma {:induction false} OfAbsent(es: seq<Entry>, key: string)
    ensures Of(es, key) == [] <==> First(es, key) == |es|
  {
    if es != [] {
      OfAbsent(Front(es), key);
      FirstSnoc(Front(es), Last(es), key);
      assert es == Front(es) + [Last(es)];
    }
  }

  /** Before the first entry of a key there is none. */
  lemma {:induction false} OfFromFirst(es: seq<Entry>, key: string)
    requires First(es, key) < |es|
    ensures var i := First(es, key);
      Of(es[..i], key) == [] && Of(es, key) == [es[i].val] + Of(es[i + 1..], key)
  {
    hide Of;
    var i := First(es, key);
    OfAround(es, i, key);
    OfAbsent(es[..i], key);
    assert First(es[..i], key) == i by {
      FirstIs(es[..i], key, i);
    }
  }

  lemma {:induction false} BindingIsFirst(es: seq<Entry>, key: string)
    ensures Binding(es, key) == if Of(es, key) == [] then None else Some(Of(es, key)[0])
  {
    hide Of, First;
    OfAbsent(es, key);
    if First(es, key) < |es| {
      OfFromFirst(es, key);
    }
  }

  // ----- dictionary_set without holes -----

  /** The first entry of the key is replaced; without one the entry goes last. */
  function Put(es: seq<Entry>, key: string, val: Value): seq<Entry> {
    if First(es, key) < |es| then es[First(es, key) := Entry(key, val)] else es + [Entry(key, val)]
  }

  lemma {:induction false} PutPacked(t: Table, key: string, val: Value)
    requires t != [] && Packed(t)
    ensures Packed(SetIn(t, key, val)) && Items(SetIn(t, key, val)) == Put(Items(t), key, val)
  {
    hide Items, SetIn, Packed, First;
    FindItems(t, key);
    SetPacked(t, key, val);
    if Find(t, key) < |t| {
      FirstIsFind(t, key);
    }
  }

  /** What Put does to the entries of any key. */
  lemma {:induction false} OfPut(es: seq<Entry>, key: string, val: Value, other: string)
    ensures Of(Put(es, key, val), other) ==
      if other != key then Of(es, other)
      else if Of(es, key) == [] then [val]
      else Of(es, key)[0 := val]
  {
    hide Of, First;
    OfAbsent(es, key);
    var i := First(es, key);
    if i < |es| {
      var es' := es[i := Entry(key, val)];
      OfAround(es, i, other);
      OfAround(es', i, other);
      assert es'[..i] == es[..i] && es'[i + 1..] == es[i + 1..];
      OfFromFirst(es, key);
    } else {
      OfSnoc(es, Entry(key, val), other);
    }
  }

  lemma {:induction false} FirstPut(es: seq<Entry>, key: string, val: Value, other: string)
    ensures First(Put(es, key, val), other) ==
      if First(es, other) < |es| then First(es, other)
      else if other == key then |es|
      else |Put(es, key, val)|
    ensures |es| <= |Put(es, key, val)| && forall i | 0 <= i < |es| :: Put(es, key, val)[i].key == es[i].key
  {
    hide First;
    var i := First(es, key);
    if i < |es| {
      FirstIs(Put(es, key, val), other, First(es, other));
    } else {
      FirstSnoc(es, Entry(key, val), other);
    }
  }

  // ----- every history without dictionary_unset -----

  /** The entries a history of set and add describes. */
  function Listed(ops: seq<Op>): seq<Entry>
    requires forall i | 0 <= i < |ops| :: !ops[i].Unset?
  {
    if ops == [] then []
    else
      var before := Listed(Front(ops));
      match Last(ops)
      case Set(key, val) => Put(before, key, val)
      case Add(key, val) => if val.None? then before else before + [Entry(key, val)]
  }

  /** Over every history of set and add, through all growth, the entries are exactly the first
      slots, in the order of insertion, duplicates included. */
  lemma {:induction false} HistoryIsPacked(size: nat, ops: seq<Op>)
    requires size > 0 && forall i | 0 <= i < |ops| :: !ops[i].Unset?
    ensures Packed(History(size, ops)) && Items(History(size, ops)) == Listed(ops)
  {
    hide Items, SetIn, AddTo, Packed, Find, Put;
    if ops == [] {
      EmptyTable(size, "");
      NonesPacked(size);
    } else {
      var op := Last(ops);
      assert forall i | 0 <= i < |Front(ops)| :: Front(ops)[i] == ops[i];
      HistoryIsPacked(size, Front(ops));
      var t := History(size, Front(ops));
      match op {
        case Set(key, val) => PutPacked(t, key, val);
        case Add(key, val) => AddPacked(t, key, val);
      }
    }
  }

  lemma NonesPacked(size: nat)
    ensures Packed<Entry>(Nones(size))
  {
  }
}
