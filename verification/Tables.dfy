/** dictionary.c on values: a table of slots with holes, what each operation does to it, and what
    a table means. Dictionaries proves the array code against these functions. */
module Tables {
  import opened Wrappers
  import opened Slots

  // C strings; a value is a possibly NULL one.
  type Value = Option<string>
  datatype Entry = Entry(key: string, val: Value)
  type Table = seq<Option<Entry>>

  const DICTMINSZ: nat := 128

  // ----- looking up -----

  predicate HasKey(slot: Option<Entry>, key: string) {
    slot.Some? && slot.value.key == key
  }

  /** The first slot with this key, or |t|. */
  function Find(t: Table, key: string): (i: nat)
    ensures i <= |t| && (i < |t| ==> HasKey(t[i], key))
    ensures forall j | 0 <= j < i :: !HasKey(t[j], key)
  {
    if t == [] || HasKey(t[0], key) then 0 else Find(t[1..], key) + 1
  }

  /** None for an absent key, Some(None) for a key whose value is NULL. */
  function Lookup(t: Table, key: string): Option<Value> {
    if Find(t, key) < |t| then Some(t[Find(t, key)].value.val) else None
  }

  /** Find is the only index with its property. */
  lemma {:induction false} FindIs(t: Table, key: string, i: nat)
    requires i <= |t| && (i < |t| ==> HasKey(t[i], key))
    requires forall j | 0 <= j < i :: !HasKey(t[j], key)
    ensures Find(t, key) == i
  {
  }

  // ----- changing -----

  function Grown(t: Table): Table {
    if |Items(t)| == |t| then t + Nones(|t|) else t
  }

  /** The slot the insertion scan finds: the first empty one from slot n on, wrapping around. */
  function FreeSlot(t: Table, n: nat): (i: nat)
    requires n <= |t|
    ensures i <= |t|
  {
    if FirstEmpty(t, n) < |t| then FirstEmpty(t, n) else FirstEmpty(t, 0)
  }

  /** The slot reached by d steps of the scan from n. */
  function Cyclic(n: nat, d: nat, size: nat): nat
    requires n <= size && d <= size
  {
    if n + d < size then n + d else n + d - size
  }

  /** The scan passes only occupied slots before it reaches the free one. */
  lemma {:induction false} FreeSlotIsFirst(t: Table, n: nat, d: nat)
    requires n < |t| && d < |t| && FreeSlot(t, n) < |t|
    requires forall e | 0 <= e < d :: Cyclic(n, e, |t|) != FreeSlot(t, n)
    ensures Cyclic(n, d, |t|) != FreeSlot(t, n) ==> t[Cyclic(n, d, |t|)].Some?
  {
    hide FirstEmpty;
    var i, c := FreeSlot(t, n), Cyclic(n, d, |t|);
    assert n <= i ==> Cyclic(n, i - n, |t|) == i;
    assert i < n ==> Cyclic(n, i + |t| - n, |t|) == i;
  }

  lemma {:induction false} GrownHasRoom(t: Table)
    requires t != []
    ensures Items(Grown(t)) == Items(t) && |Items(t)| < |Grown(t)|
    ensures FreeSlot(Grown(t), |Items(t)|) < |Grown(t)|
    ensures Grown(t)[FreeSlot(Grown(t), |Items(t)|)].None?
    ensures forall j | 0 <= j < |Grown(t)| :: Grown(t)[j] == if j < |t| then t[j] else None
  {
    hide Items;
    ItemsGrown(t, |t|);
    Pigeonhole(Grown(t));
  }

  /** dictionary_add: a new entry, whether or not the key is there already. */
  function AddTo(t: Table, key: string, val: Value): (r: Table)
    requires t != []
    ensures |t| <= |r|
  {
    GrownHasRoom(t);
    Grown(t)[FreeSlot(Grown(t), |Items(t)|) := Some(Entry(key, val))]
  }

  /** dictionary_set. */
  function SetIn(t: Table, key: string, val: Value): (r: Table)
    requires t != []
    ensures |t| <= |r|
  {
    if Find(t, key) < |t| then t[Find(t, key) := Some(Entry(key, val))] else AddTo(t, key, val)
  }

  /** dictionary_unset. */
  function UnsetIn(t: Table, key: string): (r: Table)
    ensures |r| == |t|
  {
    if Find(t, key) < |t| then t[Find(t, key) := None] else t
  }

  // ----- what the changes do to lookups -----

  lemma {:induction false} LookupAfterSet(t: Table, key: string, val: Value, other: string)
    requires t != []
    ensures Lookup(SetIn(t, key, val), other) == if other == key then Some(val) else Lookup(t, other)
  {
    if Find(t, key) < |t| {
      LookupAfterReplace(t, key, val, other);
    } else {
      LookupAfterAdd(t, key, val, other);
    }
  }

  lemma {:induction false} LookupAfterReplace(t: Table, key: string, val: Value, other: string)
    requires Find(t, key) < |t|
    ensures Lookup(t[Find(t, key) := Some(Entry(key, val))], other) ==
      if other == key then Some(val) else Lookup(t, other)
  {
    var t' := t[Find(t, key) := Some(Entry(key, val))];
    FindIs(t', other, Find(t, other));
  }

  /** An added entry is read iff no other entry with its key comes before it: the key was absent, or
      the scan wrapped around to a hole in front of the first entry with the key. All other lookups
      stay as they are. */
  lemma {:induction false} LookupAfterAdd(t: Table, key: string, val: Value, other: string)
    requires t != []
    ensures Lookup(AddTo(t, key, val), other) ==
      if other == key && (Find(t, key) == |t| || FreeSlot(Grown(t), |Items(t)|) < Find(t, key)) then Some(val)
      else Lookup(t, other)
  {
    hide Items, FreeSlot;
    GrownHasRoom(t);
    var i := FreeSlot(Grown(t), |Items(t)|);
    var t' := AddTo(t, key, val);
    hide AddTo, Grown;
    if other == key && (Find(t, key) == |t| || i < Find(t, key)) {
      FindIs(t', key, i);
    } else if Find(t, other) < |t| {
      FindIs(t', other, Find(t, other));
    } else {
      FindIs(t', other, |t'|);
    }
  }

  /** Without holes an addition to a present key is always hidden. */
  lemma {:induction false} PackedHidesAddition(t: Table, key: string, val: Value)
    requires t != [] && Packed(t) && Find(t, key) < |t|
    ensures Lookup(AddTo(t, key, val), key) == Lookup(t, key)
  {
    hide Items, FirstEmpty, AddTo;
    LookupAfterAdd(t, key, val, key);
    GrownHasRoom(t);
    PackedItems(t);
  }

  /** With a hole in front it is not. */
  lemma {:induction false} AdditionInFront(a: string, b: string)
    ensures var t := [None, Some(Entry("k", Some(a)))];
      Lookup(t, "k") == Some(Some(a)) && Lookup(AddTo(t, "k", Some(b)), "k") == Some(Some(b))
  {
    var t := [None, Some(Entry("k", Some(a)))];
    FindIs(t, "k", 1);
    assert Items(t[1..]) == [Entry("k", Some(a))] by {
      ItemsOfOne(t[1]);
      assert t[1..] == [t[1]];
    }
    assert Items(t) == Items(t[1..]);
    assert FreeSlot(Grown(t), 1) == 0;
    LookupAfterAdd(t, "k", Some(b), "k");
  }

  // ----- distinct keys, and the number of entries -----

  predicate Distinct(t: Table) {
    forall i, j | 0 <= i < j < |t| && t[i].Some? && t[j].Some? :: t[i].value.key != t[j].value.key
  }

  lemma {:induction false} AddCounts(t: Table, key: string, val: Value)
    requires t != []
    ensures |Items(AddTo(t, key, val))| == |Items(t)| + 1
    ensures Distinct(t) && Find(t, key) == |t| ==> Distinct(AddTo(t, key, val))
  {
    hide Items, FreeSlot;
    GrownHasRoom(t);
    var g := Grown(t);
    var i := FreeSlot(g, |Items(t)|);
    ItemsSet(g, i, Some(Entry(key, val)));
  }

  lemma {:induction false} SetCounts(t: Table, key: string, val: Value)
    requires t != []
    ensures |Items(SetIn(t, key, val))| == |Items(t)| + (if Find(t, key) < |t| then 0 else 1)
    ensures Distinct(t) ==> Distinct(SetIn(t, key, val))
  {
    hide Items, AddTo;
    var i := Find(t, key);
    if i < |t| {
      ItemsSet(t, i, Some(Entry(key, val)));
    } else {
      AddCounts(t, key, val);
    }
  }

  lemma {:induction false} UnsetCounts(t: Table, key: string)
    ensures |Items(UnsetIn(t, key))| == |Items(t)| - (if Find(t, key) < |t| then 1 else 0)
    ensures Distinct(t) ==> Distinct(UnsetIn(t, key))
  {
    hide Items;
    if Find(t, key) < |t| {
      ItemsSet(t, Find(t, key), None);
    }
  }

  /** Removing a key touches no other key, and makes the key absent iff no further slot has it;
      with duplicates it uncovers the next one. */
  lemma {:induction false} LookupAfterUnset(t: Table, key: string, other: string)
    ensures other != key ==> Lookup(UnsetIn(t, key), other) == Lookup(t, other)
    ensures Lookup(UnsetIn(t, key), key) == None <==> forall j | Find(t, key) < j < |t| :: !HasKey(t[j], key)
    ensures Distinct(t) ==> Lookup(UnsetIn(t, key), key) == None
  {
    var f, t' := Find(t, key), UnsetIn(t, key);
    if f < |t| {
      if other != key {
        FindIs(t', other, Find(t, other));
      }
      if forall j | f < j < |t| :: !HasKey(t[j], key) {
        FindIs(t', key, |t'|);
      } else {
        var j :| f < j < |t| && HasKey(t[j], key);
        assert HasKey(t'[j], key);
      }
    }
  }

  // ----- every history without dictionary_add is a finite map -----

  datatype Op = Set(key: string, val: Value) | Unset(key: string) | Add(key: string, val: Value)

  /** dictionary_add refuses NULL. */
  function Performed(t: Table, op: Op): Table
    requires t != []
  {
    match op
    case Set(key, val) => SetIn(t, key, val)
    case Unset(key) => UnsetIn(t, key)
    case Add(key, val) => if val.None? then t else AddTo(t, key, val)
  }

  /** The table a history leaves, starting from an empty one of the given size. */
  function History(size: nat, ops: seq<Op>): (t: Table)
    requires size > 0
    ensures t != []
  {
    if ops == [] then Nones(size) else Performed(History(size, ops[..|ops| - 1]), ops[|ops| - 1])
  }

  function Meaning(ops: seq<Op>): map<string, Value>
    requires forall i | 0 <= i < |ops| :: !ops[i].Add?
  {
    if ops == [] then map[]
    else
      var before := Meaning(ops[..|ops| - 1]);
      match ops[|ops| - 1]
      case Set(key, val) => before[key := val]
      case Unset(key) => before - {key}
  }

  /** Over every history of set and unset, through any number of doublings, the keys stay pairwise
      distinct, the number of occupied slots is the size of the map the history describes, and
      every lookup answers what that map answers. */
  lemma {:induction false} HistoryIsMap(size: nat, ops: seq<Op>, key: string)
    requires size > 0 && forall i | 0 <= i < |ops| :: !ops[i].Add?
    ensures Distinct(History(size, ops))
    ensures |Items(History(size, ops))| == |Meaning(ops)|
    ensures Lookup(History(size, ops), key) == if key in Meaning(ops) then Some(Meaning(ops)[key]) else None
  {
    hide Items, SetIn, UnsetIn, Lookup, Distinct;
    if ops == [] {
      EmptyTable(size, key);
    } else {
      var before := ops[..|ops| - 1];
      assert forall i | 0 <= i < |before| :: before[i] == ops[i];
      var t := History(size, before);
      HistoryIsMap(size, before, key);
      match ops[|ops| - 1] {
        case Set(k, v) =>
          HistoryIsMap(size, before, k);
          FoundIffPresent(t, k);
          SetCounts(t, k, v);
          LookupAfterSet(t, k, v, key);
        case Unset(k) =>
          HistoryIsMap(size, before, k);
          FoundIffPresent(t, k);
          UnsetCounts(t, k);
          LookupAfterUnset(t, k, key);
          UnsetMeaning(Meaning(before), k);
      }
    }
  }

  lemma {:induction false} FoundIffPresent(t: Table, key: string)
    ensures Lookup(t, key).Some? <==> Find(t, key) < |t|
  {
  }

  lemma {:induction false} UnsetMeaning(m: map<string, Value>, k: string)
    ensures |m - {k}| == |m| - (if k in m then 1 else 0)
  {
    if k in m {
      var m' := m - {k};
      assert m == m'[k := m[k]];
    } else {
      assert m - {k} == m;
    }
  }

  lemma {:induction false} EmptyTable(size: nat, key: string)
    ensures Distinct(Nones(size)) && Items<Entry>(Nones(size)) == [] && Lookup(Nones(size), key) == None
  {
    ItemsAllEmpty<Entry>(Nones(size));
    FindIs(Nones(size), key, size);
  }

  // ----- histories without unset keep the entries in front -----

  /** In a packed table an absent key goes behind all entries, whatever the growth. */
  lemma {:induction false} AddPacked(t: Table, key: string, val: Value)
    requires t != [] && Packed(t)
    ensures Packed(AddTo(t, key, val)) && Items(AddTo(t, key, val)) == Items(t) + [Entry(key, val)]
  {
    hide Items;
    GrownHasRoom(t);
    PackedItems(t);
    var g := Grown(t);
    var n := |Items(t)|;
    assert g[n].None? && FirstEmpty(g, n) == n;
    hide FirstEmpty;
    ItemsSet(g, n, Some(Entry(key, val)));
    ItemsAllEmpty(g[n + 1..]);
    assert Packed(g);
    assert AddTo(t, key, val) == g[n := Some(Entry(key, val))];
    hide AddTo, Grown;
    var a := Items(g[..n]);
    assert a + [] + [] == a && a + [Entry(key, val)] + [] == a + [Entry(key, val)];
  }

  lemma {:induction false} SetPacked(t: Table, key: string, val: Value)
    requires t != [] && Packed(t)
    ensures Packed(SetIn(t, key, val))
    ensures Find(t, key) == |t| ==> Items(SetIn(t, key, val)) == Items(t) + [Entry(key, val)]
    ensures Find(t, key) < |t| ==>
      Find(t, key) < |Items(t)| && Items(SetIn(t, key, val)) == Items(t)[Find(t, key) := Entry(key, val)]
  {
    AddPacked(t, key, val);
    hide Items, AddTo;
    if Find(t, key) < |t| {
      PackedItems(t);
      ReplacePacked(t, Find(t, key), Entry(key, val));
    }
  }

  lemma {:induction false} ReplacePacked(t: Table, i: nat, e: Entry)
    requires Packed(t) && i < |Items(t)| && t[i].Some?
    ensures Packed(t[i := Some(e)]) && Items(t[i := Some(e)]) == Items(t)[i := e]
  {
    hide Items;
    var t' := t[i := Some(e)];
    ItemsSet(t, i, Some(e));
    PackedItems(t);
    PackedItems(t');
    hide Packed;
    forall j | 0 <= j < |Items(t)| ensures Items(t')[j] == Items(t)[i := e][j] {
      assert t'[j] == Some(Items(t')[j]) && t[j] == Some(Items(t)[j]);
    }
  }
}
