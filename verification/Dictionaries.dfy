/** dictionary.c in its own form: three parallel arrays that grow by doubling, with cached hashes. */
module Dictionaries {
  import opened Wrappers
  import opened Slots
  import opened Tables

  // ----- dictionary_hash: 32-bit wrapping arithmetic -----

  /** (unsigned) key[i] for a signed 8-bit char. */
  function SignExtended(c: char): bv32 {
    var v := c as int % 256;
    if v < 128 then v as bv32 else 0xFFFF_FF00 + v as bv32
  }

  function Mixed(hash: bv32, c: char): bv32 {
    MixedWord(hash, SignExtended(c))
  }

  function MixedWord(hash: bv32, word: bv32): bv32 {
    var h := hash + word;
    var h' := h + (h << 10);
    h' ^ (h' >> 6)
  }

  function HashFrom(key: string): bv32 {
    if key == [] then 0 else Mixed(HashFrom(key[..|key| - 1]), key[|key| - 1])
  }

  function Avalanched(hash: bv32): bv32 {
    var h := hash + (hash << 3);
    var h' := h ^ (h >> 11);
    h' + (h' << 15)
  }

  function Hash(key: string): bv32 {
    Avalanched(HashFrom(key))
  }

  lemma MixedValues()
    ensures MixedWord(0, 97) == 0x18270 && MixedWord(0, 0xFFFF_FFE9) == 0xFC00_5D66
    ensures Avalanched(0) == 0 && Avalanched(0x18270) == 0xCA2E_9442 && Avalanched(0xFC00_5D66) == 0x4098_48FF
  {
  }

  lemma LetterA()
    ensures SignExtended('a') == 97
  {
    assert 'a' as int % 256 == 97;
  }

  lemma ByteE9()
    ensures SignExtended('\U{E9}') == 0xFFFF_FFE9
  {
    assert '\U{E9}' as int % 256 == 0xE9;
  }

  lemma {:induction false} HashOfOne(c: char)
    ensures Hash([c]) == Avalanched(MixedWord(0, SignExtended(c))) && Hash("") == Avalanched(0)
  {
    hide MixedWord, Avalanched, SignExtended;
    assert [c][..0] == [];
    assert HashFrom([]) == 0;
  }

  /** Known values of this hash; the last key is one byte above 127, which is sign-extended. */
  lemma {:induction false} HashValues()
    ensures Hash("") == 0 && Hash("a") == 0xCA2E_9442 && Hash("\U{E9}") == 0x4098_48FF
  {
    hide Hash, MixedWord, Avalanched, SignExtended;
    MixedValues();
    LetterA();
    ByteE9();
    HashOfOne('a');
    HashOfOne('\U{E9}');
  }

  method DictionaryHash(key: string) returns (hash: bv32)
    ensures hash == Hash(key)
  {
    hide Mixed, Avalanched;
    hash := 0;
    var i := 0;
    while i < |key|
      invariant 0 <= i <= |key| && hash == HashFrom(key[..i])
    {
      assert key[..i + 1][..i] == key[..i];
      hash := Mixed(hash, key[i]);
      i := i + 1;
    }
    assert key[..i] == key;
    hash := Avalanched(hash);
  }

  /** mem_double: a zeroed block of twice the size that starts with the old contents. */
  method MemDouble<T>(a: array<T>, zero: T) returns (b: array<T>)
    ensures fresh(b) && b[..] == a[..] + Zeros(a.Length, zero)
  {
    b := new T[2 * a.Length](_ => zero);
    forall i | 0 <= i < a.Length {
      b[i] := a[i];
    }
  }

  function Zeros<T>(n: nat, zero: T): (r: seq<T>)
    ensures |r| == n && forall i | 0 <= i < n :: r[i] == zero
  {
    seq(n, _ => zero)
  }

  /** The i-th elements of the arrays stand for a slot; the cached hash is the hash of its key. */
  ghost predicate Matches(slot: Option<Entry>, key: Option<string>, val: Value, hash: bv32) {
    match slot
    case None => key == None && val == None && hash == 0
    case Some(e) => key == Some(e.key) && val == e.val && hash == Hash(e.key)
  }

  ghost predicate Represents(t: Table, key: seq<Option<string>>, val: seq<Value>, hash: seq<bv32>) {
    && |key| == |val| == |hash| == |t|
    && forall i | 0 <= i < |t| :: Matches(t[i], key[i], val[i], hash[i])
  }

  lemma RepresentsGrown(t: Table, key: seq<Option<string>>, val: seq<Value>, hash: seq<bv32>)
    requires Represents(t, key, val, hash)
    ensures Represents(t + Nones(|t|), key + Zeros(|t|, None), val + Zeros(|t|, None), hash + Zeros(|t|, 0))
  {
  }

  lemma FreeIsEmpty(t: Table, n: nat)
    requires n < |t| && exists i :: 0 <= i < |t| && t[i].None?
    ensures FreeSlot(t, n) < |t| && t[FreeSlot(t, n)].None?
  {
  }

  lemma AddedSlot(t: Table, k: string, v: Value)
    requires t != []
    ensures FreeSlot(Grown(t), |Items(t)|) < |Grown(t)|
    ensures AddTo(t, k, v) == Grown(t)[FreeSlot(Grown(t), |Items(t)|) := Some(Entry(k, v))]
  {
    hide Items, Grown, FreeSlot;
    GrownHasRoom(t);
  }

  lemma GrownIs(t: Table)
    ensures |Items(t)| == |t| ==> Grown(t) == t + Nones(|t|) && Items(Grown(t)) == Items(t)
    ensures |Items(t)| < |t| ==> Grown(t) == t
  {
    ItemsGrown(t, |t|);
  }

  lemma RepresentsWritten(t: Table, key: seq<Option<string>>, val: seq<Value>, hash: seq<bv32>,
                          i: nat, slot: Option<Entry>, k: Option<string>, v: Value, h: bv32)
    requires Represents(t, key, val, hash) && i < |t| && Matches(slot, k, v, h)
    ensures Represents(t[i := slot], key[i := k], val[i := v], hash[i := h])
  {
  }

  class Dictionary {
    var n: nat
    var size: nat
    var val: array<Option<string>>
    var key: array<Option<string>>
    var hash: array<bv32>
    // What the arrays stand for.
    ghost var table: Table

    ghost predicate Valid()
      reads this, key, val, hash
    {
      && ArraysDiffer()
      && key.Length == val.Length == hash.Length == size == |table| > 0
      && n == |Items(table)|
      && Represents(table, key[..], val[..], hash[..])
    }

    ghost predicate ArraysDiffer()
      reads this
    {
      key != val && key as object != hash as object && val as object != hash as object
    }

    ghost function Arrays(): set<object>
      reads this
    {
      {key, val, hash}
    }

    /** What the arrays show of slot i. */
    lemma At(i: nat)
      requires Valid() && i < size
      ensures i < key.Length && i < val.Length && i < |table|
      ensures table[i] == if key[i].None? then None else Some(Entry(key[i].value, val[i]))
    {
      assert Matches(table[i], key[i], val[i], hash[i]);
    }

    /** dictionary_new. */
    constructor (size: nat)
      ensures Valid() && fresh(Arrays())
      ensures table == Nones(if size < DICTMINSZ then DICTMINSZ else size)
    {
      var sz := if size < DICTMINSZ then DICTMINSZ else size;
      this.n, this.size := 0, sz;
      val := new Option<string>[sz](_ => None);
      key := new Option<string>[sz](_ => None);
      hash := new bv32[sz](_ => 0);
      table := Nones(sz);
      new;
      ItemsAllEmpty(table);
    }

    /** The scan that get, set and unset share: the hash is compared first, the string only if it
        agrees. It finds what a plain comparison of the strings finds. */
    method FindSlot(k: string) returns (i: nat)
      requires Valid()
      ensures i == Find(table, k)
    {
      hide Items, Hash, Find;
      var h := DictionaryHash(k);
      i := 0;
      while i < size
        invariant 0 <= i <= size
        invariant forall j | 0 <= j < i :: !HasKey(table[j], k)
      {
        assert Matches(table[i], key[i], val[i], hash[i]);
        if key[i].Some? && h == hash[i] && key[i].value == k {
          break;
        }
        i := i + 1;
      }
      FindIs(table, k, i);
    }

    /** dictionary_get: `def` only for an absent key; a present key may have a NULL value. */
    method Get(k: string, def: Value) returns (r: Value)
      requires Valid()
      ensures r == Lookup(table, k).GetOr(def)
    {
      hide Items, Hash;
      var i := FindSlot(k);
      if i < size {
        assert Matches(table[i], key[i], val[i], hash[i]);
        return val[i];
      }
      r := def;
    }

    /** Doubles the three arrays when every slot is occupied. */
    method Grow()
      requires Valid()
      modifies this`size, this`val, this`key, this`hash, this`table
      ensures Valid() && table == Grown(old(table)) && n == old(n)
      ensures size == if old(n) == old(size) then 2 * old(size) else old(size)
      ensures fresh(Arrays() - old(Arrays()))
    {
      hide Items, Represents, Matches, Hash, Grown;
      GrownIs(table);
      if n == size {
        RepresentsGrown(table, key[..], val[..], hash[..]);
        var key', val', hash' := DoubleArrays();
        key, val, hash := key', val', hash';
        size := size * 2;
        table := table + Nones(|table|);
      }
    }

    method DoubleArrays() returns (key': array<Option<string>>, val': array<Option<string>>, hash': array<bv32>)
      ensures fresh(key') && fresh(val') && fresh(hash')
      ensures key' != val' && key' as object != hash' as object && val' as object != hash' as object
      ensures key'[..] == key[..] + Zeros(key.Length, None)
      ensures val'[..] == val[..] + Zeros(val.Length, None)
      ensures hash'[..] == hash[..] + Zeros(hash.Length, 0)
    {
      key' := MemDouble(key, None);
      val' := MemDouble(val, None);
      hash' := MemDouble(hash, 0);
    }

    /** The insertion scan: from slot n on, wrapping around at the end. A free slot exists because
        n < size, and the distance to it along the scan decreases. */
    method FindFree() returns (i: nat)
      requires Valid() && n < size
      ensures i < size && i == FreeSlot(table, n)
    {
      hide Items, Hash, Valid, FreeSlot, Represents;
      Sizes();
      Pigeonhole(table);
      ghost var free := FreeSlot(table, n);
      FreeIsEmpty(table, n);
      ghost var d: nat := 0;
      i := n;
      At(i);
      while key[i].Some?
        invariant i < size && i < key.Length && d < size && i == Cyclic(n, d, size)
        invariant forall e | 0 <= e < d :: Cyclic(n, e, size) != free
        decreases size - d
      {
        At(i);
        if d == size - 1 {
          Visited(free);
        }
        d := d + 1;
        i := i + 1;
        if i == size {
          i := 0;
        }
        At(i);
      }
      At(i);
      FreeSlotIsFirst(table, n, d);
    }

    /** A full turn of the scan visits every slot. */
    lemma Visited(i: nat)
      requires i < size && n < size
      ensures exists d | 0 <= d < size :: Cyclic(n, d, size) == i
    {
      var d := if n <= i then i - n else i + size - n;
      assert Cyclic(n, d, size) == i;
    }

    /** The writes to slot i that set, add and unset make. */
    method Write(i: nat, k: Option<string>, v: Value, h: bv32, ghost slot: Option<Entry>, count: nat)
      requires Valid() && i < size == |table| && Matches(slot, k, v, h)
      requires count == |Items(table[i := slot])|
      modifies this`n, this`table, key, val, hash
      ensures Valid() && table == old(table)[i := slot]
    {
      hide Items;
      RepresentsWritten(table, key[..], val[..], hash[..], i, slot, k, v, h);
      ghost var keys, vals, hashes := key[..][i := k], val[..][i := v], hash[..][i := h];
      hide Represents, Matches;
      key[i] := k;
      val[i] := v;
      hash[i] := h;
      assert key[..] == keys && val[..] == vals && hash[..] == hashes;
      n := count;
      table := table[i := slot];
    }

    lemma Sizes()
      requires Valid()
      ensures size == |table| && table != [] && n == |Items(table)|
    {
    }

    /** The part dictionary_set and dictionary_add share: grow, find a free slot, write it. */
    method Insert(k: string, v: Value)
      requires Valid()
      modifies this, key, val, hash
      ensures old(table) != [] && Valid() && table == AddTo(old(table), k, v)
      ensures fresh(Arrays() - old(Arrays()))
    {
      hide Items, Hash, Grown, FreeSlot, FirstEmpty, Valid, AddTo;
      Sizes();
      GrownHasRoom(table);
      AddCounts(table, k, v);
      AddedSlot(table, k, v);
      var h := DictionaryHash(k);
      Grow();
      Sizes();
      var i := FindFree();
      Write(i, Some(k), v, h, Some(Entry(k, v)), n + 1);
    }

    /** dictionary_set. */
    method Set(k: string, v: Value) returns (r: int)
      requires Valid()
      modifies this, key, val, hash
      ensures old(table) != [] && Valid() && table == SetIn(old(table), k, v) && r == 0
      ensures fresh(Arrays() - old(Arrays()))
    {
      hide Items, Hash, AddTo, Find, Valid, Represents;
      Sizes();
      SetCounts(table, k, v);
      NothingFound(k);
      if n > 0 {
        var i := FindSlot(k);
        if i < size {
          SlotAt(i);
          hide Matches;
          Write(i, key[i], v, hash[i], Some(Entry(k, v)), n);
          return 0;
        }
      }
      Insert(k, v);
      r := 0;
    }

    /** Replacing the value in slot i keeps its key and hash right. */
    lemma SlotAt(i: nat)
      requires Valid() && i < size
      ensures i < |table| && i < key.Length && i < hash.Length
      ensures forall k, v: Value | HasKey(table[i], k) :: Matches(Some(Entry(k, v)), key[i], v, hash[i])
    {
      assert Matches(table[i], key[i], val[i], hash[i]);
    }

    lemma NothingFound(k: string)
      requires Valid()
      ensures n == 0 ==> Find(table, k) == size
    {
      var i := Find(table, k);
      if i < size {
        ItemsSet(table, i, None);
      }
    }

    /** dictionary_add: an error for a NULL value, otherwise an entry even if the key is present. */
    method Add(k: string, v: Value) returns (r: int)
      requires Valid()
      modifies this, key, val, hash
      ensures Valid() && r == (if v == None then -1 else 0)
      ensures table == (if v == None then old(table) else AddTo(old(table), k, v))
      ensures fresh(Arrays() - old(Arrays()))
    {
      if v == None {
        return -1;
      }
      Insert(k, v);
      r := 0;
    }

    /** dictionary_unset. */
    method Unset(k: string)
      requires Valid()
      modifies this, key, val, hash
      ensures Valid() && table == UnsetIn(old(table), k)
      ensures Arrays() == old(Arrays())
    {
      UnsetCounts(table, k);
      hide Items, Hash, Find;
      var i := FindSlot(k);
      if i >= size {
        return;
      }
      Write(i, None, None, 0, None, n - 1);
    }
  }
}
