/** ptrlist-impl.h: the slot allocator under every registry and worker list. */
module PtrLists {
  import opened Wrappers
  import opened Slots

  const DEFAULT_BLOCKSIZE: nat := 8

  // ----- what the operations do to the slots -----

  function Grown<T>(s: seq<Option<T>>, blocksize: nat): seq<Option<T>> {
    if |Items(s)| + 1 > |s| then s + Nones(blocksize) else s
  }

  /** After the growth check there is an empty slot: the path after the scan is unreachable. */
  lemma {:induction false} GrownHasRoom<T>(s: seq<Option<T>>, blocksize: nat)
    requires blocksize > 0
    ensures FirstEmpty(Grown(s, blocksize), 0) < |Grown(s, blocksize)|
    ensures Items(Grown(s, blocksize)) == Items(s)
  {
    ItemsGrown(s, blocksize);
    Pigeonhole(Grown(s, blocksize));
  }

  function Added<T>(s: seq<Option<T>>, blocksize: nat, x: T): seq<Option<T>>
    requires blocksize > 0
  {
    GrownHasRoom(s, blocksize);
    Grown(s, blocksize)[FirstEmpty(Grown(s, blocksize), 0) := Some(x)]
  }

  /** The first slot that holds x, or |s|. */
  function IndexOf<T(==)>(s: seq<Option<T>>, x: T): (i: nat)
    ensures i <= |s| && (i < |s| ==> s[i] == Some(x))
    ensures forall j | 0 <= j < i :: s[j] != Some(x)
  {
    if s == [] || s[0] == Some(x) then 0 else IndexOf(s[1..], x) + 1
  }

  function Removed<T(==)>(s: seq<Option<T>>, x: T): seq<Option<T>> {
    if IndexOf(s, x) < |s| then s[IndexOf(s, x) := None] else s
  }

  // ----- the list is a multiset -----

  lemma {:induction false} AddedItems<T>(s: seq<Option<T>>, blocksize: nat, x: T)
    requires blocksize > 0
    ensures multiset(Items(Added(s, blocksize, x))) == multiset(Items(s)) + multiset{x}
    ensures |Items(Added(s, blocksize, x))| == |Items(s)| + 1
  {
    hide Items, Grown;
    GrownHasRoom(s, blocksize);
    var g := Grown(s, blocksize);
    var i := FirstEmpty(g, 0);
    ItemsSet(g, i, Some(x));
    hide FirstEmpty, Added;
    assert Added(s, blocksize, x) == g[i := Some(x)];
    var a, b := Items(g[..i]), Items(g[i + 1..]);
    assert Items(s) == a + [] + b == a + b;
    assert multiset(a + [x] + b) == multiset(a) + multiset{x} + multiset(b);
  }

  lemma {:induction false} AddedLength<T>(s: seq<Option<T>>, blocksize: nat, x: T)
    requires blocksize > 0 && |s| % blocksize == 0
    ensures |Added(s, blocksize, x)| % blocksize == 0
  {
    hide Items, FirstEmpty;
    GrownHasRoom(s, blocksize);
    if |Items(s)| + 1 > |s| {
      AddDivisor(|s|, blocksize);
    }
  }

  lemma AddDivisor(n: nat, d: nat)
    requires d > 0 && n % d == 0
    ensures (n + d) % d == 0
  {
    var q := n / d;
    assert n + d == (q + 1) * d;
    MultipleMod(q + 1, d);
  }

  lemma MultipleMod(q: nat, d: nat)
    requires d > 0
    ensures (q * d) % d == 0
  {
    var p, r := (q * d) / d, (q * d) % d;
    assert (q - p) * d == r;
    MultipleBeyond(q - p, d);
  }

  lemma MultipleBeyond(k: int, d: nat)
    ensures (k >= 1 ==> k * d >= d) && (k <= -1 ==> k * d + d <= 0)
  {
    if k >= 1 {
      assert k * d == d + (k - 1) * d;
    } else if k <= -1 {
      assert k * d + d == (k + 1) * d;
    }
  }

  lemma {:induction false} RemovedLength<T>(s: seq<Option<T>>, x: T)
    ensures |Removed(s, x)| == |s|
  {
    hide IndexOf;
  }

  /** In an add-only list the entries stay in front, in the order they were added. */
  lemma {:induction false} AddedPacked<T>(s: seq<Option<T>>, blocksize: nat, x: T)
    requires blocksize > 0 && Packed(s)
    ensures Packed(Added(s, blocksize, x)) && Items(Added(s, blocksize, x)) == Items(s) + [x]
  {
    hide Items;
    GrownHasRoom(s, blocksize);
    var g := Grown(s, blocksize);
    var i := FirstEmpty(g, 0);
    hide FirstEmpty, Grown;
    assert Packed(g);
    ItemsSet(g, i, Some(x));
    ItemsAllEmpty(g[i + 1..]);
    assert Added(s, blocksize, x) == g[i := Some(x)];
    hide Added;
    assert Items(g[..i]) + [] + [] == Items(g[..i]);
    assert Items(g[..i]) + [x] + [] == Items(g[..i]) + [x];
  }

  lemma {:induction false} RemovedItems<T>(s: seq<Option<T>>, x: T)
    ensures multiset(Items(Removed(s, x))) == multiset(Items(s)) - multiset{x}
    ensures IndexOf(s, x) < |s| <==> x in Items(s)
    ensures |Items(Removed(s, x))| == |Items(s)| - (if x in Items(s) then 1 else 0)
  {
    hide Items;
    var i := IndexOf(s, x);
    ItemAt(s, x);
    if i < |s| {
      ItemsSet(s, i, None);
      hide IndexOf;
      var a, b := Items(s[..i]), Items(s[i + 1..]);
      assert Items(s) == a + [x] + b;
      assert a + [] == a;
      assert Removed(s, x) == s[i := None];
      hide Removed, One;
      assert Items(Removed(s, x)) == a + b;
      assert multiset(a + [x] + b) == multiset(a) + multiset{x} + multiset(b);
    }
  }

  datatype Op<T> = Add(item: T) | Remove(item: T)

  function Performed<T(==)>(s: seq<Option<T>>, blocksize: nat, op: Op<T>): seq<Option<T>>
    requires blocksize > 0
  {
    match op
    case Add(x) => Added(s, blocksize, x)
    case Remove(x) => Removed(s, x)
  }

  function History<T(==)>(ops: seq<Op<T>>, blocksize: nat): seq<Option<T>>
    requires blocksize > 0
  {
    if ops == [] then [] else Performed(History(ops[..|ops| - 1], blocksize), blocksize, ops[|ops| - 1])
  }

  function Contents<T(==)>(ops: seq<Op<T>>): multiset<T> {
    if ops == [] then multiset{}
    else
      var before := Contents(ops[..|ops| - 1]);
      match ops[|ops| - 1]
      case Add(x) => before + multiset{x}
      case Remove(x) => before - multiset{x}
  }

  /** Over every history of adds and removes, the slots hold the multiset the history describes,
      and the allocation stays a multiple of the block size. */
  lemma {:induction false} HistoryIsMultiset<T>(ops: seq<Op<T>>, blocksize: nat)
    requires blocksize > 0
    ensures multiset(Items(History(ops, blocksize))) == Contents(ops)
    ensures |Items(History(ops, blocksize))| == |Contents(ops)|
    ensures |History(ops, blocksize)| % blocksize == 0
  {
    hide Items, Added, Removed, IndexOf;
    if ops != [] {
      var before := ops[..|ops| - 1];
      var s := History(before, blocksize);
      HistoryIsMultiset(before, blocksize);
      match ops[|ops| - 1] {
        case Add(x) =>
          AddedItems(s, blocksize, x);
          AddedLength(s, blocksize, x);
        case Remove(x) =>
          RemovedItems(s, x);
          RemovedLength(s, x);
      }
    }
  }

  // ----- the list as a structure updated in place -----

  class PtrList<T(==)> {
    var list: array<Option<T>>
    var count: nat
    var blocksize: nat
    // The source calls this `allocated`, a reserved word here.
    var alloc: nat

    ghost predicate Valid()
      reads this, list
    {
      && list.Length == alloc
      && count == |Items(list[..])|
    }

    /** `init`; a block size of 0 asks for the default. */
    constructor (blocksize: nat)
      ensures Valid() && fresh(list) && list[..] == []
      ensures this.blocksize == if blocksize == 0 then DEFAULT_BLOCKSIZE else blocksize
    {
      list := new Option<T>[0];
      count, alloc := 0, 0;
      this.blocksize := if blocksize == 0 then DEFAULT_BLOCKSIZE else blocksize;
    }

    /** The growth branch of add_unlocked: realloc, then NULL into the new slots. */
    method Grow()
      requires list.Length == alloc
      modifies this`list, this`alloc
      ensures list.Length == alloc && fresh(list)
      ensures list[..] == old(list[..]) + Nones(blocksize)
    {
      var p := new Option<T>[alloc + blocksize](_ => None);
      forall i | 0 <= i < alloc {
        p[i] := list[i];
      }
      list := p;
      alloc := alloc + blocksize;
    }

    /** add_unlocked: -1 only for a list that was never initialised. */
    method AddUnlocked(item: T) returns (r: int)
      requires Valid()
      modifies this, list
      ensures Valid() && blocksize == old(blocksize)
      ensures list == old(list) || fresh(list)
      ensures r == (if blocksize == 0 then -1 else 0)
      ensures list[..] == (if blocksize == 0 then old(list[..]) else Added(old(list[..]), blocksize, item))
      ensures alloc == old(alloc) + if old(count) == old(alloc) then blocksize else 0
    {
      hide Items, FirstEmpty, IndexOf;
      if blocksize == 0 {
        return -1;
      }
      GrownHasRoom(list[..], blocksize);
      AddedItems(list[..], blocksize, item);
      if count + 1 > alloc {
        Grow();
      }
      ghost var g := list[..];
      assert g == Grown(old(list[..]), blocksize);
      var c := 0;
      while c < alloc
        invariant 0 <= c <= FirstEmpty(g, 0)
        invariant list[..] == g
      {
        if list[c].None? {
          list[c] := Some(item);
          count := count + 1;
          return 0;
        }
        c := c + 1;
      }
      assert false;
    }

    /** remove_unlocked: -1 when no slot holds the item. */
    method RemoveUnlocked(item: T) returns (r: int)
      requires Valid()
      modifies this, list
      ensures Valid() && list == old(list) && blocksize == old(blocksize)
      ensures r == (if item in Items(old(list[..])) then 0 else -1)
      ensures list[..] == Removed(old(list[..]), item)
    {
      hide Items, FirstEmpty, IndexOf;
      ghost var s := list[..];
      RemovedItems(s, item);
      var c := 0;
      while c < alloc
        invariant 0 <= c <= IndexOf(s, item)
        invariant list[..] == s
      {
        if list[c] == Some(item) {
          list[c] := None;
          assert list[..] == s[c := None];
          count := count - 1;
          return 0;
        }
        c := c + 1;
      }
      r := -1;
    }
  }
}
