/** Sequences of nullable slots: what the lists of ptrlist-impl.h and the dictionary tables share. */
module Slots {
  import opened Wrappers

  /** The occupied slots, in slot order. */
  function Items<T>(s: seq<Option<T>>): (r: seq<T>)
    ensures |r| <= |s|
  {
    if s == [] then [] else One(s[0]) + Items(s[1..])
  }

  function One<T>(x: Option<T>): (r: seq<T>)
    ensures |r| <= 1
  {
    if x.Some? then [x.value] else []
  }

  /** The first empty slot at or after `from`, or |s|. */
  function FirstEmpty<T>(s: seq<Option<T>>, from: nat): (i: nat)
    requires from <= |s|
    ensures from <= i <= |s| && (i < |s| ==> s[i].None?)
    ensures forall j | from <= j < i :: s[j].Some?
    decreases |s| - from
  {
    if from == |s| || s[from].None? then from else FirstEmpty(s, from + 1)
  }

  /** Occupied slots come first. */
  predicate Packed<T>(s: seq<Option<T>>) {
    forall i, j | 0 <= i < j < |s| :: s[j].Some? ==> s[i].Some?
  }

  lemma {:induction false} ItemsCons<T>(x: Option<T>, s: seq<Option<T>>)
    ensures Items([x] + s) == One(x) + Items(s)
  {
    assert ([x] + s)[1..] == s;
  }

  lemma {:induction false} ItemsAppend<T>(a: seq<Option<T>>, b: seq<Option<T>>)
    ensures Items(a + b) == Items(a) + Items(b)
  {
    if a == [] {
      assert a + b == b;
    } else {
      hide Items, One;
      var x, rest := a[0], a[1..];
      assert a == [x] + rest;
      assert a + b == [x] + (rest + b);
      ItemsAppend(rest, b);
      ItemsCons(x, rest);
      ItemsCons(x, rest + b);
    }
  }

  lemma {:induction false} ItemsAround<T>(s: seq<Option<T>>, i: nat)
    requires i < |s|
    ensures Items(s) == Items(s[..i]) + Items([s[i]]) + Items(s[i + 1..])
  {
    hide Items;
    var rest := [s[i]] + s[i + 1..];
    assert s == s[..i] + rest;
    ItemsAppend(s[..i], rest);
    ItemsAppend([s[i]], s[i + 1..]);
  }

  /** One more slot adds its item, if any. */
  lemma {:induction false} ItemsPrefix<T>(s: seq<Option<T>>, i: nat)
    requires i < |s|
    ensures Items(s[..i + 1]) == Items(s[..i]) + One(s[i])
  {
    hide Items;
    assert s[..i + 1] == s[..i] + [s[i]];
    ItemsAppend(s[..i], [s[i]]);
    ItemsOfOne(s[i]);
  }

  lemma {:induction false} ItemsOfOne<T>(x: Option<T>)
    ensures Items([x]) == One(x)
  {
  }

  /** Writing x into slot i puts it between the items before and the items after. */
  lemma {:induction false} ItemsSet<T>(s: seq<Option<T>>, i: nat, x: Option<T>)
    requires i < |s|
    ensures Items(s) == Items(s[..i]) + One(s[i]) + Items(s[i + 1..])
    ensures Items(s[i := x]) == Items(s[..i]) + One(x) + Items(s[i + 1..])
  {
    hide Items;
    var s' := s[i := x];
    ItemsAround(s, i);
    ItemsOfOne(s[i]);
    ItemsAround(s', i);
    ItemsOfOne(x);
    assert s'[..i] == s[..i] && s'[i + 1..] == s[i + 1..];
  }

  lemma {:induction false} ItemsAllEmpty<T>(s: seq<Option<T>>)
    requires forall i | 0 <= i < |s| :: s[i].None?
    ensures Items(s) == []
  {
    if s != [] {
      ItemsAllEmpty(s[1..]);
    }
  }

  lemma {:induction false} ItemsAllFull<T>(s: seq<Option<T>>)
    requires forall i | 0 <= i < |s| :: s[i].Some?
    ensures |Items(s)| == |s| && forall i | 0 <= i < |s| :: Items(s)[i] == s[i].value
  {
    if s != [] {
      ItemsAllFull(s[1..]);
      forall i | 0 <= i < |s| ensures Items(s)[i] == s[i].value {
        if i > 0 {
          assert s[i] == s[1..][i - 1];
        }
      }
    }
  }

  /** Growing by empty slots adds nothing. */
  lemma {:induction false} ItemsGrown<T>(s: seq<Option<T>>, n: nat)
    ensures Items(s + Nones(n)) == Items(s)
  {
    ItemsAppend(s, Nones<T>(n));
    ItemsAllEmpty(Nones<T>(n));
  }

  function Nones<T>(n: nat): (r: seq<Option<T>>)
    ensures |r| == n && forall i | 0 <= i < n :: r[i] == None
  {
    seq(n, _ => None)
  }

  /** Fewer items than slots: some slot is empty. */
  lemma {:induction false} Pigeonhole<T>(s: seq<Option<T>>)
    requires |Items(s)| < |s|
    ensures exists i :: 0 <= i < |s| && s[i].None?
  {
    if forall i | 0 <= i < |s| :: s[i].Some? {
      ItemsAllFull(s);
    }
  }

  /** A packed sequence is full up to its first empty slot and empty from there on. */
  lemma {:induction false} PackedSplit<T>(s: seq<Option<T>>)
    requires Packed(s)
    ensures forall i | 0 <= i < |s| :: s[i].Some? <==> i < FirstEmpty(s, 0)
  {
  }

  lemma {:induction false} ItemsOfSplit<T>(s: seq<Option<T>>, n: nat)
    requires n <= |s| && forall i | 0 <= i < |s| :: s[i].Some? <==> i < n
    ensures |Items(s)| == n && forall i | 0 <= i < n :: s[i] == Some(Items(s)[i])
  {
    hide Items;
    var a, b := s[..n], s[n..];
    assert s == a + b;
    ItemsAppend(a, b);
    ItemsAllFull(a);
    ItemsAllEmpty(b);
    assert Items(a) + [] == Items(a);
  }

  /** In a packed sequence the items occupy exactly the first slots, in order. */
  lemma {:induction false} PackedItems<T>(s: seq<Option<T>>)
    requires Packed(s)
    ensures forall i | 0 <= i < |s| :: s[i] == if i < |Items(s)| then Some(Items(s)[i]) else None
  {
    hide Items, FirstEmpty;
    PackedSplit(s);
    ItemsOfSplit(s, FirstEmpty(s, 0));
  }

  lemma {:induction false} ItemAt<T>(s: seq<Option<T>>, x: T)
    ensures x in Items(s) <==> exists i :: 0 <= i < |s| && s[i] == Some(x)
  {
    if s != [] {
      ItemAt(s[1..], x);
      if i :| 0 <= i < |s| && s[i] == Some(x) {
        assert i > 0 ==> s[1..][i - 1] == Some(x);
      }
      if x in Items(s[1..]) {
        var j :| 0 <= j < |s[1..]| && s[1..][j] == Some(x);
        assert s[j + 1] == Some(x);
      }
    }
  }
}
