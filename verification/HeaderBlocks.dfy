/** What the header block says: each stored value once, and when it is complete. */
module HeaderBlocks {
  import opened Wrappers
  import opened CStrings
  import opened Headers
  import opened Responses
  import opened ResponseRuns

  // ----- each value once -----

  /** The values of the lines with this name, in order, whatever the case of the name. */
  function LinesFor(lines: seq<Line>, name: string): seq<string> {
    if lines == [] then []
    else (if Lower(lines[0].name) == Lower(name) then [lines[0].value] else []) + LinesFor(lines[1..], name)
  }

  lemma {:induction false} LinesForAppend(a: seq<Line>, b: seq<Line>, name: string)
    ensures LinesFor(a + b, name) == LinesFor(a, name) + LinesFor(b, name)
  {
    hide Lower;
    if a == [] {
      assert a + b == b;
    } else {
      assert (a + b)[0] == a[0] && (a + b)[1..] == a[1..] + b;
      LinesForAppend(a[1..], b, name);
    }
  }

  lemma {:induction false} LinesForHeader(h: Header, vi: nat, name: string)
    requires vi <= |h.values|
    ensures LinesFor(HeaderLines(h, vi), name) == if Lower(h.name) == Lower(name) then h.values[vi..] else []
    decreases |h.values| - vi
  {
    hide Lower;
    if vi < |h.values| {
      LinesForHeader(h, vi + 1, name);
      assert HeaderLines(h, vi)[1..] == HeaderLines(h, vi + 1);
      assert h.values[vi..] == [h.values[vi]] + h.values[vi + 1..];
    }
  }

  lemma LowerIsNotInternal(name: string)
    ensures !IsInternal(Lower(name)) && Lower(name) != STATUS_KEY
  {
    if name != "" {
      assert Lower(name)[0] == ToLower(name[0]);
    }
  }

  /** A listed header has its values among the lines exactly once, in order. */
  lemma {:induction false} LinesForName(h: Headers, keys: seq<string>, name: string)
    requires Sound(h) && forall i | 0 <= i < |keys| :: keys[i] in h.entries || keys[i] == STATUS_KEY
    requires forall i, j | 0 <= i < j < |keys| :: keys[i] != keys[j]
    ensures LinesFor(AllLines(h, keys), name) == if Lower(name) in keys then ValuesOf(h, name) else []
    decreases |keys|
  {
    hide Lower, StatusOf, LinesFor, IsInternal, HeaderLines;
    LowerIsNotInternal(name);
    if keys == [] {
      NoLinesFor(name);
    } else {
      var key, rest := keys[0], keys[1..];
      assert forall i | 0 <= i < |rest| :: rest[i] == keys[i + 1];
      LinesForName(h, rest, name);
      assert keys == [key] + rest;
      if IsInternal(key) {
        assert [] + AllLines(h, rest) == AllLines(h, rest);
      } else {
        StatusKeyIsInternal();
        var header := HeaderAt(h, key);
        LinesForAppend(HeaderLines(header, 0), AllLines(h, rest), name);
        LinesForHeader(header, 0, name);
        assert header.values[0..] == header.values;
      }
    }
  }

  lemma NoLinesFor(name: string)
    ensures LinesFor([], name) == []
  {
  }

  lemma StatusKeyIsInternal()
    ensures IsInternal(STATUS_KEY)
  {
  }

  /** Whatever the order of the listing: for every name, the lines carry exactly the values stored
      under it, in order; in particular there is one status line, and its leading number is the
      cached status. */
  lemma {:induction false} EachValueOnce(h: Headers, keys: seq<string>, name: string)
    requires Sound(h) && IsListing(keys, h)
    ensures LinesFor(AllLines(h, keys), name) == ValuesOf(h, name)
    ensures |LinesFor(AllLines(h, keys), STATUS)| == 1
    ensures StatusOf(LinesFor(AllLines(h, keys), STATUS)[0]) == Some(h.status)
  {
    hide Lower, StatusOf, LinesFor, AllLines;
    assert forall i | 0 <= i < |keys| :: keys[i] in keys;
    LinesForName(h, keys, name);
    LinesForName(h, keys, STATUS);
    assert Lower(STATUS) == STATUS by {
      StatusIsLower();
    }
  }

  lemma StatusIsLower()
    ensures Lower(STATUS) == STATUS
  {
  }

  // ----- complete or nothing -----

  lemma {:induction false} LinesTextLength(lines: seq<Line>)
    ensures |LinesText(lines)| >= |lines|
  {
    if lines != [] {
      LinesTextLength(lines[1..]);
    }
  }

  /** The first write puts out all lines, or none: none iff r happens to start as -2 and the header
      listed first has no values. */
  lemma {:induction false} BlockIsComplete(h: Headers, keys: seq<string>, r0: int)
    requires Sound(h) && IsListing(keys, h)
    ensures Block(h, keys, r0) == LinesText(AllLines(h, keys)) + "\n" <==> !(r0 == -2 && FirstIsEmpty(h, keys))
    ensures r0 == -2 && FirstIsEmpty(h, keys) ==> Block(h, keys, r0) == "\n"
  {
    hide Sound, SendKeys, AllLines, FirstIsEmpty, IsListing, StatusOf, LinesFor, Lower;
    KeysSent(h, keys, Sending([], r0), Always0());
    var lines := AllLines(h, keys);
    assert [] + lines == lines && lines[..0] == [];
    EachValueOnce(h, keys, STATUS);
    LinesTextLength(lines);
    assert lines != [] by {
      NoLinesFor(STATUS);
    }
    assert |LinesText(lines) + "\n"| > 1;
  }

  lemma {:induction false} ResetEntries()
    ensures var h := SetHeader(Initial(), "Content-Type", None, true).headers;
      && h.entries.Keys == {STATUS, "content-type"} && "content-type" != STATUS
      && h.entries["content-type"].values == []
  {
    InitialNames();
    hide StatusOf, Lower;
    var none: seq<string> := [];
    assert none + none == none;
  }

  lemma ListingOfTwo(h: Headers, a: string, b: string)
    requires h.entries.Keys == {a, b} && a != b && a != STATUS_KEY && b != STATUS_KEY && !IsInternal(a)
    ensures IsListing([a, b, STATUS_KEY], h)
    ensures h.entries[a].values == [] ==> FirstIsEmpty(h, [a, b, STATUS_KEY])
  {
  }

  lemma InitialKeysDiffer()
    ensures "content-type" != STATUS && "content-type" != STATUS_KEY && STATUS != STATUS_KEY
    ensures !IsInternal("content-type")
  {
  }

  lemma {:induction false} ResetHeaders()
    ensures var h := SetHeader(Initial(), "Content-Type", None, true).headers;
      && Sound(h) && FirstIsEmpty(h, ["content-type", STATUS, STATUS_KEY])
      && IsListing(["content-type", STATUS, STATUS_KEY], h)
  {
    hide Sound, SetHeader, Initial, FirstIsEmpty, IsListing;
    InitialSound();
    SetKeepsSound(Initial(), "Content-Type", None, true);
    ResetEntries();
    InitialKeysDiffer();
    ListingOfTwo(SetHeader(Initial(), "Content-Type", None, true).headers, "content-type", STATUS);
  }

  /** The failing case is reachable: one header is reset, jd_keys happens to list it first, and r
      happens to start as -2. Then not even the status is sent. */
  lemma {:induction false} BlockCanVanish()
    ensures var keys := ["content-type", STATUS, STATUS_KEY];
      var ops := [Set("Content-Type", None, true), Write("", 0, keys, -2)];
      IsRun(ops) && After(ops).out == "\n"
  {
    hide Sound, SetHeader, Initial, IsListing, FirstIsEmpty, Block;
    var keys := ["content-type", STATUS, STATUS_KEY];
    var first, second := Set("Content-Type", None, true), Write("", 0, keys, -2);
    ResetHeaders();
    var h := SetHeader(Initial(), "Content-Type", None, true).headers;
    BlockIsComplete(h, keys, -2);
    assert [first][..0] == [] && [first, second][..1] == [first];
    assert IsRun([]) && After([]) == FRESH;
    assert IsRun([first]);
    assert After([first]) == Response(h, false, 0, "");
    assert IsRun([first, second]);
    assert "" + "\n" + "" == "\n";
  }

  /** No header has been reset to NULL. */
  predicate AllFilled(h: Headers) {
    forall key | key in h.entries :: h.entries[key].values != []
  }

  lemma {:induction false} FilledHasNoEmptyFirst(h: Headers, keys: seq<string>)
    requires AllFilled(h) && forall i | 0 <= i < |keys| :: keys[i] in h.entries || keys[i] == STATUS_KEY
    ensures !FirstIsEmpty(h, keys)
  {
    if keys != [] {
      assert forall i | 0 <= i < |keys[1..]| :: keys[1..][i] == keys[i + 1];
      FilledHasNoEmptyFirst(h, keys[1..]);
    }
  }

  /** A handler that never sets a header to NULL has all headers filled. */
  lemma {:induction false} NeverReset(ops: seq<Op>)
    requires IsRun(ops) && forall i | 0 <= i < |ops| && ops[i].Set? :: ops[i].value.Some?
    ensures AllFilled(After(ops).headers)
  {
    hide StatusOf, Lower, Block, IsListing;
    if ops != [] {
      var before, op := ops[..|ops| - 1], ops[|ops| - 1];
      ShapeStep(ops);
      assert forall i | 0 <= i < |before| :: before[i] == ops[i];
      NeverReset(before);
      hide IsRun, After;
      if op.Set? {
        SetFilled(After(before).headers, op.name, op.value, op.replace);
      }
    }
  }

  lemma {:induction false} SetFilled(h: Headers, name: string, value: Option<string>, replace: bool)
    requires AllFilled(h) && value.Some?
    ensures AllFilled(SetHeader(h, name, value, replace).headers)
  {
    hide StatusOf, Lower;
  }

  // ----- the values, told by the run -----

  /** The values a run gives a name: what was accepted since the last replacement. */
  function Given(ops: seq<Op>, name: string): seq<string> {
    if ops == [] then
      if Lower(name) == "status" then ["200 OK"] else if Lower(name) == "content-type" then ["text/html"] else []
    else
      var before := Given(ops[..|ops| - 1], name);
      match ops[|ops| - 1]
      case Write(_, _, _, _) => before
      case Set(n, value, replace) =>
        if Lower(n) != Lower(name) || !Accepted(n, value, replace) then before
        else (if replace then [] else before) + (if value.Some? then [value.value] else [])
  }

  /** Until the first write, the values under any name, the status included, are those the run gives
      it. */
  lemma {:induction false} ValuesOfRun(ops: seq<Op>, name: string)
    requires IsRun(ops) && FirstWrite(ops) == |ops|
    ensures ValuesOf(After(ops).headers, name) == Given(ops, name)
  {
    hide StatusOf, Lower, Initial, ValuesOf, SetHeader, Accepted;
    if ops != [] {
      var before, op := ops[..|ops| - 1], ops[|ops| - 1];
      ShapeStep(ops);
      NoWrites(ops);
      FirstWriteNone(before);
      OutputOfRun(before);
      hide IsRun, After, FirstWrite;
      ValuesOfRun(before, name);
      var h := After(before).headers;
      ValuesAfterSet(h, op.name, op.value, op.replace, name);
      RefusedIff(h, op.name, op.value, op.replace);
      SameValues(h, op.name, name);
    } else {
      InitialValues(name);
    }
  }

  lemma InitialValues(name: string)
    ensures ValuesOf(Initial(), name) == Given([], name)
  {
    hide Lower;
  }

  lemma {:induction false} FirstWriteNone(ops: seq<Op>)
    requires forall i | 0 <= i < |ops| :: ops[i].Set?
    ensures FirstWrite(ops) == |ops|
  {
  }

  lemma SameValues(h: Headers, name: string, other: string)
    ensures Lower(name) == Lower(other) ==> ValuesOf(h, name) == ValuesOf(h, other)
  {
  }

  /** The response of every run that writes, unless r happens to start as -2 and the header listed
      first has been reset: the lines, a newline and the bodies; among the lines each value given
      before the first write once, and one status line whose leading number is the status. */
  lemma {:induction false} ResponseOfRun(ops: seq<Op>, name: string)
    requires IsRun(ops) && FirstWrite(ops) < |ops|
    requires !(ops[FirstWrite(ops)].r0 == -2 && FirstIsEmpty(After(ops).headers, ops[FirstWrite(ops)].keys))
    ensures forall i | 0 <= i < |ops| && ops[i].Write? :: ops[i].taken <= |ops[i].buf|
    ensures var r, i := After(ops), FirstWrite(ops);
      var lines := AllLines(r.headers, ops[i].keys);
      && r.out == LinesText(lines) + "\n" + Bodies(ops)
      && r.wbytes == |r.out|
      && LinesFor(lines, name) == Given(ops[..i], name)
      && |LinesFor(lines, STATUS)| == 1
      && StatusOf(LinesFor(lines, STATUS)[0]) == Some(r.headers.status)
      && 100 <= r.headers.status <= 999
  {
    hide Sound, Lower, StatusOf, SetHeader, LinesFor, LinesText, Block, AllLines, Given, Bodies, ValuesOf, FirstIsEmpty;
    var i := FirstWrite(ops);
    var start := ops[..i];
    PrefixIsRun(ops, i);
    AlwaysSound(start);
    OutputOfRun(ops);
    ListedAtWrite(ops, i);
    FirstWriteNone(start);
    hide IsRun, After, FirstWrite;
    var h, keys := After(start).headers, ops[i].keys;
    BlockIsComplete(h, keys, ops[i].r0);
    EachValueOnce(h, keys, name);
    ValuesOfRun(start, name);
  }

  /** In particular the response is whole if no header was reset before the first write. */
  lemma {:induction false} NoResetIsComplete(ops: seq<Op>)
    requires IsRun(ops) && FirstWrite(ops) < |ops|
    requires forall i | 0 <= i < FirstWrite(ops) :: ops[i].value.Some?
    ensures !FirstIsEmpty(After(ops).headers, ops[FirstWrite(ops)].keys)
  {
    hide FirstIsEmpty, AllFilled, SetHeader, StatusOf, Lower;
    var i := FirstWrite(ops);
    var start := ops[..i];
    PrefixIsRun(ops, i);
    OutputOfRun(ops);
    ListedAtWrite(ops, i);
    NeverReset(start);
    hide IsRun, After, FirstWrite;
    FilledHasNoEmptyFirst(After(start).headers, ops[i].keys);
  }

  lemma {:induction false} ListedAtWrite(ops: seq<Op>, i: nat)
    requires IsRun(ops) && i < |ops| && ops[i].Write?
    ensures IsRun(ops[..i]) && IsListing(ops[i].keys, After(ops[..i]).headers)
  {
    hide After, IsListing;
    PrefixIsRun(ops, i + 1);
    PrefixIsRun(ops, i);
    assert ops[..i + 1][..i] == ops[..i];
    ShapeStep(ops[..i + 1]);
  }
}
