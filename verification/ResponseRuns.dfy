/** What every run of a handler makes of its response. */
module ResponseRuns {
  import opened CStrings
  import opened Headers
  import opened Responses

  // ----- runs -----

  /** Every step is one the listing of the headers and the stream allow. */
  predicate IsRun(ops: seq<Op>)
    decreases |ops|, 0
  {
    ops != [] ==> IsRun(ops[..|ops| - 1]) && Possible(After(ops[..|ops| - 1]).headers, ops[|ops| - 1])
  }

  function After(ops: seq<Op>): Response
    requires IsRun(ops)
    decreases |ops|, 1
  {
    if ops == [] then FRESH else Next(After(ops[..|ops| - 1]), ops[|ops| - 1])
  }

  /** The index of the first write, or |ops|. */
  function FirstWrite(ops: seq<Op>): (i: nat)
    ensures i <= |ops| && (i < |ops| ==> ops[i].Write?) && forall j | 0 <= j < i :: ops[j].Set?
  {
    if ops == [] || ops[0].Write? then 0 else FirstWrite(ops[1..]) + 1
  }

  lemma {:induction false} FirstWriteSnoc(ops: seq<Op>, op: Op)
    ensures FirstWrite(ops + [op]) ==
      if FirstWrite(ops) < |ops| then FirstWrite(ops) else if op.Write? then |ops| else |ops| + 1
  {
    var i, i' := FirstWrite(ops), FirstWrite(ops + [op]);
    assert forall j | 0 <= j < |ops| :: (ops + [op])[j] == ops[j];
    assert (ops + [op])[|ops|] == op;
    assert i < |ops| ==> (ops + [op])[i].Write?;
  }

  lemma {:induction false} PrefixIsRun(ops: seq<Op>, i: nat)
    requires IsRun(ops) && i <= |ops|
    ensures IsRun(ops[..i])
    decreases |ops|
  {
    if i < |ops| {
      PrefixIsRun(ops[..|ops| - 1], i);
      assert ops[..|ops| - 1][..i] == ops[..i];
    } else {
      assert ops[..i] == ops;
    }
  }

  /** The bodies the stream has taken, in order. */
  function Bodies(ops: seq<Op>): string
    requires forall i | 0 <= i < |ops| && ops[i].Write? :: ops[i].taken <= |ops[i].buf|
  {
    if ops == [] then "" else Bodies(ops[..|ops| - 1]) + Body(ops[|ops| - 1])
  }

  lemma {:induction false} TakenIsGiven(ops: seq<Op>)
    requires IsRun(ops)
    ensures forall i | 0 <= i < |ops| && ops[i].Write? :: ops[i].taken <= |ops[i].buf|
  {
    if ops != [] {
      TakenIsGiven(ops[..|ops| - 1]);
      assert forall i | 0 <= i < |ops| - 1 :: ops[i] == ops[..|ops| - 1][i];
    }
  }

  /** In every run there is exactly one status value, and its leading number is the cached status. */
  lemma {:induction false} AlwaysSound(ops: seq<Op>)
    requires IsRun(ops)
    ensures Sound(After(ops).headers) && 100 <= After(ops).headers.status <= 999
  {
    hide SetHeader, StatusOf, Initial, Lower;
    if ops == [] {
      InitialSound();
    } else {
      AlwaysSound(ops[..|ops| - 1]);
      var before := After(ops[..|ops| - 1]);
      match ops[|ops| - 1]
      case Set(name, value, replace) =>
        SetKeepsSound(before.headers, name, value, replace);
      case Write(_, _, _, _) =>
    }
    StatusInRange(After(ops).headers);
  }

  lemma {:induction false} StatusInRange(h: Headers)
    requires Sound(h)
    ensures 100 <= h.status <= 999
  {
  }

  /** The headers as they were at the first write, or as they are if there was none. */
  ghost function Frozen(ops: seq<Op>): Headers
    requires IsRun(ops)
  {
    PrefixIsRun(ops, FirstWrite(ops));
    After(ops[..FirstWrite(ops)]).headers
  }

  /** The block put out, if anything was written. */
  ghost function BlockOf(ops: seq<Op>): string
    requires IsRun(ops)
  {
    var i := FirstWrite(ops);
    if i == |ops| then "" else Block(Frozen(ops), ops[i].keys, ops[i].r0)
  }

  lemma {:induction false} BodiesSnoc(ops: seq<Op>)
    requires ops != [] && forall i | 0 <= i < |ops| && ops[i].Write? :: ops[i].taken <= |ops[i].buf|
    ensures Bodies(ops) == Bodies(ops[..|ops| - 1]) + Body(ops[|ops| - 1])
    ensures ops[|ops| - 1].Set? ==> Bodies(ops) == Bodies(ops[..|ops| - 1])
  {
  }

  lemma {:induction false} NoBodies(ops: seq<Op>)
    requires forall i | 0 <= i < |ops| :: ops[i].Set?
    ensures Bodies(ops) == ""
  {
    if ops != [] {
      NoBodies(ops[..|ops| - 1]);
    }
  }

  lemma {:induction false} ShapeStep(ops: seq<Op>)
    requires IsRun(ops) && ops != []
    ensures IsRun(ops[..|ops| - 1]) && Possible(After(ops[..|ops| - 1]).headers, ops[|ops| - 1])
    ensures After(ops) == Next(After(ops[..|ops| - 1]), ops[|ops| - 1])
  {
  }

  lemma {:induction false} FrozenBehind(ops: seq<Op>)
    requires IsRun(ops) && ops != [] && IsRun(ops[..|ops| - 1])
    ensures var before, op := ops[..|ops| - 1], ops[|ops| - 1];
      FirstWrite(before) < |before| ==>
        FirstWrite(ops) == FirstWrite(before) && Frozen(ops) == Frozen(before) && BlockOf(ops) == BlockOf(before)
  {
    var before, op := ops[..|ops| - 1], ops[|ops| - 1];
    var i := FirstWrite(before);
    assert ops == before + [op];
    FirstWriteSnoc(before, op);
    hide After, IsRun, FirstWrite, Block;
    if i < |before| {
      assert ops[..i] == before[..i] && ops[i] == before[i];
    }
  }

  lemma {:induction false} FrozenFirst(ops: seq<Op>)
    requires IsRun(ops) && ops != [] && IsRun(ops[..|ops| - 1])
    ensures var before, op := ops[..|ops| - 1], ops[|ops| - 1];
      FirstWrite(before) == |before| ==>
        && Frozen(before) == After(before).headers && BlockOf(before) == ""
        && (op.Set? ==> FirstWrite(ops) == |ops| && Frozen(ops) == After(ops).headers && BlockOf(ops) == "")
        && (op.Write? ==>
            && FirstWrite(ops) == |before| && Frozen(ops) == After(before).headers
            && BlockOf(ops) == Block(After(before).headers, op.keys, op.r0))
  {
    var before, op := ops[..|ops| - 1], ops[|ops| - 1];
    assert ops == before + [op];
    FirstWriteSnoc(before, op);
    hide After, IsRun, FirstWrite, Block;
    assert ops[..|before|] == before && before[..|before|] == before && ops[..|ops|] == ops;
  }

  /** What a step does to the parts of the output. */
  lemma {:induction false} NextOut(r: Response, op: Op, block: string, bodies: string)
    requires Possible(r.headers, op) && r.out == block + bodies && r.wbytes == |r.out|
    ensures var r' := Next(r, op);
      && r'.wbytes == |r'.out| && (r'.sent <==> r.sent || op.Write?)
      && (r.sent || op.Write? ==> r'.headers == r.headers)
      && (r.sent || op.Set? ==> r'.out == block + (bodies + Body(op)))
      && (r.out == bodies == "" && !r.sent && op.Write? ==>
          r'.out == Block(r.headers, op.keys, op.r0) + (bodies + Body(op)))
  {
    hide SetHeader, Block, IsListing;
    if op.Write? {
      assert block + bodies + "" + Body(op) == block + (bodies + Body(op));
      var b := Block(r.headers, op.keys, op.r0);
      assert "" + b + Body(op) == b + ("" + Body(op));
    }
  }

  /** Over every run: nothing is put out before the first write; then come the block of the headers
      as they were at that moment and the bodies in order. Headers set later change nothing, and
      wbytes counts the bytes put out. */
  lemma {:induction false} OutputOfRun(ops: seq<Op>)
    requires IsRun(ops)
    ensures forall i | 0 <= i < |ops| && ops[i].Write? :: ops[i].taken <= |ops[i].buf|
    ensures After(ops).sent <==> FirstWrite(ops) < |ops|
    ensures After(ops).headers == Frozen(ops)
    ensures After(ops).wbytes == |After(ops).out|
    ensures After(ops).out == BlockOf(ops) + Bodies(ops)
    ensures FirstWrite(ops) == |ops| ==> After(ops).out == ""
  {
    TakenIsGiven(ops);
    if ops == [] {
      NoBodies([]);
    } else {
      var before, op := ops[..|ops| - 1], ops[|ops| - 1];
      ShapeStep(ops);
      FrozenBehind(ops);
      FrozenFirst(ops);
      BodiesSnoc(ops);
      hide IsRun, After, SetHeader, Frozen, BlockOf, Next, Bodies, FirstWrite, Block, IsListing;
      OutputOfRun(before);
      NextOut(After(before), op, BlockOf(before), Bodies(before));
      if FirstWrite(before) == |before| {
        NoWrites(before);
      }
      if FirstWrite(ops) == |ops| {
        NoWrites(ops);
      }
    }
  }

  lemma {:induction false} NoWrites(ops: seq<Op>)
    requires FirstWrite(ops) == |ops|
    ensures (forall i | 0 <= i < |ops| :: ops[i].Set?) && Bodies(ops) == ""
  {
    NoBodies(ops);
  }
}
