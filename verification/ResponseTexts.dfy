/** The response as its reader sees it: the bytes of a run, read back line by line, are the headers the
    handler has given and its bodies. Section 6 of RFC 3875. */
module ResponseTexts {
  import opened Wrappers
  import opened CStrings
  import opened Headers
  import opened Responses
  import opened ResponseRuns
  import opened HeaderBlocks

  // ----- reading -----

  datatype Field = Field(name: string, value: string)

  /** Up to the first ':', and from behind the space that follows it. */
  function ReadField(line: string): Field {
    var n := Until(line, {':'});
    if n + 1 < |line| && line[n + 1] == ' ' then Field(line[..n], line[n + 2..]) else Field(line, "")
  }

  /** The lines up to the first empty one, and what follows it. */
  function ReadResponse(text: string): (seq<Field>, string) {
    var n := Until(text, {'\n'});
    if n == |text| then ([], "")
    else if n == 0 then ([], text[1..])
    else
      var rest := ReadResponse(text[n + 1..]);
      ([ReadField(text[..n])] + rest.0, rest.1)
  }

  /** The values of the fields with this name, in order, whatever the case of the name. */
  function ValuesIn(fields: seq<Field>, name: string): seq<string> {
    if fields == [] then []
    else (if Lower(fields[0].name) == Lower(name) then [fields[0].value] else []) + ValuesIn(fields[1..], name)
  }

  // ----- reading what was written -----

  predicate CleanLine(line: Line) {
    ':' !in line.name && '\n' !in line.name && '\n' !in line.value
  }

  function Fields(lines: seq<Line>): (fields: seq<Field>)
    ensures |fields| == |lines| && forall i | 0 <= i < |lines| :: fields[i] == Field(lines[i].name, lines[i].value)
  {
    seq(|lines|, i requires 0 <= i < |lines| => Field(lines[i].name, lines[i].value))
  }

  lemma {:induction false} FieldReadsBack(name: string, value: string)
    requires ':' !in name
    ensures ReadField(name + ": " + value) == Field(name, value)
  {
    var line := name + ": " + value;
    UntilIs(line, {':'}, |name|);
    assert line[..|name|] == name && line[|name| + 2..] == value;
  }

  lemma {:induction false} LineReadsBack(line: Line, rest: string)
    requires CleanLine(line)
    ensures var r := ReadResponse(rest);
      ReadResponse(LineText(line) + rest) == ([Field(line.name, line.value)] + r.0, r.1)
  {
    var head := line.name + ": " + line.value;
    var text := LineText(line) + rest;
    assert text == head + "\n" + rest;
    UntilIs(text, {'\n'}, |head|);
    assert text[..|head|] == head && text[|head| + 1..] == rest;
    FieldReadsBack(line.name, line.value);
  }

  lemma FourParts(a: string, b: string, c: string, d: string)
    ensures a + b + c + d == a + (b + c + d)
  {
  }

  /** The lines, an empty line and anything else are read back as they are. */
  lemma {:induction false} LinesReadBack(lines: seq<Line>, body: string)
    requires forall i | 0 <= i < |lines| :: CleanLine(lines[i])
    ensures ReadResponse(LinesText(lines) + "\n" + body) == (Fields(lines), body)
  {
    hide LineText, CleanLine;
    if lines == [] {
      var text := LinesText(lines) + "\n" + body;
      UntilIs(text, {'\n'}, 0);
      assert text[1..] == body;
    } else {
      hide ReadResponse;
      LinesReadBack(lines[1..], body);
      FourParts(LineText(lines[0]), LinesText(lines[1..]), "\n", body);
      LineReadsBack(lines[0], LinesText(lines[1..]) + "\n" + body);
      assert [Field(lines[0].name, lines[0].value)] + Fields(lines[1..]) == Fields(lines);
    }
  }

  lemma {:induction false} ValuesOfLines(lines: seq<Line>, name: string)
    ensures ValuesIn(Fields(lines), name) == LinesFor(lines, name)
  {
    hide Lower;
    if lines != [] {
      assert Fields(lines)[1..] == Fields(lines[1..]);
      ValuesOfLines(lines[1..], name);
    }
  }

  // ----- the spelling of the names -----

  /** How a name was spelled when it was last set. */
  function Spelling(ops: seq<Op>, name: string): string {
    if ops == [] then if Lower(name) == "status" then "Status" else "Content-Type"
    else
      match ops[|ops| - 1]
      case Set(n, value, replace) =>
        if Lower(n) == Lower(name) && Accepted(n, value, replace) then n else Spelling(ops[..|ops| - 1], name)
      case Write(_, _, _, _) => Spelling(ops[..|ops| - 1], name)
  }

  lemma {:induction false} NamesAfterSet(h: Headers, name: string, value: Option<string>, replace: bool)
    ensures var h' := SetHeader(h, name, value, replace).headers;
      h'.entries.Keys == h.entries.Keys + (if Accepted(name, value, replace) then {Lower(name)} else {})
      && forall key | key in h'.entries ::
        h'.entries[key].name ==
        if key == Lower(name) && Accepted(name, value, replace) then name
        else if key in h.entries then h.entries[key].name else ""
  {
    hide StatusOf, Lower;
  }

  lemma {:induction false} InitialSpelling(key: string)
    requires key in Initial().entries
    ensures Lower(key) == key && Initial().entries[key].name == Spelling([], key)
  {
    InitialNames();
    hide StatusOf, Lower;
    StatusIsLower();
    ContentTypeIsLower();
  }

  lemma ContentTypeIsLower()
    ensures Lower("content-type") == "content-type"
  {
  }

  lemma LowerLower(s: string)
    ensures Lower(Lower(s)) == Lower(s)
  {
  }

  /** Until the first write, each header has the name under which it was last set. */
  lemma {:induction false} NamesOfRun(ops: seq<Op>, key: string)
    requires IsRun(ops) && FirstWrite(ops) == |ops| && key in After(ops).headers.entries
    ensures After(ops).headers.entries[key].name == Spelling(ops, key) && Lower(key) == key
  {
    hide StatusOf, Lower, Initial, SetHeader, Accepted;
    if ops == [] {
      InitialSpelling(key);
    } else {
      var before, op := ops[..|ops| - 1], ops[|ops| - 1];
      ShapeStep(ops);
      NoWrites(ops);
      FirstWriteNone(before);
      OutputOfRun(before);
      hide IsRun, After, FirstWrite;
      NamesAfterSet(After(before).headers, op.name, op.value, op.replace);
      LowerLower(op.name);
      if key in After(before).headers.entries {
        NamesOfRun(before, key);
      }
    }
  }

  lemma {:induction false} LineNames(h: Headers, keys: seq<string>)
    requires Sound(h) && forall i | 0 <= i < |keys| :: keys[i] in h.entries || keys[i] == STATUS_KEY
    ensures forall line | line in AllLines(h, keys) ::
      Lower(line.name) in h.entries && var e := h.entries[Lower(line.name)];
      e.name == line.name && line.value in e.values
    decreases |keys|
  {
    hide Lower, StatusOf, IsInternal, HeaderLines;
    if keys != [] {
      assert forall i | 0 <= i < |keys[1..]| :: keys[1..][i] == keys[i + 1];
      LineNames(h, keys[1..]);
      StatusKeyIsInternal();
      if !IsInternal(keys[0]) {
        LinesOfHeader(HeaderAt(h, keys[0]), 0);
      }
    }
  }

  lemma {:induction false} LinesOfHeader(h: Header, vi: nat)
    requires vi <= |h.values|
    ensures forall line | line in HeaderLines(h, vi) :: line.name == h.name && line.value in h.values
    decreases |h.values| - vi
  {
    if vi < |h.values| {
      LinesOfHeader(h, vi + 1);
    }
  }

  // ----- what can be on a line -----

  predicate CleanSet(op: Op) {
    op.Set? ==> ':' !in op.name && '\n' !in op.name && (op.value.Some? ==> '\n' !in op.value.value)
  }

  predicate CleanHeader(h: Header) {
    ':' !in h.name && '\n' !in h.name && forall i | 0 <= i < |h.values| :: '\n' !in h.values[i]
  }

  predicate CleanHeaders(h: Headers) {
    forall key | key in h.entries :: CleanHeader(h.entries[key])
  }

  lemma {:induction false} SetKeepsClean(h: Headers, name: string, value: Option<string>, replace: bool)
    requires CleanHeaders(h) && CleanSet(Set(name, value, replace))
    ensures CleanHeaders(SetHeader(h, name, value, replace).headers)
  {
    hide StatusOf, Lower;
  }

  lemma {:induction false} CleanRun(ops: seq<Op>)
    requires IsRun(ops) && forall i | 0 <= i < |ops| :: CleanSet(ops[i])
    ensures CleanHeaders(After(ops).headers)
  {
    hide StatusOf, Lower, SetHeader, Block, IsListing, CleanSet, CleanHeaders;
    if ops != [] {
      var before, op := ops[..|ops| - 1], ops[|ops| - 1];
      ShapeStep(ops);
      assert forall i | 0 <= i < |before| :: before[i] == ops[i];
      CleanRun(before);
      hide IsRun, After;
      if op.Set? {
        SetKeepsClean(After(before).headers, op.name, op.value, op.replace);
      }
    } else {
      InitialIsClean();
    }
  }

  lemma StatusIsClean()
    ensures CleanHeader(Header("Status", ["200 OK"]))
  {
  }

  lemma TypeIsClean()
    ensures CleanHeader(Header("Content-Type", ["text/html"]))
  {
  }

  lemma InitialIsClean()
    ensures CleanHeaders(Initial())
  {
    hide CleanHeader;
    StatusIsClean();
    TypeIsClean();
  }

  // ----- the response -----

  /** Every response, unless its block vanishes (see BlockIsComplete), is read back, if no name has a
      ':' and no text a newline: the bodies behind an empty line; under every name the values given
      before the first write, in order; each name as it was last spelled; and one status. */
  lemma {:induction false} ResponseReadsBack(ops: seq<Op>, name: string)
    requires IsRun(ops) && FirstWrite(ops) < |ops|
    requires !(ops[FirstWrite(ops)].r0 == -2 && FirstIsEmpty(After(ops).headers, ops[FirstWrite(ops)].keys))
    requires forall i | 0 <= i < FirstWrite(ops) :: CleanSet(ops[i])
    ensures forall i | 0 <= i < |ops| && ops[i].Write? :: ops[i].taken <= |ops[i].buf|
    ensures var given, read := ops[..FirstWrite(ops)], ReadResponse(After(ops).out);
      && read.1 == Bodies(ops)
      && ValuesIn(read.0, name) == Given(given, name)
      && (forall f | f in read.0 :: f.name == Spelling(given, f.name))
      && |ValuesIn(read.0, "Status")| == 1
  {
    hide Sound, Lower, StatusOf, SetHeader, LinesText, Block, AllLines, Given, Bodies, FirstIsEmpty, Spelling, LinesFor;
    hide CleanSet, ValuesIn, ReadResponse, CleanHeaders;
    var i := FirstWrite(ops);
    var given := ops[..i];
    ResponseOfRun(ops, name);
    ResponseOfRun(ops, "Status");
    OutputOfRun(ops);
    PrefixIsRun(ops, i);
    ListedAtWrite(ops, i);
    CleanRun(given);
    AlwaysSound(given);
    FirstWriteNone(given);
    var h, lines := After(given).headers, AllLines(After(ops).headers, ops[i].keys);
    forall f | f in Fields(lines) ensures f.name == Spelling(given, f.name) {
      FieldSpelling(given, ops[i].keys, f);
    }
    LinesAreClean(h, ops[i].keys);
    LinesReadBack(lines, Bodies(ops));
    ValuesOfLines(lines, name);
    ValuesOfLines(lines, "Status");
    StatusLines(lines);
  }

  lemma {:induction false} FieldSpelling(given: seq<Op>, keys: seq<string>, f: Field)
    requires IsRun(given) && FirstWrite(given) == |given| && IsListing(keys, After(given).headers)
    requires f in Fields(AllLines(After(given).headers, keys))
    ensures f.name == Spelling(given, f.name)
  {
    hide Sound, Lower, StatusOf, AllLines, IsRun, After, FirstWrite, Spelling;
    var h, lines := After(given).headers, AllLines(After(given).headers, keys);
    AlwaysSound(given);
    assert forall i | 0 <= i < |keys| :: keys[i] in keys;
    LineNames(h, keys);
    var k :| 0 <= k < |lines| && Fields(lines)[k] == f;
    assert lines[k] in lines;
    NamesOfRun(given, Lower(f.name));
    SameSpelling(given, Lower(f.name), f.name);
  }

  lemma {:induction false} SameSpelling(ops: seq<Op>, a: string, b: string)
    requires Lower(a) == Lower(b)
    ensures Spelling(ops, a) == Spelling(ops, b)
  {
    hide Lower, Accepted;
    if ops != [] {
      SameSpelling(ops[..|ops| - 1], a, b);
    }
  }

  lemma {:induction false} LinesAreClean(h: Headers, keys: seq<string>)
    requires Sound(h) && IsListing(keys, h) && CleanHeaders(h)
    ensures var lines := AllLines(h, keys); forall i | 0 <= i < |lines| :: CleanLine(lines[i])
  {
    hide Lower, StatusOf, AllLines, Sound;
    assert forall i | 0 <= i < |keys| :: keys[i] in keys;
    LineNames(h, keys);
    var lines := AllLines(h, keys);
    forall i | 0 <= i < |lines| ensures CleanLine(lines[i]) {
      assert lines[i] in lines;
    }
  }

  lemma {:induction false} StatusLines(lines: seq<Line>)
    ensures LinesFor(lines, "Status") == LinesFor(lines, STATUS)
  {
    InitialNames();
    StatusIsLower();
    hide StatusOf, Lower;
    if lines != [] {
      StatusLines(lines[1..]);
    }
  }
}
