/** iniparser_load and iniparser_dump_ini: from text to a dictionary and back. A file is the string
    of its characters. */
module IniFiles {
  import opened Wrappers
  import opened Slots
  import opened Tables
  import opened Dictionaries
  import opened CStrings
  import opened IniLines

  // ----- loading -----

  /** `prefix` is the part of the line buffer kept for a continued line. Undefined: the source
      reads before its buffer or writes past it. TooLong: a line does not fit. */
  datatype Load =
    | Reading(table: Table, section: string, prefix: string, errs: nat)
    | TooLong
    | Undefined

  const START := Reading(Nones(DICTMINSZ), "", "", 0)

  /** The length of the first physical line, with its newline if it has one. */
  function LineEnd(text: string): (n: nat)
    requires text != ""
    ensures 0 < n <= |text|
  {
    if Until(text, {'\n'}) < |text| then Until(text, {'\n'}) + 1 else |text|
  }

  predicate OneLine(s: string) {
    '\n' !in s
  }

  /** fgets can take the whole line: an unterminated one must leave room to find the end of file. */
  predicate Fits(prefix: string, raw: string)
    requires raw != ""
  {
    if raw[|raw| - 1] == '\n' then |prefix| + |raw| < LINESZ else |prefix| + |raw| < LINESZ - 1
  }

  /** One iteration of the reading loop, on one physical line. */
  function LoadLine(st: Load, raw: string): (st': Load)
    requires raw != "" && st.Reading? && st.table != []
    ensures st'.Reading? ==> st'.table != []
  {
    var buffer := st.prefix + raw;
    if !Fits(st.prefix, raw) then TooLong
    else if |buffer| == 1 then st
    else
      var line := RStrip(buffer);
      if line == "" then Undefined
      else if line[|line| - 1] == '\\' then st.(prefix := line[..|line| - 1])
      else LoadParsed(st, ParseLine(line, st.section))
  }

  function LoadParsed(st: Load, line: Line): (st': Load)
    requires st.Reading? && st.table != []
    ensures st'.Reading? ==> st'.table != []
  {
    match line
    case Section(name) => Reading(SetIn(st.table, name, None), name, "", 0)
    case Value(key, value) =>
      if |st.section| + 1 + |key| > LINESZ then Undefined
      else Reading(AddTo(st.table, st.section + ":" + key, Some(value)), st.section, "", 0)
    case Error => st.(prefix := "", errs := st.errs + 1)
    case _ => st.(prefix := "")
  }

  function LoadText(text: string, st: Load): Load
    requires st.Reading? ==> st.table != []
    decreases |text|
  {
    if text == "" || !st.Reading? then st
    else LoadText(text[LineEnd(text)..], LoadLine(st, text[..LineEnd(text)]))
  }

  /** fgets: up to and with the next newline, no more than size - 1 characters; `eof` is set by reading
      at the end of the text. */
  method Fgets(text: string, pos: nat, size: nat) returns (chunk: string, eof: bool)
    requires pos < |text| && size >= 2
    ensures chunk != "" && |chunk| < size && chunk <= text[pos..] && '\n' !in chunk[..|chunk| - 1]
    ensures chunk[|chunk| - 1] == '\n' ==> !eof
    ensures chunk[|chunk| - 1] != '\n' ==>
      if eof then pos + |chunk| == |text| && |chunk| < size - 1 else |chunk| == size - 1
  {
    chunk, eof := "", false;
    while |chunk| < size - 1
      invariant |chunk| < size && pos + |chunk| <= |text| && chunk == text[pos..pos + |chunk|] && '\n' !in chunk
      decreases size - |chunk|
    {
      if pos + |chunk| == |text| {
        eof := true;
        break;
      }
      var c := text[pos + |chunk|];
      chunk := chunk + [c];
      if c == '\n' {
        break;
      }
    }
  }

  /** What fgets has read is the whole line, and the check for lines that are too long lets it pass, iff
      the line fits. */
  lemma {:induction false} FgetsFits(text: string, prefix: string, chunk: string, eof: bool)
    requires text != "" && |prefix| <= LINESZ - 2
    requires chunk != "" && |chunk| < LINESZ - |prefix| && chunk <= text && '\n' !in chunk[..|chunk| - 1]
    requires chunk[|chunk| - 1] == '\n' ==> !eof
    requires chunk[|chunk| - 1] != '\n' ==>
      if eof then |chunk| == |text| && |chunk| < LINESZ - |prefix| - 1 else |chunk| == LINESZ - |prefix| - 1
    ensures var raw := text[..LineEnd(text)];
      && (chunk[|chunk| - 1] == '\n' || eof <==> Fits(prefix, raw))
      && (Fits(prefix, raw) ==> chunk == raw)
      && (|chunk| == 1 && prefix == "" ==> chunk == raw)
  {
    var n := Until(text, {'\n'});
    assert forall i | 0 <= i < |chunk| - 1 :: chunk[..|chunk| - 1][i] == text[i];
    if chunk[|chunk| - 1] == '\n' {
      UntilIs(text, {'\n'}, |chunk| - 1);
    } else {
      assert n >= |chunk|;
    }
  }

  /** The loop that cuts newline and spaces off the end of the buffer. */
  method TrimRight(s: string) returns (t: string)
    ensures t == RStrip(s)
  {
    var len := |s| - 1;
    assert s[..len + 1] == s;
    while len >= 0 && IsSpace(s[len])
      invariant -1 <= len < |s| && RStrip(s[..len + 1]) == RStrip(s)
    {
      assert s[..len + 1][..len] == s[..len];
      len := len - 1;
    }
    t := s[..len + 1];
  }

  /** The head of the reading loop: one call of fgets, and the check for lines that are too long. */
  method ReadLine(text: string, pos: nat, prefix: string) returns (raw: string, fits: bool)
    requires pos < |text| && |prefix| <= LINESZ - 2
    ensures raw != "" && pos + |raw| <= |text|
    ensures fits <==> Fits(prefix, text[pos..][..LineEnd(text[pos..])])
    ensures fits ==> raw == text[pos..][..LineEnd(text[pos..])]
    ensures |prefix + raw| == 1 ==> fits
  {
    hide LineEnd, Fits;
    var eof;
    raw, eof := Fgets(text, pos, LINESZ - |prefix|);
    FgetsFits(text[pos..], prefix, raw, eof);
    fits := raw[|raw| - 1] == '\n' || eof;
  }

  /** The switch over the kinds of line. Not ok: section and key exceed their buffer. */
  method StoreLine(dict: Dictionary, line: string, section: string, errs: int)
    returns (ok: bool, section': string, errs': int)
    requires dict.Valid() && dict.table != [] && errs >= 0
    modifies dict, dict.Arrays()
    ensures dict.Valid() && dict.table != [] && fresh(dict.Arrays() - old(dict.Arrays())) && errs' >= 0
    ensures var st := LoadParsed(Reading(old(dict.table), section, "", errs), ParseLine(line, section));
      if ok then st == Reading(dict.table, section', "", errs') else st == Undefined
  {
    hide ParseLine, SetIn, AddTo, Items, Dictionary.Valid;
    ok, section', errs' := true, section, errs;
    match ParseLine(line, section)
    case Section(name) =>
      errs' := dict.Set(name, None);
      section' := name;
    case Value(key, value) =>
      if |section| + 1 + |key| > LINESZ {
        ok := false;
        return;
      }
      errs' := dict.Add(section + ":" + key, Some(value));
    case Error =>
      errs' := errs + 1;
    case _ =>
    dict.Sizes();
  }

  lemma LoadLineCases(st: Load, raw: string)
    requires raw != "" && st.Reading? && st.table != []
    ensures LoadLine(st, raw) ==
      var line := RStrip(st.prefix + raw);
      if !Fits(st.prefix, raw) then TooLong
      else if |st.prefix + raw| == 1 then st
      else if line == "" then Undefined
      else if line[|line| - 1] == '\\' then st.(prefix := line[..|line| - 1])
      else LoadParsed(st.(prefix := ""), ParseLine(line, st.section))
    ensures Fits(st.prefix, raw) ==> |RStrip(st.prefix + raw)| < LINESZ
  {
    hide ParseLine, RStrip, SetIn, AddTo;
  }

  /** iniparser_load: null after a line that does not fit, and when the last lines since a section
      or a value held a syntax error. */
  method IniparserLoad(text: string) returns (d: Dictionary?)
    ensures d != null ==> d.Valid() && fresh(d) && fresh(d.Arrays())
    ensures match LoadText(text, START)
      case Reading(table, _, _, errs) => (d != null <==> errs == 0) && (d != null ==> d.table == table)
      case TooLong => d == null
      case Undefined => true
  {
    hide LoadText, LoadLine, LoadParsed, ParseLine, LineEnd, RStrip, Fits, SetIn, AddTo, Nones, Items, Dictionary.Valid;
    var dict := new Dictionary(0);
    dict.Sizes();
    var section, prefix, errs, pos := "", "", 0, 0;
    assert text[0..] == text;
    while pos < |text|
      invariant 0 <= pos <= |text| && errs >= 0 && |prefix| <= LINESZ - 2
      invariant dict.Valid() && dict.table != [] && fresh(dict) && fresh(dict.Arrays())
      invariant LoadText(text[pos..], Reading(dict.table, section, prefix, errs)) == LoadText(text, START)
    {
      ghost var rest, st := text[pos..], Reading(dict.table, section, prefix, errs);
      LoadTextSteps(rest, st);
      LoadLineCases(st, rest[..LineEnd(rest)]);
      assert rest[LineEnd(rest)..] == text[pos + LineEnd(rest)..];
      var raw, fits := ReadLine(text, pos, prefix);
      pos := pos + |raw|;
      if |prefix + raw| == 1 {
        continue;
      }
      if !fits {
        return null;
      }
      var line := TrimRight(prefix + raw);
      if line == "" {
        return null;
      }
      if line[|line| - 1] == '\\' {
        prefix := line[..|line| - 1];
        continue;
      }
      prefix := "";
      var ok;
      ok, section, errs := StoreLine(dict, line, section, errs);
      if !ok {
        return null;
      }
    }
    assert text[pos..] == "";
    LoadTextEnds(Reading(dict.table, section, prefix, errs));
    d := if errs == 0 then dict else null;
  }

  lemma {:induction false} LoadTextSteps(text: string, st: Load)
    requires text != "" && st.Reading? && st.table != []
    ensures LoadText(text, st) == LoadText(text[LineEnd(text)..], LoadLine(st, text[..LineEnd(text)]))
    ensures var st' := LoadLine(st, text[..LineEnd(text)]);
      !st'.Reading? ==> LoadText(text, st) == st'
  {
    hide LoadLine;
  }

  lemma {:induction false} LoadTextEnds(st: Load)
    requires st.Reading? ==> st.table != []
    ensures LoadText("", st) == st
  {
  }

  lemma {:induction false} LoadCons(line: string, rest: string, st: Load)
    requires OneLine(line) && st.Reading? && st.table != []
    ensures LoadText(line + "\n" + rest, st) == LoadText(rest, LoadLine(st, line + "\n"))
  {
    var text, raw := line + "\n" + rest, line + "\n";
    UntilIs(text, {'\n'}, |line|);
    LoadTextSteps(text, st);
    assert text[..|raw|] == raw && text[|raw|..] == rest;
  }

  // ----- continued lines -----

  lemma {:induction false} PrefixIsRead(p: string, raw: string, st: Load)
    requires st.Reading? && st.table != [] && st.prefix == "" && raw != ""
    ensures LoadLine(st.(prefix := p), raw) == LoadLine(st, p + raw)
  {
    hide RStrip, ParseLine, SetIn, AddTo;
    assert "" + (p + raw) == p + raw;
  }

  lemma {:induction false} BackslashKept(a: string, sp: string, st: Load)
    requires st.Reading? && st.table != [] && st.prefix == "" && AllSpace(sp)
    requires |a| + |sp| + 2 < LINESZ
    ensures LoadLine(st, a + "\\" + sp + "\n") == st.(prefix := a)
  {
    hide ParseLine, RStrip, LoadLine, Fits;
    var raw, line := a + "\\" + sp + "\n", a + "\\";
    assert "" + raw == raw == line + (sp + "\n");
    assert line[|line| - 1] == '\\' && line[..|line| - 1] == a;
    RStripSpaces(line, sp + "\n");
    EndsInBackslash(a);
    ShortLineFits(line + sp);
    assert raw == line + sp + "\n";
    LoadLineCases(st, raw);
  }

  lemma EndsInBackslash(a: string)
    ensures RStrip(a + "\\") == a + "\\"
  {
  }

  lemma ShortLineFits(line: string)
    requires |line| + 1 < LINESZ
    ensures Fits("", line + "\n")
  {
  }

  /** A line that ends with a backslash, with or without spaces behind it, and the line that follows are
      read as one, even in a comment. */
  lemma {:induction false} ContinuationJoins(a: string, sp: string, b: string, rest: string, st: Load)
    requires st.Reading? && st.table != [] && st.prefix == ""
    requires OneLine(a) && OneLine(b) && OneLine(sp) && AllSpace(sp) && |a| + |sp| + 2 < LINESZ
    ensures LoadText(a + "\\" + sp + "\n" + (b + "\n" + rest), st) == LoadText(a + b + "\n" + rest, st)
  {
    hide LoadText, LoadLine, RStrip;
    LoadCons(a + "\\" + sp, b + "\n" + rest, st);
    BackslashKept(a, sp, st);
    LoadCons(b, rest, st.(prefix := a));
    LoadCons(a + b, rest, st);
    PrefixIsRead(a, b + "\n", st);
    assert a + (b + "\n") == a + b + "\n";
  }
}
