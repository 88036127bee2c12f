/** iniparser_line: one logical line, classified by sscanf formats tried in order. */
module IniLines {
  import opened Wrappers
  import opened CStrings

  datatype Line = Empty | Comment | Section(name: string) | Value(key: string, value: string) | Error

  /** What a format with two conversions read. */
  datatype Scan = Scan(key: string, value: string)

  /** "%[^=] = ": a non-empty run up to the first '=', and what follows the '=' and its spaces. */
  function ScanKey(line: string): Option<Scan> {
    var n := Until(line, {'='});
    if 0 < n < |line| then Some(Scan(line[..n], LStrip(line[n + 1..]))) else None
  }

  /** "%[^=] = \"%[^\"]\"" and the same with single quotes: the closing quote is not checked. */
  function ScanQuoted(line: string, quote: char): Option<Scan> {
    match ScanKey(line)
    case None => None
    case Some(Scan(key, rest)) =>
      if rest != "" && rest[0] == quote && Until(rest[1..], {quote}) > 0
      then Some(Scan(key, rest[1..][..Until(rest[1..], {quote})])) else None
  }

  /** "%[^=] = %[^;#]" */
  function ScanPlain(line: string): Option<Scan> {
    match ScanKey(line)
    case None => None
    case Some(Scan(key, rest)) =>
      if Until(rest, {';', '#'}) > 0 then Some(Scan(key, rest[..Until(rest, {';', '#'})])) else None
  }

  /** "%[^=] = %[;#]" */
  function ScanComment(line: string): Option<Scan> {
    match ScanKey(line)
    case None => None
    case Some(Scan(key, rest)) =>
      if While(rest, {';', '#'}) > 0 then Some(Scan(key, rest[..While(rest, {';', '#'})])) else None
  }

  /** "%[^=] %[=]" */
  function ScanBare(line: string): Option<Scan> {
    var n := Until(line, {'='});
    var m := While(line[n..], {'='});
    if n > 0 && m > 0 then Some(Scan(line[..n], line[n..][..m])) else None
  }

  function Name(s: string): string {
    Lower(Strip(s))
  }

  /** sscanf cannot read an empty quoted value, so one that reads as two quotes is emptied. */
  function Unquoted(value: string): string {
    if Strip(value) == "\"\"" || Strip(value) == "''" then "" else Strip(value)
  }

  /** The first format of those for usual values that reads both conversions. */
  function ScanValue(line: string): Option<Scan> {
    if ScanQuoted(line, '\"').Some? then ScanQuoted(line, '\"')
    else if ScanQuoted(line, '\'').Some? then ScanQuoted(line, '\'')
    else ScanPlain(line)
  }

  /** `section` is the caller's buffer: "[]" leaves it as it was. */
  function ParseLine(input: string, section: string): Line {
    var line := Strip(input);
    if line == "" then Empty
    else if line[0] == '#' || line[0] == ';' then Comment
    else if line[0] == '[' && line[|line| - 1] == ']' then
      var n := Until(line[1..], {']'});
      Section(Name(if n > 0 then line[1..][..n] else section))
    else if ScanValue(line).Some? then
      Value(Name(ScanValue(line).value.key), Unquoted(ScanValue(line).value.value))
    else if ScanComment(line).Some? then Value(Name(ScanComment(line).value.key), "")
    else if ScanBare(line).Some? then Value(Name(ScanBare(line).value.key), "")
    else Error
  }

  // ----- the lines iniparser_dumpsection_ini prints -----

  function Spaces(n: nat): (r: string)
    ensures |r| == n && AllSpace(r)
  {
    seq(n, _ => ' ')
  }

  /** "%-30s" */
  function Padded(key: string): string {
    key + Spaces(if |key| < 30 then 30 - |key| else 0)
  }

  /** "%-30s = %s" */
  function EntryLine(key: string, value: string): string {
    Padded(key) + " = " + value
  }

  /** "[%s]" */
  function SectionLine(name: string): string {
    "[" + name + "]"
  }

  // ----- when a printed section reads back -----

  predicate NameOk(name: string) {
    name != "" && Stripped(name) && IsLower(name)
  }

  lemma LowerFixed(s: string)
    ensures Lower(s) == s <==> IsLower(s)
    ensures IsLower(Lower(s))
  {
  }

  /** The names a line yields are stripped and in lower case. */
  lemma {:induction false} NameIsClean(s: string)
    ensures Stripped(Name(s)) && IsLower(Name(s))
    ensures Name(s) == s <==> Stripped(s) && IsLower(s)
    ensures Name(s) == "" <==> Strip(s) == ""
  {
    StripFixed(s);
    LowerFixed(Strip(s));
  }

  /** A name has no character beyond the letters that its source has not. */
  lemma {:induction false} NameKeepsOut(s: string, c: char)
    requires c !in s && !('a' <= c <= 'z')
    ensures c !in Name(s) && |Name(s)| <= |s|
  {
    LStripIsSuffix(s);
    var l := LStrip(s);
    var r := RStrip(l);
    forall i | 0 <= i < |r| ensures ToLower(r[i]) != c {
      assert r[i] == l[i] == s[|s| - |l| + i];
    }
  }

  lemma {:induction false} NameIsShort(s: string)
    ensures |Name(s)| <= |s|
  {
  }

  /** What is read from between the brackets. */
  lemma {:induction false} SectionLineParsed(name: string, section: string)
    ensures var n := Until(name + "]", {']'});
      ParseLine(SectionLine(name), section) == Section(Name(if n > 0 then (name + "]")[..n] else section))
  {
    var line := SectionLine(name);
    StripFixed(line);
    assert line[|line| - 1] == ']' && line[1..] == name + "]";
    hide Until, Name, Strip, ScanValue, ScanComment, ScanBare;
  }

  /** A printed section header reads back as that section iff its name is a clean name without a
      closing bracket; "[]" reads back iff the buffer holds no name either. The buffer never holds a
      bracket: it is empty or was read from a line. */
  lemma {:induction false} SectionLineReadsBack(name: string, section: string)
    requires ']' !in section
    ensures ParseLine(SectionLine(name), section) == Section(name) <==>
      if name == "" then Strip(section) == "" else NameOk(name) && ']' !in name
  {
    SectionLineParsed(name, section);
    hide ParseLine, SectionLine, Strip, Name;
    var text := name + "]";
    var n := Until(text, {']'});
    if ']' !in name {
      UntilIs(text, {']'}, |name|);
      assert text[..|name|] == name;
      NameIsClean(if name == "" then section else name);
    } else {
      var i :| 0 <= i < |name| && name[i] == ']';
      assert text[i] == ']';
      NameIsShort(text[..n]);
      NameKeepsOut(section, ']');
    }
  }

  /** The buffer invariant SectionLineReadsBack relies on. */
  lemma {:induction false} SectionsHaveNoBracket(input: string, section: string)
    requires ']' !in section && ParseLine(input, section).Section?
    ensures ']' !in ParseLine(input, section).name
  {
    var line := Strip(input);
    var n := Until(line[1..], {']'});
    NameKeepsOut(if n > 0 then line[1..][..n] else section, ']');
  }

  // ----- when a printed entry reads back -----

  predicate IsQuote(c: char) {
    c == '\"' || c == '\''
  }

  /** Neither opens a quoted value nor reads as an empty one: a lone quote, or two of the same kind
      with more behind them, are read as they stand. */
  predicate QuotesOk(value: string) {
    value == "" || !IsQuote(value[0]) || |value| == 1 || (value[1] == value[0] && |value| > 2)
  }

  predicate ValueOk(value: string) {
    Stripped(value) && ';' !in value && '#' !in value && QuotesOk(value)
  }

  predicate KeyOk(key: string) {
    NameOk(key) && '=' !in key && key[0] != '#' && key[0] != ';'
  }

  /** The line would be taken for a section header. */
  predicate LooksLikeSection(key: string, value: string) {
    key != "" && key[0] == '[' && value != "" && value[|value| - 1] == ']'
  }

  /** The stripped line is key, padding, " =" and, unless it is blank, " " and the value. */
  lemma {:induction false} StrippedEntryLine(key: string, value: string)
    requires key != "" && Stripped(key)
    ensures Strip(EntryLine(key, value)) ==
      Padded(key) + " =" + (if Strip(value) == "" then "" else " " + RStrip(value))
    ensures Strip(EntryLine(key, value))[0] == key[0]
  {
    var line := EntryLine(key, value);
    var head := Padded(key) + " =";
    assert line == head + (" " + value);
    assert line[0] == key[0] && LStrip(line) == line;
    StripCommutes(value);
    RStripEmpty(value);
    LStripEmpty(RStrip(value));
    if AllSpace(value) {
      LStripEmpty(value);
      RStripSpaces(head, " " + value);
      assert RStrip(head) == head;
    } else {
      RStripAppend(" ", value);
      RStripEmpty(" " + value);
      RStripAppend(head, " " + value);
      assert Strip(value) != "";
    }
  }

  lemma {:induction false} StripPadded(key: string)
    requires key != "" && Stripped(key)
    ensures Strip(Padded(key) + " ") == key
  {
    var pad := Spaces(if |key| < 30 then 30 - |key| else 0) + " ";
    assert Padded(key) + " " == key + pad;
    RStripSpaces(key, pad);
  }

  lemma {:induction false} NamePadded(key: string)
    requires NameOk(key)
    ensures Name(Padded(key) + " ") == key
  {
    StripPadded(key);
    LowerFixed(key);
  }

  lemma {:induction false} StripTail(value: string)
    ensures LStrip(if Strip(value) == "" then "" else " " + RStrip(value)) == Strip(value)
  {
    StripCommutes(value);
    LStripSpaces(" ", RStrip(value));
  }

  /** What every "key = value" format reads from a line with this head. */
  lemma {:induction false} ScanKeyReads(line: string, head: string, tail: string)
    requires line == head + "=" + tail && head != "" && '=' !in head
    ensures ScanKey(line) == Some(Scan(head, LStrip(tail)))
  {
    hide LStrip, Until;
    UntilIs(line, {'='}, |head|);
    assert line[..|head|] == head && line[|head| + 1..] == tail;
  }

  lemma SpaceAndEquals(a: string, b: string)
    ensures a + " =" + b == (a + " ") + "=" + b
  {
  }

  lemma PaddedKey(key: string)
    requires '=' !in key
    ensures Padded(key) + " " != "" && '=' !in Padded(key) + " "
  {
  }

  /** What every "key = value" format reads from a printed entry. */
  lemma {:induction false} ScanEntryLine(key: string, value: string)
    requires key != "" && Stripped(key) && '=' !in key
    ensures ScanKey(Strip(EntryLine(key, value))) == Some(Scan(Padded(key) + " ", Strip(value)))
  {
    StrippedEntryLine(key, value);
    StripTail(value);
    PaddedKey(key);
    hide EntryLine, Strip, RStrip, LStrip, ScanKey, Padded;
    var line := Strip(EntryLine(key, value));
    var head := Padded(key) + " ";
    var tail := if Strip(value) == "" then "" else " " + RStrip(value);
    SpaceAndEquals(Padded(key), tail);
    ScanKeyReads(line, head, tail);
  }

  /** What the formats for usual values read from the part behind "= ". */
  function RawValue(rest: string): Option<string> {
    if rest != "" && rest[0] == '\"' && Until(rest[1..], {'\"'}) > 0 then
      Some(rest[1..][..Until(rest[1..], {'\"'})])
    else if rest != "" && rest[0] == '\'' && Until(rest[1..], {'\''}) > 0 then
      Some(rest[1..][..Until(rest[1..], {'\''})])
    else if Until(rest, {';', '#'}) > 0 then Some(rest[..Until(rest, {';', '#'})])
    else None
  }

  lemma {:induction false} ScanValueReads(line: string, key: string, rest: string)
    requires ScanKey(line) == Some(Scan(key, rest))
    ensures ScanValue(line) == if RawValue(rest).None? then None else Some(Scan(key, RawValue(rest).value))
  {
    hide ScanKey;
  }

  lemma {:induction false} StripIsShorter(s: string)
    ensures |Strip(s)| <= |s|
    ensures |Strip(s)| == |s| ==> Strip(s) == s
  {
    LStripIsSuffix(s);
  }

  lemma {:induction false} UnquotedIsShorter(raw: string)
    ensures |Unquoted(raw)| <= |raw|
    ensures |Unquoted(raw)| == |raw| && raw != "" ==> Unquoted(raw) == raw == Strip(raw)
  {
    StripIsShorter(raw);
  }

  /** A non-blank value is read as it stands iff nothing in it opens a comment and its quotes do
      not count as quotes. */
  lemma {:induction false} RawValueReadsBack(value: string)
    requires Strip(value) != ""
    ensures RawValue(Strip(value)).Some? && Unquoted(RawValue(Strip(value)).value) == value <==> ValueOk(value)
  {
    var rest := Strip(value);
    StripFixed(value);
    StripIsShorter(value);
    var raw := RawValue(rest);
    if raw.Some? {
      UnquotedIsShorter(raw.value);
    }
    if ValueOk(value) {
      assert rest == value;
      StripFixed(rest);
      UntilIs(value, {';', '#'}, |value|);
      hide Strip, Until;
      assert value[..|value|] == value;
    }
  }

  /** A printed entry reads back as its key and value iff both are clean and the line is not taken
      for a comment or a section header. */
  lemma {:induction false} EntryLineReadsBack(key: string, value: string, section: string)
    ensures ParseLine(EntryLine(key, value), section) == Value(key, value) <==>
      KeyOk(key) && ValueOk(value) && !LooksLikeSection(key, value)
  {
    if ParseLine(EntryLine(key, value), section) == Value(key, value) {
      ParsedKeyIsClean(EntryLine(key, value), section);
    }
    if NameOk(key) && '=' !in key {
      CleanKeyReadsBack(key, value, section);
    }
  }

  /** Every key a line yields is a clean name without '='. */
  lemma {:induction false} ParsedKeyIsClean(input: string, section: string)
    requires ParseLine(input, section).Value?
    ensures NameOk(ParseLine(input, section).key) && '=' !in ParseLine(input, section).key
  {
    var line := Strip(input);
    StripFixed(input);
    var n := Until(line, {'='});
    hide Strip;
    assert ParseLine(input, section).key == Name(line[..n]) && n > 0;
    NameIsClean(line[..n]);
    NameKeepsOut(line[..n], '=');
    NonBlank(line[..n]);
  }

  lemma {:induction false} NonBlank(s: string)
    requires s != "" && !IsSpace(s[0])
    ensures Strip(s) != ""
  {
    RStripEmpty(s);
  }

  /** A blank value: the formats for usual values and for comments fail, "%[^=] %[=]" reads it. */
  lemma {:induction false} BlankReads(line: string, head: string)
    requires line == head + "=" && head != "" && '=' !in head
    ensures ScanValue(line).None? && ScanComment(line).None? && ScanBare(line) == Some(Scan(head, "="))
  {
    UntilIs(line, {'='}, |head|);
    hide Until;
    assert line[|head| + 1..] == "" && line[..|head|] == head && line[|head|..] == "=" == "="[..1];
    ScanValueReads(line, head, "");
    assert While("=", {'='}) == 1;
  }

  lemma {:induction false} CleanKeyReadsBack(key: string, value: string, section: string)
    requires NameOk(key) && '=' !in key
    ensures ParseLine(EntryLine(key, value), section) == Value(key, value) <==>
      key[0] != '#' && key[0] != ';' && ValueOk(value) && !LooksLikeSection(key, value)
  {
    StrippedEntryLine(key, value);
    StripFixed(value);
    if Strip(value) == "" {
      BlankReadsBack(key, value, section);
    } else {
      NonBlankReadsBack(key, value, section);
    }
  }

  lemma {:induction false} BlankReadsBack(key: string, value: string, section: string)
    requires NameOk(key) && '=' !in key && Strip(value) == ""
    ensures ParseLine(EntryLine(key, value), section) == Value(key, value) <==>
      key[0] != '#' && key[0] != ';' && value == ""
  {
    StrippedEntryLine(key, value);
    StripPadded(key);
    LowerFixed(key);
    var head := Padded(key) + " ";
    assert '=' !in head;
    hide Strip, EntryLine, Padded;
    var line := Strip(EntryLine(key, value));
    assert line == head + "=";
    BlankReads(line, head);
    hide ScanValue, ScanComment, ScanBare;
  }

  /** How a line with a "key = rest" part is classified. */
  lemma {:induction false} ParseScannedLine(input: string, section: string, head: string, rest: string)
    requires Strip(input) != "" && ScanKey(Strip(input)) == Some(Scan(head, rest))
    ensures var line, p := Strip(input), ParseLine(input, section);
      if line[0] == '#' || line[0] == ';' then p == Comment
      else if line[0] == '[' && line[|line| - 1] == ']' then p.Section?
      else if RawValue(rest).Some? then p == Value(Name(head), Unquoted(RawValue(rest).value))
      else p.Value? ==> p.value == ""
  {
    ScanValueReads(Strip(input), head, rest);
    hide Strip, ScanKey, ScanValue, RawValue, Unquoted, Name;
  }

  lemma {:induction false} LastOfEntryLine(key: string, value: string)
    requires key != "" && Stripped(key) && Strip(value) != ""
    ensures var line, v := Strip(EntryLine(key, value)), RStrip(value);
      line != "" && v != "" && line[|line| - 1] == v[|v| - 1]
    ensures value != ""
    ensures !IsSpace(value[|value| - 1]) ==> RStrip(value) == value
  {
    StrippedEntryLine(key, value);
    StripCommutes(value);
    hide Strip, EntryLine, Padded;
    assert RStrip(value) == "" ==> LStrip(RStrip(value)) == "";
  }

  lemma {:induction false} NonBlankReadsBack(key: string, value: string, section: string)
    requires NameOk(key) && '=' !in key && Strip(value) != ""
    ensures ParseLine(EntryLine(key, value), section) == Value(key, value) <==>
      key[0] != '#' && key[0] != ';' && ValueOk(value) && !LooksLikeSection(key, value)
  {
    hide Strip, RStrip, LStrip, EntryLine, Padded, ScanKey, RawValue, Unquoted, Name, ParseLine, QuotesOk;
    StrippedEntryLine(key, value);
    NamePadded(key);
    ScanEntryLine(key, value);
    ParseScannedLine(EntryLine(key, value), section, Padded(key) + " ", Strip(value));
    RawValueReadsBack(value);
    LastOfEntryLine(key, value);
  }
}
