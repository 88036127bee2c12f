/** What iniparser_line reads, told by the text of the line: every shape of line that iniparser.c knows,
    quotes, comments and blanks included. */
module IniValues {
  import opened Wrappers
  import opened CStrings
  import opened IniLines

  // ----- what is in front of the first '=' and what is behind it -----

  lemma {:induction false} StripBehind(a: string, head: string, tail: string)
    requires AllSpace(a) && head != "" && Stripped(head)
    ensures Strip(a + head + tail) == head + RStrip(tail)
  {
    assert a + head + tail == a + (head + tail);
    LStripSpaces(a, head + tail);
    assert LStrip(head + tail) == head + tail;
    RStripEmpty(tail);
    if AllSpace(tail) {
      RStripSpaces(head, tail);
    } else {
      RStripAppend(head, tail);
    }
  }

  /** A key that can be in front of an '='. */
  predicate IsKey(key: string) {
    key != "" && Stripped(key) && '=' !in key && key[0] !in {'#', ';', '['}
  }

  lemma {:induction false} EntryScanned(a: string, key: string, b: string, tail: string)
    requires AllSpace(a) && AllSpace(b) && IsKey(key)
    ensures var line := Strip(a + key + b + "=" + tail);
      line != "" && line[0] !in {'#', ';', '['} && ScanKey(line) == Some(Scan(key + b, Strip(tail)))
    ensures Name(key + b) == Lower(key)
  {
    var head := key + b + "=";
    assert a + key + b + "=" + tail == a + head + tail;
    StripBehind(a, head, tail);
    StripCommutes(tail);
    assert '=' !in key + b;
    assert "" + key + b == key + b;
    StripAround("", key, b);
    hide Strip, RStrip, LStrip, ScanKey;
    ScanKeyReads(head + RStrip(tail), key + b, RStrip(tail));
  }

  lemma {:induction false} EntryParsed(a: string, key: string, b: string, tail: string, section: string)
    requires AllSpace(a) && AllSpace(b) && IsKey(key) && RawValue(Strip(tail)).Some?
    ensures ParseLine(a + key + b + "=" + tail, section) == Value(Lower(key), Unquoted(RawValue(Strip(tail)).value))
  {
    EntryScanned(a, key, b, tail);
    hide Strip, ScanKey, RawValue, Unquoted, Name, Lower, ParseLine;
    ParseScannedLine(a + key + b + "=" + tail, section, key + b, Strip(tail));
  }

  // ----- quoted values -----

  /** A value in quotes of either kind is what is between them, without the spaces at its ends; comment
      characters in it are part of it, and whatever follows the closing quote is not read. Only two
      quotes of the other kind, and nothing else between them, stand for nothing. */
  lemma {:induction false} QuotedValueIsRead(a: string, key: string, b: string, c: string, quote: char, v: string,
                                             more: string, section: string)
    requires AllSpace(a) && AllSpace(b) && AllSpace(c) && IsKey(key)
    requires (quote == '\"' || quote == '\'') && v != "" && quote !in v
    ensures ParseLine(a + key + b + "=" + c + [quote] + v + [quote] + more, section) ==
      Value(Lower(key), if Strip(v) == "\"\"" || Strip(v) == "''" then "" else Strip(v))
  {
    hide Strip, RStrip, LStrip, RawValue, ParseLine, Lower, Stripped, AllSpace, IsKey;
    var head := [quote] + v + [quote];
    QuotedRaw(quote, v, RStrip(more));
    StripBehind(c, head, more);
    QuotedParts(a + key + b + "=", c, [quote], v, more);
    EntryParsed(a, key, b, c + head + more, section);
  }

  lemma QuotedParts(head: string, c: string, q: string, v: string, more: string)
    ensures head + c + q + v + q + more == head + (c + (q + v + q) + more)
  {
  }

  lemma {:induction false} QuotedRaw(quote: char, v: string, more: string)
    requires (quote == '\"' || quote == '\'') && v != "" && quote !in v
    ensures RawValue([quote] + v + [quote] + more) == Some(v)
    ensures Stripped([quote] + v + [quote])
  {
    var rest := [quote] + v + [quote] + more;
    assert rest[1..] == v + [quote] + more;
    UntilIs(rest[1..], {quote}, |v|);
    assert rest[1..][..|v|] == v;
  }

  /** A quote that is not closed counts as well, unless nothing but spaces is behind it. */
  lemma {:induction false} UnclosedQuoteIsRead(a: string, key: string, b: string, c: string, quote: char, v: string,
                                               section: string)
    requires AllSpace(a) && AllSpace(b) && AllSpace(c) && IsKey(key)
    requires (quote == '\"' || quote == '\'') && quote !in v
    ensures ParseLine(a + key + b + "=" + c + [quote] + v, section) ==
      Value(Lower(key), if AllSpace(v) then [quote]
                        else if Strip(v) == "\"\"" || Strip(v) == "''" then "" else Strip(v))
  {
    hide Strip, RStrip, LStrip, RawValue, ParseLine, Lower, AllSpace, IsKey;
    QuoteIsStripped(quote);
    StripBehind(c, [quote], v);
    EntryTail(a + key + b + "=", c, [quote], v);
    OpenRaw(quote, v);
    EntryParsed(a, key, b, c + [quote] + v, section);
  }

  lemma QuoteIsStripped(quote: char)
    requires quote == '\"' || quote == '\''
    ensures Stripped([quote])
  {
  }

  lemma EntryTail(head: string, c: string, q: string, v: string)
    ensures head + c + q + v == head + (c + q + v)
  {
  }

  lemma {:induction false} OpenRaw(quote: char, v: string)
    requires (quote == '\"' || quote == '\'') && quote !in v
    ensures var raw := RawValue([quote] + RStrip(v));
      raw.Some? && Unquoted(raw.value) ==
        if AllSpace(v) then [quote] else if Strip(v) == "\"\"" || Strip(v) == "''" then "" else Strip(v)
  {
    var w := RStrip(v);
    var rest := [quote] + w;
    assert rest[1..] == w && forall i | 0 <= i < |w| :: w[i] == v[i];
    RStripEmpty(v);
    UntilIs(w, {quote}, |w|);
    assert w[..|w|] == w;
    if AllSpace(v) {
      UntilIs(rest, {';', '#'}, 1);
      assert rest[..1] == [quote];
      StripAround("", [quote], "");
      assert "" + [quote] + "" == [quote];
    } else {
      StripCommutes(v);
      StripTwice(v);
    }
  }

  lemma {:induction false} StripTwice(v: string)
    ensures Strip(RStrip(v)) == Strip(v)
  {
    StripCommutes(v);
    StripCommutes(RStrip(v));
    assert RStrip(RStrip(v)) == RStrip(v);
  }

  // ----- values without quotes, and comments behind them -----

  /** Nothing, or spaces and a comment. */
  predicate IsComment(text: string) {
    text == "" || text[0] == ';' || text[0] == '#'
  }

  lemma {:induction false} PlainRaw(v: string, sp: string, more: string)
    requires v != "" && Stripped(v) && ';' !in v && '#' !in v && AllSpace(sp) && IsComment(more)
    requires !IsQuote(v[0]) || (|v| > 1 && v[1] == v[0])
    ensures var rest := v + RStrip(sp + more);
      RawValue(rest).Some? && Strip(RawValue(rest).value) == v
  {
    hide Strip, RStrip, RawValue;
    RStripEmpty(more);
    if more == "" {
      assert sp + more == sp && v + "" == v;
      RStripEmpty(sp);
      PlainStops(v, "", "");
      assert v + ("" + "") == v + "" == v == "" + v + "";
      StripAround("", v, "");
    } else {
      RStripAppend(sp, more);
      TrimmedComment(more);
      PlainStops(v, sp, RStrip(more));
      assert v + sp == "" + v + sp;
      StripAround("", v, sp);
    }
  }

  lemma {:induction false} TrimmedComment(more: string)
    requires more != "" && IsComment(more)
    ensures RStrip(more) != "" && RStrip(more)[0] == more[0]
  {
    RStripEmpty(more);
  }

  /** The value with the spaces behind it is what is read. */
  lemma {:induction false} PlainStops(v: string, sp: string, more: string)
    requires v != "" && ';' !in v && '#' !in v && AllSpace(sp) && IsComment(more) && (more == "" ==> sp == "")
    requires !IsQuote(v[0]) || (|v| > 1 && v[1] == v[0])
    ensures RawValue(v + (sp + more)) == Some(v + sp)
  {
    var rest := v + (sp + more);
    assert rest[0] == v[0] && (|v| > 1 ==> rest[1] == v[1]);
    UntilIs(rest, {';', '#'}, |v| + |sp|);
    assert rest[..|v| + |sp|] == v + sp;
  }

  /** A value without quotes ends at the first ';' or '#', and spaces around it are not part of it;
      two quotes of one kind are the empty value, and more of them are read as they stand. */
  lemma {:induction false} PlainValueIsRead(a: string, key: string, b: string, c: string, v: string, sp: string,
                                            more: string, section: string)
    requires AllSpace(a) && AllSpace(b) && AllSpace(c) && IsKey(key)
    requires v != "" && Stripped(v) && ';' !in v && '#' !in v && AllSpace(sp)
    requires more == "" || more[0] == ';' || more[0] == '#'
    requires (v[0] != '\"' && v[0] != '\'') || (|v| > 1 && v[1] == v[0])
    ensures ParseLine(a + key + b + "=" + c + v + sp + more, section) ==
      Value(Lower(key), if v == "\"\"" || v == "''" then "" else v)
  {
    hide Strip, RStrip, LStrip, RawValue, ParseLine, Lower, Stripped, AllSpace, IsKey;
    StripBehind(c, v, sp + more);
    PlainRaw(v, sp, more);
    PlainParts(a + key + b + "=", c, v, sp, more);
    EntryParsed(a, key, b, c + v + (sp + more), section);
  }

  lemma PlainParts(head: string, c: string, v: string, sp: string, more: string)
    ensures head + c + v + sp + more == head + (c + v + (sp + more))
  {
  }

  // ----- no value -----

  lemma {:induction false} CommentScanned(line: string, head: string, rest: string)
    requires ScanKey(line) == Some(Scan(head, rest)) && rest != "" && (rest[0] == ';' || rest[0] == '#')
    ensures ScanValue(line).None? && ScanComment(line).Some? && ScanComment(line).value.key == head
  {
    hide ScanKey;
    ScanValueReads(line, head, rest);
  }

  /** With nothing or a comment behind the '=', the value is empty. */
  lemma {:induction false} EmptyValueIsRead(a: string, key: string, b: string, c: string, more: string, section: string)
    requires AllSpace(a) && AllSpace(b) && AllSpace(c) && IsKey(key)
    requires more == "" || more[0] == ';' || more[0] == '#'
    ensures ParseLine(a + key + b + "=" + c + more, section) == Value(Lower(key), "")
  {
    hide Strip, RStrip, LStrip, ScanKey, ScanValue, ScanComment, ScanBare, Name, Lower, AllSpace, IsKey;
    EntryParts(a + key + b + "=", c, more);
    EntryScanned(a, key, b, c + more);
    var line := Strip(a + key + b + "=" + (c + more));
    if more == "" {
      BlankTail(a, key, b, c);
      BlankReads(line, key + b);
    } else {
      CommentTail(c, more);
      CommentScanned(line, key + b, Strip(c + more));
    }
    EntryClassified(a + key + b + "=" + (c + more), section, key + b);
  }

  lemma EntryParts(head: string, c: string, more: string)
    ensures head + c + more == head + (c + more)
  {
  }

  lemma {:induction false} BlankTail(a: string, key: string, b: string, c: string)
    requires AllSpace(a) && AllSpace(b) && AllSpace(c) && IsKey(key)
    ensures Strip(a + key + b + "=" + (c + "")) == key + b + "=" && key + b != "" && '=' !in key + b
  {
    var head := key + b + "=";
    assert a + key + b + "=" + (c + "") == a + head + c;
    StripBehind(a, head, c);
    RStripEmpty(c);
    assert head + "" == head;
  }

  lemma {:induction false} CommentTail(c: string, more: string)
    requires AllSpace(c) && more != "" && IsComment(more)
    ensures Strip(c + more) != "" && Strip(c + more)[0] == more[0]
  {
    LStripSpaces(c, more);
    TrimmedComment(more);
  }

  lemma {:induction false} EntryClassified(input: string, section: string, head: string)
    requires var line := Strip(input);
      && line != "" && line[0] !in {'#', ';', '['} && ScanValue(line).None?
      && ((ScanComment(line).Some? && ScanComment(line).value.key == head)
          || (ScanComment(line).None? && ScanBare(line).Some? && ScanBare(line).value.key == head))
    ensures ParseLine(input, section) == Value(Name(head), "")
  {
    hide Strip, ScanValue, ScanComment, ScanBare, Name;
  }

  // ----- the other lines -----

  /** A line whose first character behind the spaces is '#' or ';' is a comment, whatever else is in
      it; a line is empty iff it has only spaces. */
  lemma {:induction false} CommentIsRead(a: string, c: char, text: string, section: string)
    requires AllSpace(a)
    ensures c == '#' || c == ';' ==> ParseLine(a + [c] + text, section) == Comment
    ensures ParseLine(text, section) == Empty <==> AllSpace(text)
  {
    if c == '#' || c == ';' {
      StripBehind(a, [c], text);
    }
    LStripEmpty(text);
    RStripEmpty(LStrip(text));
    hide ScanValue, ScanComment, ScanBare, Name, Unquoted, RStrip, Until;
  }

  /** A line between brackets is the section whose name is up to the first closing bracket; "[]" is
      the section the buffer names. */
  lemma {:induction false} SectionIsRead(a: string, name: string, more: string, b: string, section: string)
    requires AllSpace(a) && AllSpace(b) && ']' !in name && (more == "" || more[|more| - 1] == ']')
    ensures ParseLine(a + "[" + name + "]" + more + b, section) ==
      Section(Lower(Strip(if name == "" then section else name)))
  {
    hide LStrip, RStrip, Lower;
    var line := "[" + name + "]" + more;
    SectionParts(a, "[" + name + "]", more, b);
    assert a + "[" + name + "]" == a + ("[" + name + "]");
    BracketsStay(name, more);
    StripAround(a, line, b);
    hide Strip;
    BracketsParsed(a + line + b, name, more, section);
  }

  lemma SectionParts(a: string, s: string, more: string, b: string)
    ensures a + s + more + b == a + (s + more) + b
  {
  }

  lemma BracketsStay(name: string, more: string)
    requires more == "" || more[|more| - 1] == ']'
    ensures var line := "[" + name + "]" + more; Stripped(line) && line[|line| - 1] == ']'
  {
  }

  lemma {:induction false} BracketsParsed(input: string, name: string, more: string, section: string)
    requires ']' !in name && (more == "" || more[|more| - 1] == ']')
    requires Strip(input) == "[" + name + "]" + more
    ensures ParseLine(input, section) == Section(Lower(Strip(if name == "" then section else name)))
  {
    hide Strip, Lower, ScanValue, ScanComment, ScanBare;
    var line := "[" + name + "]" + more;
    assert line[1..] == name + "]" + more;
    BracketsStay(name, more);
    UntilIs(line[1..], {']'}, |name|);
    hide Until;
    assert line[1..][..|name|] == name;
  }

  /** Any other line is an error iff it has no '=' or nothing in front of the first one. */
  lemma {:induction false} ErrorIff(input: string, section: string)
    ensures ParseLine(input, section) == Error <==>
      var line := Strip(input);
      && line != "" && line[0] !in {'#', ';'} && !(line[0] == '[' && line[|line| - 1] == ']')
      && ('=' !in line || line[0] == '=')
  {
    var line := Strip(input);
    var n := Until(line, {'='});
    if '=' in line {
      var i :| 0 <= i < |line| && line[i] == '=';
      assert n <= i;
    }
    if 0 < n < |line| {
      SomeFormatReads(line, n);
    }
    hide Strip, Name, Unquoted;
  }

  lemma {:induction false} SomeFormatReads(line: string, n: nat)
    requires 0 < n < |line| && n == Until(line, {'='})
    ensures ScanValue(line).Some? || ScanComment(line).Some? || ScanBare(line).Some?
  {
    var rest := LStrip(line[n + 1..]);
    ScanValueReads(line, line[..n], rest);
    hide LStrip;
    if rest == "" {
      assert line[n..][0] == '=';
      hide ScanValue, ScanComment;
    } else {
      hide ScanBare, ScanValue;
    }
  }
}
