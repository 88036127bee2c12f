/** The text iniparser_dump_ini prints, character by character. */
module IniLayout {
  import opened Slots
  import opened Tables
  import opened IniLines
  import opened IniSections

  function Joined(parts: seq<string>): string {
    if parts == [] then "" else parts[0] + Joined(parts[1..])
  }

  /** The key, blanks up to the thirtieth column, " = ", the value and a newline. */
  predicate IsEntryText(text: string, key: string, value: string) {
    var column := if |key| < 30 then 30 else |key|;
    && |text| == column + 3 + |value| + 1
    && text[..|key|] == key && (forall i | |key| <= i < column :: text[i] == ' ')
    && text[column..] == " = " + value + "\n"
  }

  lemma {:induction false} EntryLayout(key: string, value: string)
    ensures IsEntryText(EntryLine(key, value) + "\n", key, value)
  {
    var text := EntryLine(key, value) + "\n";
    assert text == Padded(key) + (" = " + value + "\n");
  }

  lemma {:induction false} EntriesLayout(es: seq<Entry>, name: string) returns (parts: seq<string>)
    ensures EntriesText(es, name) == Joined(parts) && |parts| == |SectionEntries(es, name)|
    ensures forall i | 0 <= i < |parts| ::
      var e := SectionEntries(es, name)[i];
      && name + ":" <= e.key
      && IsEntryText(parts[i], e.key[|name| + 1..], if e.val.Some? then e.val.value else "")
  {
    hide EntryLine, IsEntryText;
    if es == [] {
      parts := [];
    } else {
      var rest := EntriesLayout(es[1..], name);
      var e := es[0];
      if InSection(e.key, name) {
        var text := EntryLine(PrintedKey(e, name), e.val.GetOr("")) + "\n";
        EntryLayout(PrintedKey(e, name), e.val.GetOr(""));
        parts := [text] + rest;
        assert parts[1..] == rest;
        SectionEntriesStep(es, name);
      } else {
        parts := rest;
        SectionEntriesStep(es, name);
      }
    }
  }

  /** A section that is found: an empty line, the name in brackets, one line for each of its entries, and
      an empty line. */
  lemma {:induction false} SectionLayout(t: Table, name: string) returns (parts: seq<string>)
    requires Present(t, name)
    ensures DumpSection(t, name) == "\n[" + name + "]\n" + Joined(parts) + "\n"
    ensures |parts| == |SectionEntries(Items(t), name)|
    ensures forall i | 0 <= i < |parts| ::
      var e := SectionEntries(Items(t), name)[i];
      && name + ":" <= e.key
      && IsEntryText(parts[i], e.key[|name| + 1..], if e.val.Some? then e.val.value else "")
  {
    hide Items, IsEntryText, Present, EntriesText, SectionEntries;
    parts := EntriesLayout(Items(t), name);
    SectionParts(name, EntriesText(Items(t), name));
  }

  lemma SectionParts(name: string, text: string)
    ensures "\n" + ("[" + name + "]" + "\n" + (text + "\n")) == "\n[" + name + "]\n" + text + "\n"
  {
  }

  lemma {:induction false} PlainLayout(es: seq<Entry>) returns (parts: seq<string>)
    ensures PlainText(es) == Joined(parts) && |parts| == |es|
    ensures forall i | 0 <= i < |es| ::
      parts[i] == es[i].key + " = " + (if es[i].val.Some? then es[i].val.value else "(null)") + "\n"
  {
    if es == [] {
      parts := [];
    } else {
      var rest := PlainLayout(es[1..]);
      parts := [es[0].key + " = " + es[0].val.GetOr("(null)") + "\n"] + rest;
      assert parts[1..] == rest;
    }
  }

  lemma {:induction false} SectionsLayout(t: Table, names: seq<string>) returns (parts: seq<string>)
    ensures DumpSections(t, names) == Joined(parts) && |parts| == |names|
    ensures forall i | 0 <= i < |names| :: parts[i] == if Present(t, names[i]) then DumpSection(t, names[i]) else ""
  {
    hide SectionText, Present;
    if names == [] {
      parts := [];
    } else {
      var rest := SectionsLayout(t, names[1..]);
      parts := [DumpSection(t, names[0])] + rest;
      assert parts[1..] == rest;
    }
  }

  /** The whole dump: the sections in order, those that are not found left out, and an empty line; or,
      without sections, a line for each entry. */
  lemma {:induction false} DumpLayout(t: Table) returns (parts: seq<string>)
    ensures var es, names := Items(t), SectionNames(Items(t));
      if names == [] then
        && DumpText(t) == Joined(parts) && |parts| == |es|
        && forall i | 0 <= i < |es| ::
          parts[i] == es[i].key + " = " + (if es[i].val.Some? then es[i].val.value else "(null)") + "\n"
      else
        && DumpText(t) == Joined(parts) + "\n" && |parts| == |names|
        && forall i | 0 <= i < |names| :: parts[i] == if Present(t, names[i]) then DumpSection(t, names[i]) else ""
  {
    hide Items, SectionNames, DumpSection, DumpSections, PlainText, Present;
    if SectionNames(Items(t)) == [] {
      parts := PlainLayout(Items(t));
    } else {
      parts := SectionsLayout(t, SectionNames(Items(t)));
    }
  }
}
