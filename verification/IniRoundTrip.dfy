/** What iniparser_dump_ini prints, iniparser_load reads back; and the section views partition a
    dictionary. */
module IniRoundTrip {
  import opened Wrappers
  import opened Slots
  import opened Tables
  import opened CStrings
  import opened EntryLists
  import opened IniLines
  import opened IniFiles
  import opened IniSections

  function SectionOf(key: string): string {
    key[..Until(key, {':'})]
  }

  // ----- well-formed dictionaries -----

  /** Every key with a colon lies in a section that is present, and exactly the sections are NULL. */
  predicate Sectioned(es: seq<Entry>, names: seq<string>) {
    forall i | 0 <= i < |es| ::
      if HasColon(es[i].key) then SectionOf(es[i].key) in names && es[i].val.Some? else es[i].val.None?
  }

  /** A section header that is one line of the file and reads back behind a section of the other
      name (see SectionLineReadsBack). */
  predicate PrintableSection(name: string, section: string) {
    && OneLine(name) && |SectionLine(name)| + 1 < LINESZ
    && if name == "" then section == "" else NameOk(name) && ']' !in name
  }

  /** An entry that is one line of the file, not continued, and reads back (see EntryLineReadsBack). */
  predicate PrintableEntry(name: string, key: string, value: string) {
    && KeyOk(key) && ValueOk(value) && !LooksLikeSection(key, value)
    && OneLine(key) && OneLine(value) && (value != "" ==> value[|value| - 1] != '\\')
    && |EntryLine(key, value)| + 1 < LINESZ && |name| + 1 + |key| <= LINESZ
  }

  predicate Printable(e: Entry)
    requires HasColon(e.key)
  {
    PrintableEntry(SectionOf(e.key), e.key[Until(e.key, {':'}) + 1..], e.val.GetOr(""))
  }

  /** The section buffer when the i-th section line is read, if it held `section` at first. */
  function Buffer(names: seq<string>, section: string, i: nat): string
    requires i <= |names|
  {
    if i == 0 then section else names[i - 1]
  }

  predicate PrintableSections(names: seq<string>, section: string) {
    forall i | 0 <= i < |names| :: PrintableSection(names[i], Buffer(names, section, i))
  }

  predicate PrintableEntries(es: seq<Entry>) {
    forall i | 0 <= i < |es| && HasColon(es[i].key) :: Printable(es[i])
  }

  /** Keys under a section may repeat; the sections may not, and there is at least one. */
  predicate WellFormed(t: Table) {
    var es, names := Items(t), SectionNames(Items(t));
    && names != [] && NoDuplicates(names) && Sectioned(es, names)
    && PrintableSections(names, "") && PrintableEntries(es)
  }

  // ----- keys -----

  predicate NamesDistinct(names: seq<string>) {
    NoDuplicates(names) && forall i | 0 <= i < |names| :: !HasColon(names[i])
  }

  lemma {:induction false} NamesIn(es: seq<Entry>, name: string)
    ensures name in SectionNames(es) <==> exists i :: 0 <= i < |es| && es[i].key == name && !HasColon(name)
  {
    hide HasColon;
    if es != [] {
      NamesIn(es[1..], name);
      if name in SectionNames(es[1..]) {
        var i :| 0 <= i < |es[1..]| && es[1..][i].key == name && !HasColon(name);
        assert es[i + 1].key == name;
      }
      if i :| 0 <= i < |es| && es[i].key == name && !HasColon(name) {
        assert i > 0 ==> es[1..][i - 1].key == name;
      }
    }
  }

  lemma {:induction false} NamesHaveNoColon(es: seq<Entry>)
    ensures forall i | 0 <= i < |SectionNames(es)| :: !HasColon(SectionNames(es)[i])
    ensures NoDuplicates(SectionNames(es)) <==> NamesDistinct(SectionNames(es))
  {
    hide SectionNames, NoDuplicates, HasColon;
    forall i | 0 <= i < |SectionNames(es)| ensures !HasColon(SectionNames(es)[i]) {
      NamesIn(es, SectionNames(es)[i]);
    }
  }

  /** For a colon-free name, the prefix comparison of the source asks for the section of the key. */
  lemma {:induction false} InSectionIs(key: string, name: string)
    requires !HasColon(name)
    ensures InSection(key, name) <==> HasColon(key) && SectionOf(key) == name
    ensures InSection(key, name) ==> key[Until(key, {':'}) + 1..] == key[|name| + 1..]
  {
    if InSection(key, name) {
      assert forall i | 0 <= i < |name| :: key[i] == name[i];
      assert key[|name|] == (name + ":")[|name|] == ':';
      UntilIs(key, {':'}, |name|);
    }
    if HasColon(key) && SectionOf(key) == name {
      assert key[..|name| + 1] == name + ":";
    }
  }

  // ----- the section views partition the dictionary -----

  function TotalKeys(es: seq<Entry>, names: seq<string>): nat {
    if names == [] then 0 else |SectionEntries(es, names[0])| + TotalKeys(es, names[1..])
  }

  /** Putting an entry in front adds one to the count of its section, and of no other. */
  lemma {:induction false} TotalKeysCons(e: Entry, es: seq<Entry>, names: seq<string>)
    requires NamesDistinct(names)
    ensures TotalKeys([e] + es, names) ==
      TotalKeys(es, names) + (if HasColon(e.key) && SectionOf(e.key) in names then 1 else 0)
  {
    hide Until, HasColon, SectionOf, InSection;
    if names != [] {
      TotalKeysCons(e, es, names[1..]);
      InSectionIs(e.key, names[0]);
      assert ([e] + es)[1..] == es;
      assert names == [names[0]] + names[1..];
    }
  }

  lemma {:induction false} TotalKeysNone(names: seq<string>)
    ensures TotalKeys([], names) == 0
  {
    if names != [] {
      TotalKeysNone(names[1..]);
    }
  }

  lemma {:induction false} CountBySection(es: seq<Entry>, names: seq<string>)
    requires NamesDistinct(names)
    requires forall i | 0 <= i < |es| && HasColon(es[i].key) :: SectionOf(es[i].key) in names
    ensures |es| == |SectionNames(es)| + TotalKeys(es, names)
  {
    hide Until, SectionOf, NamesDistinct;
    if es == [] {
      TotalKeysNone(names);
    } else {
      forall i | 0 <= i < |es[1..]| && HasColon(es[1..][i].key) ensures SectionOf(es[1..][i].key) in names {
        assert es[1..][i] == es[i + 1];
      }
      CountBySection(es[1..], names);
      assert es == [es[0]] + es[1..];
      TotalKeysCons(es[0], es[1..], names);
    }
  }

  /** What iniparser_getsecnkeys answers (see IniSections.GetSecNKeys). */
  function NKeys(t: Table, name: string): nat {
    if Present(t, name) then |SectionEntries(Items(t), name)| else 0
  }

  function TotalNKeys(t: Table, names: seq<string>): nat {
    if names == [] then 0 else NKeys(t, names[0]) + TotalNKeys(t, names[1..])
  }

  lemma {:induction false} ReportedKeys(t: Table, names: seq<string>)
    ensures TotalNKeys(t, names) <= TotalKeys(Items(t), names)
    ensures TotalNKeys(t, names) == TotalKeys(Items(t), names) <==>
      forall name | name in names :: NKeys(t, name) == |SectionEntries(Items(t), name)|
  {
    hide Present, SectionEntries, Items;
    if names != [] {
      ReportedKeys(t, names[1..]);
      assert names == [names[0]] + names[1..];
    }
  }

  /** A section is found under its name, and its keys counted, if strlwc keeps the name. */
  lemma {:induction false} SectionPresent(t: Table, name: string)
    requires name in SectionNames(Items(t)) && CleanKey(name)
    ensures Present(t, name) && NKeys(t, name) == |SectionEntries(Items(t), name)|
  {
    hide Items, SectionNames, SectionEntries, HasColon, StrLwc;
    NamesIn(Items(t), name);
    assert StrLwc(name) == name;
    FindItems(t, name);
    var i :| 0 <= i < |Items(t)| && Items(t)[i].key == name;
    assert First(Items(t), name) <= i;
  }

  /** n is the number of sections plus the number of keys in each: every entry, duplicates included,
      is shown by exactly one of the views. The counts that iniparser_getsecnkeys reports add up to
      this iff it finds every section that has keys, as it does if strlwc keeps the names. */
  lemma {:induction false} ViewsPartition(t: Table)
    requires NoDuplicates(SectionNames(Items(t))) && Sectioned(Items(t), SectionNames(Items(t)))
    ensures var es, names := Items(t), SectionNames(Items(t));
      && |es| == |names| + TotalKeys(es, names)
      && (|es| == |names| + TotalNKeys(t, names) <==>
          forall name | name in names :: NKeys(t, name) == |SectionEntries(es, name)|)
      && (forall name | name in names && CleanKey(name) ::
            Present(t, name) && NKeys(t, name) == |SectionEntries(es, name)|)
  {
    var es, names := Items(t), SectionNames(Items(t));
    hide Items, SectionNames, SectionEntries, Present, HasColon, CleanKey, NKeys, SectionOf, NoDuplicates;
    NamesHaveNoColon(es);
    CountBySection(es, names);
    ReportedKeys(t, names);
    forall name | name in names && CleanKey(name)
      ensures Present(t, name) && NKeys(t, name) == |SectionEntries(es, name)|
    {
      SectionPresent(t, name);
    }
  }

  // ----- loading line by line -----

  lemma {:induction false} LoadBlankLine(rest: string, st: Load)
    requires st.Reading? && st.table != [] && st.prefix == ""
    ensures LoadText("\n" + rest, st) == LoadText(rest, st)
  {
    LoadCons("", rest, st);
    assert "" + "\n" + rest == "\n" + rest && "" + "\n" == "\n";
  }

  lemma {:induction false} LoadSectionLine(name: string, rest: string, t: Table, section: string)
    requires PrintableSection(name, section) && ']' !in section && t != []
    ensures LoadText(SectionLine(name) + "\n" + rest, Reading(t, section, "", 0)) ==
      LoadText(rest, Reading(SetIn(t, name, None), name, "", 0))
  {
    hide LoadText, SetIn, LoadLine;
    LoadCons(SectionLine(name), rest, Reading(t, section, "", 0));
    SectionLineLoads(name, t, section);
  }

  lemma {:induction false} SectionLineTrimmed(name: string)
    ensures RStrip(SectionLine(name) + "\n") == SectionLine(name)
  {
    RStripSpaces(SectionLine(name), "\n");
  }

  lemma {:induction false} SectionLineLoads(name: string, t: Table, section: string)
    requires PrintableSection(name, section) && ']' !in section && t != []
    ensures LoadLine(Reading(t, section, "", 0), SectionLine(name) + "\n") == Reading(SetIn(t, name, None), name, "", 0)
  {
    hide SetIn, ParseLine, RStrip;
    var line := SectionLine(name);
    SectionLineReadsBack(name, section);
    SectionLineTrimmed(name);
    assert "" + (line + "\n") == line + "\n";
  }

  lemma {:induction false} StripAfterRStrip(s: string)
    ensures Strip(RStrip(s)) == Strip(s)
    ensures Strip(s) != "" ==>
      RStrip(s) != "" && RStrip(s)[|RStrip(s)| - 1] == Strip(s)[|Strip(s)| - 1]
  {
    StripCommutes(s);
    StripCommutes(RStrip(s));
    LStripIsSuffix(RStrip(s));
    assert RStrip(RStrip(s)) == RStrip(s);
  }

  /** The last character of a printed entry: of the value, or the '=' before an empty one. */
  lemma {:induction false} LastPrinted(key: string, value: string)
    requires key != "" && Stripped(key) && Stripped(value)
    ensures var line := Strip(EntryLine(key, value));
      line != "" && line[|line| - 1] == if value == "" then '=' else value[|value| - 1]
  {
    StrippedEntryLine(key, value);
    StripFixed(value);
    assert RStrip(value) == value;
    hide EntryLine, Padded, Strip, RStrip;
  }

  /** A printed entry is neither blank nor continued, and parses as what it was printed from. */
  lemma {:induction false} EntryLineTrimmed(name: string, key: string, value: string, section: string)
    requires PrintableEntry(name, key, value)
    ensures var line := RStrip(EntryLine(key, value) + "\n");
      line != "" && line[|line| - 1] != '\\' && ParseLine(line, section) == Value(key, value)
  {
    var line := EntryLine(key, value);
    RStripSpaces(line, "\n");
    EntryLineReadsBack(key, value, section);
    hide EntryLine, RStrip, ParseLine, QuotesOk, Strip;
    LastPrinted(key, value);
    StripAfterRStrip(line);
    SameParse(line, RStrip(line), section);
  }

  lemma {:induction false} SameParse(s: string, s': string, section: string)
    requires Strip(s) == Strip(s')
    ensures ParseLine(s, section) == ParseLine(s', section)
  {
    hide Strip, ScanValue, ScanComment, ScanBare, Until;
  }

  lemma {:induction false} LoadEntryLine(name: string, key: string, value: string, rest: string, t: Table)
    requires PrintableEntry(name, key, value) && t != []
    ensures LoadText(EntryLine(key, value) + "\n" + rest, Reading(t, name, "", 0)) ==
      LoadText(rest, Reading(AddTo(t, name + ":" + key, Some(value)), name, "", 0))
  {
    PrintedOnOneLine(key, value);
    hide LoadText, AddTo, EntryLine, LoadLine;
    LoadCons(EntryLine(key, value), rest, Reading(t, name, "", 0));
    EntryLineLoads(name, key, value, t);
  }

  lemma {:induction false} EntryLineLoads(name: string, key: string, value: string, t: Table)
    requires PrintableEntry(name, key, value) && t != []
    ensures LoadLine(Reading(t, name, "", 0), EntryLine(key, value) + "\n") ==
      Reading(AddTo(t, name + ":" + key, Some(value)), name, "", 0)
  {
    hide AddTo, ParseLine, EntryLine, KeyOk, ValueOk, LooksLikeSection, RStrip;
    EntryLineTrimmed(name, key, value, name);
    var raw := EntryLine(key, value) + "\n";
    assert "" + raw == raw;
    assert Fits("", raw) && |raw| > 1 by {
      PrintedOnOneLine(key, value);
    }
    hide Fits, PrintableEntry;
  }

  lemma {:induction false} PrintedOnOneLine(key: string, value: string)
    requires OneLine(key) && OneLine(value)
    ensures OneLine(EntryLine(key, value)) && EntryLine(key, value) != ""
  {
  }

  // ----- loading a section -----

  function AddAll(t: Table, es: seq<Entry>): (r: Table)
    requires t != []
    ensures r != []
    decreases |es|
  {
    if es == [] then t else AddAll(AddTo(t, es[0].key, es[0].val), es[1..])
  }

  lemma {:induction false} AddAllPacked(t: Table, es: seq<Entry>)
    requires t != [] && Packed(t)
    ensures Packed(AddAll(t, es)) && Items(AddAll(t, es)) == Items(t) + es
    decreases |es|
  {
    hide Items, AddTo, Packed;
    if es == [] {
      assert Items(t) + [] == Items(t);
    } else {
      AddPacked(t, es[0].key, es[0].val);
      AddAllPacked(AddTo(t, es[0].key, es[0].val), es[1..]);
      assert es == [es[0]] + es[1..] && Entry(es[0].key, es[0].val) == es[0];
    }
  }

  lemma {:induction false} LoadEntries(es: seq<Entry>, name: string, rest: string, t: Table)
    requires t != [] && !HasColon(name)
    requires PrintableEntries(es) && forall i | 0 <= i < |es| && HasColon(es[i].key) :: es[i].val.Some?
    ensures LoadText(EntriesText(es, name) + rest, Reading(t, name, "", 0)) ==
      LoadText(rest, Reading(AddAll(t, SectionEntries(es, name)), name, "", 0))
    decreases |es|
  {
    hide LoadText, AddTo, EntryLine, PrintableEntry, Until;
    if es == [] {
      assert "" + rest == rest;
    } else {
      var e, tail := es[0], EntriesText(es[1..], name);
      assert forall i | 0 <= i < |es[1..]| :: es[1..][i] == es[i + 1];
      if InSection(e.key, name) {
        InSectionIs(e.key, name);
        var key, value := PrintedKey(e, name), e.val.value;
        assert e.key == name + ":" + key;
        assert EntriesText(es, name) + rest == EntryLine(key, value) + "\n" + (tail + rest);
        LoadEntryLine(name, key, value, tail + rest, t);
        LoadEntries(es[1..], name, rest, AddTo(t, e.key, e.val));
        assert SectionEntries(es, name) == [e] + SectionEntries(es[1..], name);
        assert SectionEntries(es, name)[1..] == SectionEntries(es[1..], name);
      } else {
        assert EntriesText(es, name) == tail;
        LoadEntries(es[1..], name, rest, t);
        assert SectionEntries(es, name) == SectionEntries(es[1..], name);
      }
    }
  }

  // ----- loading all sections -----

  /** The table loading the printed sections leaves, and its entries: each section's entry, then
      the entries of that section in their order. */
  function AddSections(t: Table, es: seq<Entry>, names: seq<string>): (r: Table)
    requires t != []
    ensures r != []
    decreases |names|
  {
    if names == [] then t
    else AddSections(AddAll(SetIn(t, names[0], None), SectionEntries(es, names[0])), es, names[1..])
  }

  function Grouped(es: seq<Entry>, names: seq<string>): seq<Entry> {
    if names == [] then []
    else [Entry(names[0], None)] + SectionEntries(es, names[0]) + Grouped(es, names[1..])
  }

  lemma {:induction false} SectionEntriesIn(es: seq<Entry>, name: string)
    ensures forall i | 0 <= i < |SectionEntries(es, name)| :: InSection(SectionEntries(es, name)[i].key, name)
    ensures forall e :: e in SectionEntries(es, name) <==> e in es && InSection(e.key, name)
  {
    if es != [] {
      SectionEntriesIn(es[1..], name);
      assert es == [es[0]] + es[1..];
    }
  }

  /** One section: its header and entries go behind what is there, if its name is new. */
  lemma {:induction false} AddSection(t: Table, es: seq<Entry>, name: string)
    requires t != [] && Packed(t) && Find(t, name) == |t| && !HasColon(name)
    ensures var r := AddAll(SetIn(t, name, None), SectionEntries(es, name));
      && Packed(r) && Items(r) == Items(t) + ([Entry(name, None)] + SectionEntries(es, name))
      && (forall other | other != name && !HasColon(other) && Find(t, other) == |t| :: Find(r, other) == |r|)
  {
    hide Items, AddTo, SetIn, Packed, AddAll, SectionEntries, Until;
    SetPacked(t, name, None);
    var t' := SetIn(t, name, None);
    var block := SectionEntries(es, name);
    AddAllPacked(t', block);
    var r := AddAll(t', block);
    var a, b := Items(t), [Entry(name, None)];
    assert a + b + block == a + (b + block);
    SectionEntriesIn(es, name);
    forall other | other != name && !HasColon(other) && Find(t, other) == |t| ensures Find(r, other) == |r| {
      FindItems(t, other);
      FindItems(r, other);
      forall i | 0 <= i < |Items(r)| ensures Items(r)[i].key != other {
        if i >= |a| + 1 {
          assert Items(r)[i] == block[i - |a| - 1];
          InSectionIs(other, name);
        }
      }
    }
  }

  lemma {:induction false} AddSectionsPacked(t: Table, es: seq<Entry>, names: seq<string>)
    requires t != [] && Packed(t) && NamesDistinct(names)
    requires forall i | 0 <= i < |names| :: Find(t, names[i]) == |t|
    ensures Packed(AddSections(t, es, names))
    ensures Items(AddSections(t, es, names)) == Items(t) + Grouped(es, names)
    decreases |names|
  {
    hide Items, AddTo, SetIn, Packed, AddAll, SectionEntries, Until, Find, HasColon;
    if names == [] {
      assert Items(t) + [] == Items(t);
    } else {
      AddSection(t, es, names[0]);
      var r := AddAll(SetIn(t, names[0], None), SectionEntries(es, names[0]));
      assert forall i | 0 <= i < |names[1..]| :: names[1..][i] == names[i + 1];
      AddSectionsPacked(r, es, names[1..]);
      var a, b, c := Items(t), [Entry(names[0], None)] + SectionEntries(es, names[0]), Grouped(es, names[1..]);
      assert a + b + c == a + (b + c);
    }
  }

  lemma {:induction false} LoadSections(t: Table, names: seq<string>, rest: string, acc: Table, section: string)
    requires acc != [] && ']' !in section
    requires forall i | 0 <= i < |names| :: !HasColon(names[i]) && Present(t, names[i])
    requires PrintableSections(names, section) && PrintableEntries(Items(t))
    requires forall i | 0 <= i < |Items(t)| && HasColon(Items(t)[i].key) :: Items(t)[i].val.Some?
    ensures LoadText(DumpSections(t, names) + rest, Reading(acc, section, "", 0)) ==
      LoadText(rest, Reading(AddSections(acc, Items(t), names), if names == [] then section else Last(names), "", 0))
    decreases |names|
  {
    hide LoadText, AddTo, SetIn, AddAll, SectionEntries, SectionText, Present, HasColon, Items, PrintableEntries;
    hide DumpSections;
    DumpSectionsCons(t, names, rest);
    if names == [] {
    } else {
      var es, name, more := Items(t), names[0], DumpSections(t, names[1..]);
      assert PrintableSection(names[0], Buffer(names, section, 0));
      LoadSection(es, name, more + rest, acc, section);
      NameHasNoBracket(name, section);
      hide PrintableSection;
      forall i | 0 <= i < |names[1..]| ensures PrintableSection(names[1..][i], Buffer(names[1..], name, i)) {
        assert PrintableSection(names[i + 1], Buffer(names, section, i + 1));
      }
      LoadSections(t, names[1..], rest, AddAll(SetIn(acc, name, None), SectionEntries(es, name)), name);
    }
  }

  lemma NameHasNoBracket(name: string, section: string)
    requires PrintableSection(name, section)
    ensures ']' !in name
  {
  }

  lemma {:induction false} DumpSectionsCons(t: Table, names: seq<string>, rest: string)
    ensures names == [] ==> DumpSections(t, names) + rest == rest
    ensures names != [] && Present(t, names[0]) ==>
      DumpSections(t, names) + rest == SectionText(Items(t), names[0]) + (DumpSections(t, names[1..]) + rest)
  {
    hide SectionText, Present, Items;
    if names == [] {
      assert "" + rest == rest;
    } else {
      var a, b := DumpSection(t, names[0]), DumpSections(t, names[1..]);
      assert a + b + rest == a + (b + rest);
    }
  }

  lemma {:induction false} LoadSection(es: seq<Entry>, name: string, rest: string, t: Table, section: string)
    requires t != [] && ']' !in section && PrintableSection(name, section) && !HasColon(name)
    requires PrintableEntries(es) && forall i | 0 <= i < |es| && HasColon(es[i].key) :: es[i].val.Some?
    ensures LoadText(SectionText(es, name) + rest, Reading(t, section, "", 0)) ==
      LoadText(rest, Reading(AddAll(SetIn(t, name, None), SectionEntries(es, name)), name, "", 0))
  {
    hide LoadText, AddTo, SetIn, AddAll, SectionEntries, EntriesText, Until, Printable, SectionLine, HasColon;
    var entries := EntriesText(es, name);
    var t' := SetIn(t, name, None);
    var r1 := "\n" + rest;
    var r2 := entries + r1;
    var r3 := SectionLine(name) + "\n" + r2;
    assert SectionText(es, name) + rest == "\n" + r3;
    LoadBlankLine(r3, Reading(t, section, "", 0));
    LoadSectionLine(name, r2, t, section);
    LoadEntries(es, name, r1, t');
    LoadBlankLine(rest, Reading(AddAll(t', SectionEntries(es, name)), name, "", 0));
  }

  // ----- the views of the reloaded dictionary -----

  lemma {:induction false} BlockViews(es: seq<Entry>, name: string, other: string)
    requires !HasColon(name) && !HasColon(other)
    ensures var block := [Entry(name, None)] + SectionEntries(es, name);
      && SectionNames(block) == [name]
      && SectionEntries(block, other) == if other == name then SectionEntries(es, name) else []
  {
    hide Until, HasColon;
    SectionEntriesIn(es, name);
    var head, tail := [Entry(name, None)], SectionEntries(es, name);
    NamesAppend(head, tail);
    EntriesAppend(head, tail, other);
    OneView(Entry(name, None), other);
    InSectionIs(name, other);
    AllInSection(tail, name, other);
  }

  lemma {:induction false} AllInSection(es: seq<Entry>, name: string, other: string)
    requires forall i | 0 <= i < |es| :: InSection(es[i].key, name)
    requires !HasColon(name) && !HasColon(other)
    ensures SectionNames(es) == []
    ensures SectionEntries(es, other) == if other == name then es else []
  {
    hide Until, HasColon, SectionOf, InSection, SectionEntries;
    if es != [] {
      InSectionIs(es[0].key, name);
      InSectionIs(es[0].key, other);
      AllInSection(es[1..], name, other);
      SectionEntriesStep(es, other);
      assert es == [es[0]] + es[1..];
    } else {
      OneView(Entry("", None), other);
    }
  }

  lemma DistinctCons(names: seq<string>)
    requires NamesDistinct(names) && names != []
    ensures NamesDistinct(names[1..]) && !HasColon(names[0]) && names[0] !in names[1..]
    ensures forall name :: name in names <==> name == names[0] || name in names[1..]
  {
    hide HasColon;
    assert names == [names[0]] + names[1..];
  }

  /** The reloaded dictionary has the same sections, and each shows the same entries in order. */
  lemma {:induction false} GroupedViews(es: seq<Entry>, names: seq<string>, other: string)
    requires NamesDistinct(names) && !HasColon(other)
    ensures SectionNames(Grouped(es, names)) == names
    ensures SectionEntries(Grouped(es, names), other) == if other in names then SectionEntries(es, other) else []
  {
    hide HasColon, SectionEntries, SectionNames, NamesDistinct;
    if names == [] {
      OneView(Entry("", None), other);
    } else {
      var block, tail := [Entry(names[0], None)] + SectionEntries(es, names[0]), Grouped(es, names[1..]);
      DistinctCons(names);
      BlockViews(es, names[0], other);
      GroupedViews(es, names[1..], other);
      NamesAppend(block, tail);
      EntriesAppend(block, tail, other);
      assert names == [names[0]] + names[1..];
      var a, b := SectionEntries(block, other), SectionEntries(tail, other);
      assert a + [] == a && [] + b == b;
    }
  }

  lemma {:induction false} TextOfSection(es: seq<Entry>, name: string)
    ensures EntriesText(es, name) == EntriesText(SectionEntries(es, name), name)
  {
    if es != [] {
      TextOfSection(es[1..], name);
      var rest := SectionEntries(es[1..], name);
      if InSection(es[0].key, name) {
        assert SectionEntries(es, name) == [es[0]] + rest && ([es[0]] + rest)[1..] == rest;
      } else {
        assert EntriesText(es, name) == EntriesText(es[1..], name) && SectionEntries(es, name) == rest;
      }
    }
  }

  lemma {:induction false} GroupedMembers(es: seq<Entry>, names: seq<string>, e: Entry)
    requires NamesDistinct(names)
    ensures e in Grouped(es, names) <==>
      (e.val.None? && e.key in names) || (e in es && HasColon(e.key) && SectionOf(e.key) in names)
  {
    hide Until, HasColon, SectionOf, SectionEntries;
    if names != [] {
      GroupedMembers(es, names[1..], e);
      SectionEntriesIn(es, names[0]);
      InSectionIs(e.key, names[0]);
      assert names == [names[0]] + names[1..];
    }
  }

  // ----- the round trip -----

  /** What loading the dump of t builds. */
  function Reloaded(t: Table): Table {
    AddSections(Nones(DICTMINSZ), Items(t), SectionNames(Items(t)))
  }

  lemma {:induction false} ReloadedItems(t: Table)
    requires NoDuplicates(SectionNames(Items(t)))
    ensures Packed(Reloaded(t))
    ensures Items(Reloaded(t)) == Grouped(Items(t), SectionNames(Items(t)))
  {
    hide Items, AddSections, Grouped, SectionNames, NamesDistinct, NoDuplicates;
    var names := SectionNames(Items(t));
    NamesHaveNoColon(Items(t));
    ItemsAllEmpty<Entry>(Nones(DICTMINSZ));
    forall i | 0 <= i < |names| ensures Find(Nones(DICTMINSZ), names[i]) == DICTMINSZ {
      FindIs(Nones(DICTMINSZ), names[i], DICTMINSZ);
    }
    AddSectionsPacked(Nones(DICTMINSZ), Items(t), names);
    assert [] + Grouped(Items(t), names) == Grouped(Items(t), names);
  }

  /** Sections of a well-formed dictionary can be found under their names, and printed. */
  lemma {:induction false} SectionsPresent(t: Table)
    requires WellFormed(t)
    ensures forall i | 0 <= i < |SectionNames(Items(t))| :: Present(t, SectionNames(Items(t))[i])
  {
    hide Items, SectionNames, HasColon, StrLwc, Present, Printable;
    var names := SectionNames(Items(t));
    forall i | 0 <= i < |names| ensures Present(t, names[i]) {
      assert PrintableSection(names[i], Buffer(names, "", i));
      assert |SectionLine(names[i])| == |names[i]| + 2;
      StrLwcFixed(names[i]);
      SectionPresent(t, names[i]);
    }
  }

  /** Loading the dump of a well-formed dictionary succeeds. */
  lemma {:induction false} DumpLoads(t: Table)
    requires WellFormed(t)
    ensures LoadText(DumpText(t), START) == Reading(Reloaded(t), Last(SectionNames(Items(t))), "", 0)
  {
    SectionsPresent(t);
    var es, names := Items(t), SectionNames(Items(t));
    NamesHaveNoColon(es);
    hide LoadText, Items, AddSections, SectionNames, DumpSections, HasColon, Present, SectionOf;
    hide PrintableEntries, PrintableSections;
    LoadSections(t, names, "\n", Nones(DICTMINSZ), "");
    var st := Reading(Reloaded(t), Last(names), "", 0);
    LoadBlankLine("", st);
    assert "\n" + "" == "\n";
    LoadTextEnds(st);
  }

  // ----- bindings -----

  lemma {:induction false} SectionHasNoColon(key: string)
    ensures !HasColon(SectionOf(key))
  {
    UntilIs(SectionOf(key), {':'}, |SectionOf(key)|);
  }

  /** A key with a colon is bound by the entries of its section. */
  lemma {:induction false} BindingInSection(es: seq<Entry>, key: string)
    requires HasColon(key)
    ensures Binding(es, key) == Binding(SectionEntries(es, SectionOf(key)), key)
  {
    hide Binding, HasColon, SectionOf;
    var section := SectionOf(key);
    SectionHasNoColon(key);
    if es == [] {
      assert SectionEntries(es, section) == es;
    } else {
      var e, rest := es[0], es[1..];
      BindingInSection(rest, key);
      InSectionIs(e.key, section);
      InSectionIs(key, section);
      assert es == [e] + rest;
      BindingCons(e, rest, key);
      BindingCons(e, SectionEntries(rest, section), key);
      if !InSection(e.key, section) {
        assert SectionEntries(es, section) == SectionEntries(rest, section);
      }
    }
  }

  predicate NullSections(es: seq<Entry>) {
    forall i | 0 <= i < |es| && !HasColon(es[i].key) :: es[i].val.None?
  }

  /** A key without a colon is bound to NULL iff it is a section. */
  lemma {:induction false} BindingOfSection(es: seq<Entry>, key: string)
    requires !HasColon(key) && NullSections(es)
    ensures Binding(es, key) == if key in SectionNames(es) then Some(None) else None
  {
    hide Binding, HasColon;
    if es == [] {
      BindingCons(Entry("", None), [], key);
    } else {
      var e, rest := es[0], es[1..];
      assert forall i | 0 <= i < |rest| :: rest[i] == es[i + 1];
      BindingOfSection(rest, key);
      assert es == [e] + rest;
      BindingCons(e, rest, key);
    }
  }

  lemma {:induction false} NoOrphans(es: seq<Entry>, names: seq<string>, section: string)
    requires Sectioned(es, names) && section !in names && !HasColon(section)
    ensures SectionEntries(es, section) == []
  {
    hide HasColon, SectionOf;
    if es != [] {
      InSectionIs(es[0].key, section);
      assert forall i | 0 <= i < |es[1..]| :: es[1..][i] == es[i + 1];
      NoOrphans(es[1..], names, section);
    }
  }

  lemma {:induction false} GroupedIsSectioned(es: seq<Entry>, names: seq<string>)
    requires NamesDistinct(names)
    ensures NullSections(Grouped(es, names))
  {
    hide Grouped, HasColon, NamesDistinct;
    var gs := Grouped(es, names);
    forall i | 0 <= i < |gs| && !HasColon(gs[i].key) ensures gs[i].val.None? {
      GroupedMembers(es, names, gs[i]);
      assert gs[i] in gs;
    }
  }

  /** Grouping the entries by section keeps every binding. */
  lemma {:induction false} GroupedBindings(es: seq<Entry>, names: seq<string>, key: string)
    requires names == SectionNames(es) && NamesDistinct(names) && Sectioned(es, names)
    ensures Binding(Grouped(es, names), key) == Binding(es, key)
  {
    var gs := Grouped(es, names);
    assert NullSections(es);
    SectionHasNoColon(key);
    hide Grouped, HasColon, NamesDistinct, SectionOf, Binding, SectionNames, SectionEntries, Sectioned, NullSections;
    if HasColon(key) {
      var section := SectionOf(key);
      BindingInSection(gs, key);
      BindingInSection(es, key);
      GroupedViews(es, names, section);
      if section !in names {
        NoOrphans(es, names, section);
      }
    } else {
      GroupedIsSectioned(es, names);
      BindingOfSection(es, key);
      BindingOfSection(gs, key);
      GroupedViews(es, names, key);
    }
  }

  /** The reloaded dictionary binds every key as t does: to its first value. */
  lemma {:induction false} ReloadedBindings(t: Table, key: string)
    requires WellFormed(t)
    ensures Lookup(Reloaded(t), key) == Lookup(t, key)
  {
    hide Items, SectionNames, Grouped, Reloaded, Lookup, Binding, Sectioned, NamesDistinct, NoDuplicates;
    hide PrintableSections, PrintableEntries;
    ReloadedItems(t);
    NamesHaveNoColon(Items(t));
    GroupedBindings(Items(t), SectionNames(Items(t)), key);
    LookupIsBinding(t, key);
    LookupIsBinding(Reloaded(t), key);
  }

  /** The reloaded dictionary shows the same sections in the same order, and in each section the
      same entries in the same order. */
  lemma {:induction false} ReloadedViews(t: Table, name: string)
    requires WellFormed(t)
    ensures SectionNames(Items(Reloaded(t))) == SectionNames(Items(t))
    ensures name in SectionNames(Items(t)) ==>
      SectionEntries(Items(Reloaded(t)), name) == SectionEntries(Items(t), name)
  {
    assert !HasColon("");
    NamesHaveNoColon(Items(t));
    hide Items, SectionNames, SectionEntries, Until, HasColon, Grouped, Reloaded, WellFormed;
    ReloadedItems(t);
    var names := SectionNames(Items(t));
    GroupedViews(Items(t), names, "");
    if name in names {
      GroupedViews(Items(t), names, name);
    }
  }

  lemma {:induction false} SameDumps(t: Table, r: Table, names: seq<string>)
    requires forall i | 0 <= i < |names| :: SectionEntries(Items(r), names[i]) == SectionEntries(Items(t), names[i])
    requires forall key :: Lookup(r, key) == Lookup(t, key)
    ensures DumpSections(r, names) == DumpSections(t, names)
  {
    hide Items, SectionEntries, EntriesText, Find, StrLwc, SectionLine;
    if names != [] {
      TextOfSection(Items(t), names[0]);
      TextOfSection(Items(r), names[0]);
      assert Lookup(r, StrLwc(names[0])) == Lookup(t, StrLwc(names[0]));
      assert forall i | 0 <= i < |names[1..]| :: names[1..][i] == names[i + 1];
      SameDumps(t, r, names[1..]);
    }
  }

  /** The round trip: loading the dump of a well-formed dictionary gives a dictionary that binds
      every key alike, shows the same sections with the same entries in the same order, and whose
      dump is the identical text. */
  lemma {:induction false} RoundTrip(t: Table)
    requires WellFormed(t)
    ensures var st := LoadText(DumpText(t), START);
      && st.Reading? && st.errs == 0
      && (forall key :: Lookup(st.table, key) == Lookup(t, key))
      && SectionNames(Items(st.table)) == SectionNames(Items(t))
      && (forall name | name in SectionNames(Items(t)) ::
            SectionEntries(Items(st.table), name) == SectionEntries(Items(t), name))
      && DumpText(st.table) == DumpText(t)
  {
    var r, names := Reloaded(t), SectionNames(Items(t));
    assert names != [];
    hide LoadText, Items, SectionNames, SectionEntries, Lookup, DumpSections, Reloaded, WellFormed, PlainText;
    DumpLoads(t);
    forall key ensures Lookup(r, key) == Lookup(t, key) {
      ReloadedBindings(t, key);
    }
    forall name | name in names ensures SectionEntries(Items(r), name) == SectionEntries(Items(t), name) {
      ReloadedViews(t, name);
    }
    ReloadedViews(t, "");
    SectionsPresent(t);
    SameDumps(t, r, names);
  }
}
