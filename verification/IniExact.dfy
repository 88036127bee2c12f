/** When exactly a printed dictionary is read back: the converse of IniRoundTrip. Every printed line
    stores at most one entry, so if all entries come back, each line has stored its own. */
module IniExact {
  import opened Wrappers
  import opened Slots
  import opened Tables
  import opened CStrings
  import opened EntryLists
  import opened IniLines
  import opened IniFiles
  import opened IniSections
  import opened IniRoundTrip
  import opened LoadedFiles
  import opened LoadedViews

  /** Loading the dump gives back all entries: the sections in order, each with its entries in order. */
  ghost predicate ComesBack(t: Table) {
    var st, gs := LoadText(DumpText(t), START), Grouped(Items(t), SectionNames(Items(t)));
    st.Reading? && Items(st.table) == gs && forall e | e in Items(t) :: e in gs
  }

  // ----- entries and stores -----

  /** The stores are these entries, one for one. */
  predicate Match(ws: seq<Store>, gs: seq<Entry>) {
    |ws| == |gs| && forall i | 0 <= i < |ws| :: Entry(ws[i].Key(), ws[i].Val()) == gs[i]
  }

  lemma {:induction false} EntriesMatch(ws: seq<Store>)
    ensures |Entries(ws)| <= |ws|
    ensures |Entries(ws)| == |ws| ==> Match(ws, Entries(ws))
  {
    if ws != [] {
      EntriesMatch(Front(ws));
      assert ws == Front(ws) + [Last(ws)];
      hide First;
    }
  }

  lemma MatchCons(w: Store, ws: seq<Store>, g: Entry, gs: seq<Entry>)
    requires Match([w] + ws, [g] + gs)
    ensures Entry(w.Key(), w.Val()) == g && Match(ws, gs)
  {
    assert ([w] + ws)[0] == w && ([g] + gs)[0] == g;
    forall i | 0 <= i < |ws| ensures Entry(ws[i].Key(), ws[i].Val()) == gs[i] {
      assert ([w] + ws)[i + 1] == ws[i] && ([g] + gs)[i + 1] == gs[i];
    }
  }

  // ----- a line stores at most one entry -----

  predicate Usable(st: Load) {
    st.Reading? ==> st.table != []
  }

  /** A continued line may still store what it has kept. */
  function Slack(st: Load): nat {
    if st.Reading? && st.prefix != "" then 1 else 0
  }

  ghost predicate Bounded(text: string, n: nat) {
    forall st | Usable(st) :: |Stores(text, st)| <= n + Slack(st)
  }

  lemma {:induction false} StoresLine(line: string, rest: string, st: Load)
    requires OneLine(line) && Usable(st)
    ensures !st.Reading? ==> Stores(line + "\n" + rest, st) == []
    ensures st.Reading? ==>
      && Usable(LoadLine(st, line + "\n"))
      && Stores(line + "\n" + rest, st) == LineStores(st, line + "\n") + Stores(rest, LoadLine(st, line + "\n"))
  {
    hide LoadLine, LineOutcome, Outcomes, StoresOf, Stores;
    var text, raw := line + "\n" + rest, line + "\n";
    UntilIs(text, {'\n'}, |line|);
    assert LineEnd(text) == |raw| && text[..|raw|] == raw && text[|raw|..] == rest;
    StoresStep(text, st);
  }

  lemma {:induction false} StoringLineEnds(st: Load, raw: string)
    requires raw != "" && st.Reading? && st.table != []
    ensures LineStores(st, raw) != [] ==> LoadLine(st, raw).Reading? && LoadLine(st, raw).prefix == ""
  {
    hide ParseLine, RStrip, SetIn, AddTo;
  }

  lemma {:induction false} LineBounded(line: string, rest: string, n: nat)
    requires OneLine(line) && Bounded(rest, n)
    ensures Bounded(line + "\n" + rest, n + 1)
  {
    hide LoadLine, LineStores, Stores, OneLine;
    forall st | Usable(st) ensures |Stores(line + "\n" + rest, st)| <= n + 1 + Slack(st) {
      StoresLine(line, rest, st);
      if st.Reading? {
        StoringLineEnds(st, line + "\n");
        LineStoresOne(st, line + "\n");
      }
    }
  }

  lemma LineStoresOne(st: Load, raw: string)
    requires raw != "" && st.Reading?
    ensures |LineStores(st, raw)| <= 1
  {
  }

  lemma {:induction false} BlankBounded(rest: string, n: nat)
    requires Bounded(rest, n)
    ensures Bounded("\n" + rest, n)
  {
    assert "" + "\n" + rest == "\n" + rest && "" + "\n" == "\n";
    hide LoadLine, LineStores, Stores;
    forall st | Usable(st) ensures |Stores("\n" + rest, st)| <= n + Slack(st) {
      StoresLine("", rest, st);
      if st.Reading? {
        StoringLineEnds(st, "\n");
        LineStoresOne(st, "\n");
        if st.prefix == "" {
          BlankIsSkipped(st);
        }
      }
    }
  }

  lemma {:induction false} BlankIsSkipped(st: Load)
    requires st.Reading? && st.prefix == "" && st.table != []
    ensures LineStores(st, "\n") == [] && LoadLine(st, "\n") == st
  {
    assert "" + "\n" == "\n";
  }

  lemma {:induction false} NothingBounded()
    ensures Bounded("", 0)
  {
    forall st | Usable(st) ensures |Stores("", st)| <= Slack(st) {
      StoresStep("", st);
    }
  }

  lemma {:induction false} BlankStores(rest: string, st: Load)
    requires st.Reading? && st.prefix == "" && st.table != []
    ensures Stores("\n" + rest, st) == Stores(rest, st)
  {
    hide LoadLine, LineStores, Stores;
    assert "" + "\n" + rest == "\n" + rest && "" + "\n" == "\n";
    StoresLine("", rest, st);
    BlankIsSkipped(st);
  }

  // ----- a line that goes on stores something else -----

  /** The value a line yields is no longer than what follows its first '=' and the spaces there. */
  lemma {:induction false} ParsedValueIsShort(input: string, section: string)
    requires ParseLine(input, section).Value?
    ensures var line := Strip(input);
      var n := Until(line, {'='});
      n < |line| && |ParseLine(input, section).value| <= |LStrip(line[n + 1..])|
  {
    var line := Strip(input);
    hide Strip, LStrip;
    if ScanValue(line).Some? {
      UnquotedIsShorter(ScanValue(line).value.value);
    }
  }

  lemma {:induction false} LeadingSpace(s: string)
    requires s != "" && s[0] == ' '
    ensures |LStrip(s)| < |s|
  {
  }

  /** In the beginning of an entry's line an '=' is the one behind the key. */
  lemma {:induction false} EqualsBehindHead(line: string, head: string, value: string)
    requires line <= head + "= " + value && '=' !in head
    ensures Until(line, {'='}) < |line| ==> Until(line, {'='}) == |head|
  {
    hide Until;
    var text := head + "= " + value;
    assert forall i | 0 <= i < |line| :: line[i] == text[i];
    assert forall i | 0 <= i < |head| :: text[i] == head[i] != '=';
    assert text[|head|] == '=';
    var n := Until(line, {'='});
    if n < |line| {
      assert n >= |head|;
      assert line[|head|] == '=';
    }
  }

  lemma {:induction false} PartBehindEquals(line: string, head: string, value: string)
    requires |head| < |line| < |head| + 2 + |value| && line <= head + "= " + value && value != ""
    ensures |LStrip(line[|head| + 1..])| < |value|
  {
    hide LStrip;
    var text, t := head + "= " + value, line[|head| + 1..];
    if t != "" {
      assert t[0] == line[|head| + 1] == text[|head| + 1] == ' ';
      LeadingSpace(t);
    } else {
      NothingToStrip();
    }
  }

  lemma NothingToStrip()
    ensures LStrip("") == ""
  {
  }

  lemma {:induction false} PartOfEntryLine(p: string, key: string, value: string)
    requires p < EntryLine(key, value) && value != "" && NameOk(key) && '=' !in key
    ensures var line := Strip(p);
      var n := Until(line, {'='});
      n < |line| ==> |LStrip(line[n + 1..])| < |value|
  {
    var head := Padded(key) + " ";
    assert EntryLine(key, value) == head + "= " + value && head[0] == key[0];
    PaddedKey(key);
    PrefixStays(p);
    hide Strip, EntryLine, Padded, LStrip, Until;
    EqualsBehindHead(Strip(p), head, value);
    if Until(Strip(p), {'='}) < |Strip(p)| {
      PartBehindEquals(Strip(p), head, value);
    }
  }

  lemma {:induction false} PrefixStays(p: string)
    ensures p != "" && !IsSpace(p[0]) ==> Strip(p) <= p
    ensures p == "" ==> Strip(p) == ""
  {
  }

  lemma {:induction false} ShortenedLine(p: string, key: string, value: string, section: string)
    requires p < EntryLine(key, value) && value != ""
    ensures ParseLine(RStrip(p + "\n"), section) != Value(key, value)
  {
    hide EntryLine, Strip, RStrip, LStrip, ParseLine;
    RStripSpaces(p, "\n");
    StripAfterRStrip(p);
    SameParse(p, RStrip(p), section);
    if ParseLine(p, section) == Value(key, value) {
      ParsedKeyIsClean(p, section);
      ParsedValueIsShort(p, section);
      PartOfEntryLine(p, key, value);
    }
  }

  predicate IsPair(w: Store, key: string, value: string) {
    w.Pair? && w.key == key && w.value == value
  }

  /** A state that keeps the beginning of an entry's line does not store that entry first, if the text
      is to make up for the missing store. */
  ghost predicate DiffersFrom(text: string, n: nat, st: Load, key: string, value: string) {
    Usable(st) && st.Reading? && st.prefix < EntryLine(key, value) && value != "" && |Stores(text, st)| == n + 1
    ==> !IsPair(Stores(text, st)[0], key, value)
  }

  ghost predicate Differs(text: string, n: nat) {
    forall st, key, value :: DiffersFrom(text, n, st, key, value)
  }

  /** What may follow an entry's line: at most n stores, and none that makes up for a line that goes
      on. */
  ghost predicate Tail(text: string, n: nat) {
    Bounded(text, n) && Differs(text, n)
  }

  lemma {:induction false} ShortTextDiffers(text: string, m: nat, n: nat)
    requires Bounded(text, m) && m < n
    ensures Tail(text, n)
  {
    hide Stores, EntryLine;
    forall st, key, value ensures DiffersFrom(text, n, st, key, value) {
      if Usable(st) {
        assert |Stores(text, st)| <= m + Slack(st);
      }
    }
    forall st | Usable(st) ensures |Stores(text, st)| <= n + Slack(st) {
      assert |Stores(text, st)| <= m + Slack(st);
    }
  }

  lemma {:induction false} LineTail(line: string, rest: string, n: nat)
    requires OneLine(line) && Bounded(rest, n)
    ensures Tail(line + "\n" + rest, n + 1)
  {
    hide LoadLine, LineStores, Stores, OneLine, EntryLine, Bounded;
    LineBounded(line, rest, n);
    var text, m := line + "\n" + rest, n + 1;
    forall st, key, value ensures DiffersFrom(text, m, st, key, value) {
      if Usable(st) && st.Reading? {
        OneLineStores(line, rest, n, st);
      }
    }
  }

  lemma {:induction false} OneLineStores(line: string, rest: string, n: nat, st: Load)
    requires OneLine(line) && Bounded(rest, n) && Usable(st)
    ensures |Stores(line + "\n" + rest, st)| <= n + 1
  {
    hide LoadLine, LineStores, Stores, OneLine;
    StoresLine(line, rest, st);
    if st.Reading? {
      StoringLineEnds(st, line + "\n");
      LineStoresOne(st, line + "\n");
    }
  }

  lemma {:induction false} NothingTail()
    ensures Tail("", 0)
  {
    NothingBounded();
    hide EntryLine;
    forall st, key, value ensures DiffersFrom("", 0, st, key, value) {
      if Usable(st) {
        StoresStep("", st);
      }
    }
  }

  /** What a line that goes on keeps is a proper beginning of what it kept before. */
  lemma {:induction false} KeptLine(st: Load, raw: string)
    requires raw != "" && st.Reading? && st.table != []
    requires LoadLine(st, raw).Reading? && LoadLine(st, raw).prefix != ""
    ensures var line := RStrip(st.prefix + raw);
      line != "" && line[|line| - 1] == '\\' && LoadLine(st, raw).prefix == line[..|line| - 1]
    ensures LoadLine(st, raw) == st.(prefix := LoadLine(st, raw).prefix)
  {
    hide SetIn, AddTo, ParseLine, RStrip;
  }

  lemma {:induction false} StoredLine(st: Load, raw: string)
    requires raw != "" && st.Reading? && LineStores(st, raw) != []
    ensures Fits(st.prefix, raw)
    ensures var line, w := RStrip(st.prefix + raw), LineStores(st, raw)[0];
      && line != "" && line[|line| - 1] != '\\'
      && match w
         case Header(name) => ParseLine(line, st.section) == Section(name)
         case Pair(section, key, value) =>
           section == st.section && |section| + 1 + |key| <= LINESZ && ParseLine(line, section) == Value(key, value)
         case Setting(_, _) => false
  {
    hide ParseLine, RStrip;
  }

  lemma {:induction false} BlankDiffers(rest: string, n: nat, st: Load, key: string, value: string)
    requires Tail(rest, n)
    ensures DiffersFrom("\n" + rest, n, st, key, value)
  {
    hide LoadLine, LineStores, Stores, EntryLine, RStrip, ParseLine;
    if Usable(st) && st.Reading? && st.prefix < EntryLine(key, value) && value != "" {
      if st.prefix == "" {
        BlankStores(rest, st);
      } else {
        assert "" + "\n" + rest == "\n" + rest && "" + "\n" == "\n";
        StoresLine("", rest, st);
        StoringLineEnds(st, "\n");
        LineStoresOne(st, "\n");
        var st' := LoadLine(st, "\n");
        if LineStores(st, "\n") != [] {
          StoredLine(st, "\n");
          ShortenedLine(st.prefix, key, value, st.section);
        } else if st'.Reading? && st'.prefix != "" {
          KeptLine(st, "\n");
          KeptIsShorter(st.prefix);
          assert DiffersFrom(rest, n, st', key, value);
        } else {
          assert |Stores(rest, st')| <= n + Slack(st');
        }
      }
    }
  }

  lemma {:induction false} KeptIsShorter(p: string)
    ensures var line := RStrip(p + "\n");
      line != "" ==> line[..|line| - 1] < p
  {
    RStripSpaces(p, "\n");
  }

  lemma {:induction false} BlankTail(rest: string, n: nat)
    requires Tail(rest, n)
    ensures Tail("\n" + rest, n)
  {
    BlankBounded(rest, n);
    forall st, key, value ensures DiffersFrom("\n" + rest, n, st, key, value) {
      BlankDiffers(rest, n, st, key, value);
    }
  }

  // ----- every printed line has stored its own entry -----

  /** The entry's line, as one line of the file. */
  predicate OnLine(e: Entry) {
    OneLine(e.key) && (e.val.Some? ==> OneLine(e.val.value))
  }

  function Printed(e: Entry, name: string): string
    requires InSection(e.key, name)
  {
    EntryLine(PrintedKey(e, name), e.val.GetOr(""))
  }

  lemma PrintedIsOneLine(e: Entry, name: string)
    requires InSection(e.key, name) && OnLine(e)
    ensures OneLine(Printed(e, name)) && OneLine(PrintedKey(e, name)) && OneLine(e.val.GetOr(""))
  {
    PrintedOnOneLine(PrintedKey(e, name), e.val.GetOr(""));
  }

  lemma {:induction false} FirstStoreSection(text: string, st: Load)
    requires Usable(st) && Stores(text, st) != []
    ensures st.Reading? && !Stores(text, st)[0].Setting?
    ensures Stores(text, st)[0].Pair? ==> Stores(text, st)[0].section == st.section
    decreases |text|
  {
    hide Stores, LineStores, LoadLine, LineEnd;
    StoresStep(text, st);
    LineInText(text);
    var raw := text[..LineEnd(text)];
    if LineStores(st, raw) != [] {
      StoredLine(st, raw);
    } else {
      LoadLineKeeps(st, raw);
      UnstoredKeepsSection(st, raw);
      FirstStoreSection(text[LineEnd(text)..], LoadLine(st, raw));
    }
  }

  lemma UnstoredKeepsSection(st: Load, raw: string)
    requires raw != "" && st.Reading? && st.table != [] && LineStores(st, raw) == []
    ensures LoadLine(st, raw).Reading? ==> LoadLine(st, raw).section == st.section
  {
    hide ParseLine, RStrip, SetIn, AddTo;
  }

  /** The line of an entry without a value, or with an empty one, does not go on. */
  lemma {:induction false} EmptyDoesNotGoOn(key: string)
    ensures var line := RStrip(EntryLine(key, "") + "\n");
      line != "" && line[|line| - 1] == '='
  {
    var line := EntryLine(key, "");
    RStripSpaces(line, "\n");
    var head := key + Spaces(if |key| < 30 then 30 - |key| else 0) + " =";
    assert line == head + " ";
    RStripSpaces(head, " ");
    assert RStrip(head) == head;
  }

  /** If the stores behind the line and those of the line are the entries to come, the line is stored
      at once: what it would store otherwise is another entry. */
  lemma {:induction false} EntryStoredAtOnce(e: Entry, name: string, rest: string, gs: seq<Entry>, st: Load)
    requires st.Reading? && st.prefix == "" && st.section == name && st.table != []
    requires InSection(e.key, name) && OnLine(e) && Tail(rest, |gs|)
    requires Match(Stores(Printed(e, name) + "\n" + rest, st), [e] + gs)
    ensures LineStores(st, Printed(e, name) + "\n") != []
  {
    hide Stores, LineStores, LoadLine, EntryLine, RStrip, InSection, Printed;
    PrintedIsOneLine(e, name);
    var raw := Printed(e, name) + "\n";
    StoresLine(Printed(e, name), rest, st);
    if LineStores(st, raw) == [] {
      var st' := LoadLine(st, raw);
      DiffersHere(rest, |gs|, st', PrintedKey(e, name), e.val.GetOr(""));
      assert [] + Stores(rest, st') == Stores(rest, st');
      assert |Stores(rest, st')| == |gs| + 1 <= |gs| + Slack(st');
      KeptLine(st, raw);
      assert "" + raw == raw;
      GoesOn(e, name, st);
      FirstStoreSection(rest, st');
      var w := Stores(rest, st')[0];
      assert Entry(w.Key(), w.Val()) == ([e] + gs)[0] == e;
      PairIsEntry(w, e, name);
    }
  }

  lemma DiffersHere(text: string, n: nat, st: Load, key: string, value: string)
    requires Tail(text, n)
    ensures DiffersFrom(text, n, st, key, value)
  {
  }

  lemma {:induction false} GoesOn(e: Entry, name: string, st: Load)
    requires InSection(e.key, name)
    requires var line := RStrip(Printed(e, name) + "\n");
      line != "" && line[|line| - 1] == '\\'
    ensures e.val.Some? && e.val.value != ""
    ensures var line := RStrip(Printed(e, name) + "\n");
      line[..|line| - 1] < EntryLine(PrintedKey(e, name), e.val.value)
  {
    hide RStrip, EntryLine;
    EmptyDoesNotGoOn(PrintedKey(e, name));
    KeptIsShorter(Printed(e, name));
  }

  lemma {:induction false} PairIsEntry(w: Store, e: Entry, name: string)
    requires InSection(e.key, name) && !w.Setting? && Entry(w.Key(), w.Val()) == e && e.val.Some?
    ensures w.Pair? && (w.section == name ==> IsPair(w, PrintedKey(e, name), e.val.value))
  {
    if w.section == name {
      assert w.Key()[|name| + 1..] == w.key;
    }
  }

  predicate Ready(st: Load, section: string) {
    st.Reading? && st.prefix == "" && st.section == section && st.table != []
  }

  /** A line that has stored its own entry is printable. */
  lemma {:induction false} StoredIsPrintable(e: Entry, name: string, st: Load)
    requires Ready(st, name) && InSection(e.key, name) && OnLine(e)
    requires LineStores(st, Printed(e, name) + "\n") != []
    requires var w := LineStores(st, Printed(e, name) + "\n")[0];
      Entry(w.Key(), w.Val()) == e
    ensures e.val.Some? && PrintableEntry(name, PrintedKey(e, name), e.val.value)
  {
    hide EntryLine, RStrip, InSection, ParseLine, OneLine, KeyOk, ValueOk, LooksLikeSection, LineStores;
    var raw := Printed(e, name) + "\n";
    assert st.prefix + raw == raw;
    PrintedIsOneLine(e, name);
    var w := LineStores(st, raw)[0];
    StoredLine(st, raw);
    StoredSection(st, raw);
    SectionLineIsNoEntry(e, name, w, st);
    PairIsEntry(w, e, name);
    EntryReadsBack(PrintedKey(e, name), e.val.value, name);
  }

  lemma {:induction false} StoredSection(st: Load, raw: string)
    requires raw != "" && st.Reading? && st.table != [] && LineStores(st, raw) != []
    ensures LoadLine(st, raw).Reading? && LoadLine(st, raw).prefix == "" && LoadLine(st, raw).table != []
    ensures LoadLine(st, raw).section ==
      if LineStores(st, raw)[0].Header? then LineStores(st, raw)[0].name else st.section
  {
    hide ParseLine, RStrip, SetIn, AddTo;
  }

  lemma {:induction false} EntryReadsBack(key: string, value: string, section: string)
    requires OneLine(key) && OneLine(value)
    requires var line := RStrip(EntryLine(key, value) + "\n");
      line != "" && line[|line| - 1] != '\\' && ParseLine(line, section) == Value(key, value)
    ensures KeyOk(key) && ValueOk(value) && !LooksLikeSection(key, value)
    ensures value != "" ==> value[|value| - 1] != '\\'
  {
    hide EntryLine, RStrip, ParseLine, QuotesOk;
    var line := EntryLine(key, value);
    RStripSpaces(line, "\n");
    StripAfterRStrip(line);
    SameParse(line, RStrip(line), section);
    EntryLineReadsBack(key, value, section);
    LastPrinted(key, value);
  }

  /** An entry without a value is printed as an empty one, and that line is no section header. */
  lemma {:induction false} SectionLineIsNoEntry(e: Entry, name: string, w: Store, st: Load)
    requires st.Reading? && InSection(e.key, name) && !w.Setting? && Entry(w.Key(), w.Val()) == e
    requires w.Header? ==> ParseLine(RStrip(Printed(e, name) + "\n"), st.section).Section?
    ensures w.Pair? && e.val.Some?
  {
    hide RStrip, EntryLine, InSection;
    if w.Header? {
      EmptyIsNoSection(PrintedKey(e, name), st.section);
    }
  }

  lemma {:induction false} EmptyIsNoSection(key: string, section: string)
    ensures !ParseLine(RStrip(EntryLine(key, "") + "\n"), section).Section?
  {
    hide RStrip, EntryLine;
    var line := RStrip(EntryLine(key, "") + "\n");
    EmptyDoesNotGoOn(key);
    LastOfStrip(line);
  }

  lemma {:induction false} LastOfStrip(line: string)
    requires line != "" && !IsSpace(line[|line| - 1])
    ensures Strip(line) != "" && Strip(line)[|Strip(line)| - 1] == line[|line| - 1]
  {
    assert RStrip(line) == line;
    StripCommutes(line);
    LStripIsSuffix(line);
    LStripEmpty(line);
  }

  lemma {:induction false} EntryExact(e: Entry, name: string, rest: string, gs: seq<Entry>, st: Load)
    returns (st': Load)
    requires Ready(st, name) && InSection(e.key, name) && OnLine(e) && Tail(rest, |gs|)
    requires Match(Stores(Printed(e, name) + "\n" + rest, st), [e] + gs)
    ensures e.val.Some? && PrintableEntry(name, PrintedKey(e, name), e.val.value)
    ensures Ready(st', name) && Match(Stores(rest, st'), gs)
  {
    hide Stores, LineStores, LoadLine, EntryLine, RStrip, InSection, Printed, Match, PrintableEntry, Tail, OneLine;
    PrintedIsOneLine(e, name);
    var raw := Printed(e, name) + "\n";
    StoresLine(Printed(e, name), rest, st);
    EntryStoredAtOnce(e, name, rest, gs, st);
    LineStoresOne(st, raw);
    st' := LoadLine(st, raw);
    var w := LineStores(st, raw)[0];
    assert LineStores(st, raw) == [w];
    MatchCons(w, Stores(rest, st'), e, gs);
    StoredIsPrintable(e, name, st);
    StoredSection(st, raw);
  }

  // ----- blocks -----

  predicate Block(bs: seq<Entry>, name: string) {
    forall i | 0 <= i < |bs| :: InSection(bs[i].key, name) && OnLine(bs[i])
  }

  predicate PrintableBlock(bs: seq<Entry>, name: string) {
    forall i | 0 <= i < |bs| ::
      bs[i].val.Some? && InSection(bs[i].key, name) && PrintableEntry(name, PrintedKey(bs[i], name), bs[i].val.value)
  }

  lemma {:induction false} BlockText(bs: seq<Entry>, name: string, rest: string)
    requires Block(bs, name)
    ensures bs == [] ==> EntriesText(bs, name) + rest == rest
    ensures bs != [] ==>
      && Block(bs[1..], name) && InSection(bs[0].key, name) && OnLine(bs[0])
      && EntriesText(bs, name) + rest == Printed(bs[0], name) + "\n" + (EntriesText(bs[1..], name) + rest)
  {
    hide EntryLine, InSection;
    if bs == [] {
      assert "" + rest == rest;
    } else {
      assert forall i | 0 <= i < |bs[1..]| :: bs[1..][i] == bs[i + 1];
      var a, b := Printed(bs[0], name) + "\n", EntriesText(bs[1..], name);
      assert a + b + rest == a + (b + rest);
    }
  }

  lemma {:induction false} BlockTail(bs: seq<Entry>, name: string, rest: string, n: nat)
    requires Block(bs, name) && Tail(rest, n)
    ensures Tail(EntriesText(bs, name) + rest, |bs| + n)
    decreases |bs|
  {
    hide EntriesText, InSection, Printed, Bounded, Differs;
    BlockText(bs, name, rest);
    if bs != [] {
      BlockTail(bs[1..], name, rest, n);
      PrintedIsOneLine(bs[0], name);
      LineTail(Printed(bs[0], name), EntriesText(bs[1..], name) + rest, |bs| - 1 + n);
    }
  }

  lemma {:induction false} BlockExact(bs: seq<Entry>, name: string, rest: string, gs: seq<Entry>, st: Load)
    returns (st': Load)
    requires Ready(st, name) && Block(bs, name) && Tail(rest, |gs|)
    requires Match(Stores(EntriesText(bs, name) + rest, st), bs + gs)
    ensures PrintableBlock(bs, name)
    ensures Ready(st', name) && Match(Stores(rest, st'), gs)
    decreases |bs|
  {
    hide EntriesText, InSection, Printed, Tail, Stores, Match, PrintableEntry, OnLine;
    BlockText(bs, name, rest);
    if bs == [] {
      st' := st;
      assert bs + gs == gs;
    } else {
      assert bs + gs == [bs[0]] + (bs[1..] + gs);
      BlockTail(bs[1..], name, rest, |gs|);
      var st1 := EntryExact(bs[0], name, EntriesText(bs[1..], name) + rest, bs[1..] + gs, st);
      st' := BlockExact(bs[1..], name, rest, gs, st1);
      assert forall i | 1 <= i < |bs| :: bs[i] == bs[1..][i - 1];
    }
  }

  // ----- sections -----

  lemma {:induction false} SectionParts(es: seq<Entry>, name: string, rest: string)
    ensures SectionText(es, name) + rest ==
      "\n" + (SectionLine(name) + "\n" + (EntriesText(SectionEntries(es, name), name) + ("\n" + rest)))
  {
    hide EntriesText, SectionEntries, SectionLine;
    TextOfSection(es, name);
    var a, b := SectionLine(name) + "\n", EntriesText(es, name);
    assert "\n" + (a + (b + "\n")) + rest == "\n" + (a + (b + ("\n" + rest)));
  }

  lemma NameOnLine(name: string)
    requires OneLine(name)
    ensures OneLine(SectionLine(name))
  {
  }

  lemma {:induction false} SectionTail(es: seq<Entry>, name: string, rest: string, n: nat)
    requires OneLine(name) && Block(SectionEntries(es, name), name) && Tail(rest, n)
    ensures Tail(SectionText(es, name) + rest, 1 + |SectionEntries(es, name)| + n)
  {
    hide EntriesText, SectionEntries, SectionLine, SectionText, Bounded, Differs, Block;
    var bs := SectionEntries(es, name);
    SectionParts(es, name, rest);
    BlankTail(rest, n);
    BlockTail(bs, name, "\n" + rest, n);
    NameOnLine(name);
    var behind := EntriesText(bs, name) + ("\n" + rest);
    LineTail(SectionLine(name), behind, |bs| + n);
    BlankTail(SectionLine(name) + "\n" + behind, |bs| + n + 1);
  }

  lemma {:induction false} HeaderTrimmed(name: string)
    ensures RStrip(SectionLine(name) + "\n") == SectionLine(name) != ""
    ensures SectionLine(name)[|SectionLine(name)| - 1] == ']'
  {
    var line := SectionLine(name);
    assert line[|line| - 1] == ']';
    RStripSpaces(line, "\n");
    assert RStrip(line) == line;
  }

  /** The line of a section header does not go on. */
  lemma {:induction false} HeaderDoesNotGoOn(name: string, st: Load)
    requires st.Reading? && st.prefix == "" && st.table != []
    ensures var st' := LoadLine(st, SectionLine(name) + "\n");
      LineStores(st, SectionLine(name) + "\n") == [] && st'.Reading? ==> st'.prefix == ""
    ensures RStrip(SectionLine(name) + "\n") == SectionLine(name)
  {
    hide SectionLine, RStrip, ParseLine, LoadLine, LineStores;
    HeaderTrimmed(name);
    var raw := SectionLine(name) + "\n";
    assert st.prefix + raw == raw;
    if LoadLine(st, raw).Reading? && LoadLine(st, raw).prefix != "" {
      KeptLine(st, raw);
    }
  }

  lemma {:induction false} HeaderStores(name: string, rest: string, g: Entry, gs: seq<Entry>, st: Load)
    requires st.Reading? && st.prefix == "" && st.table != [] && OneLine(name) && Bounded(rest, |gs|)
    requires Match(Stores(SectionLine(name) + "\n" + rest, st), [g] + gs)
    ensures LineStores(st, SectionLine(name) + "\n") != []
    ensures LoadLine(st, SectionLine(name) + "\n").Reading? && LoadLine(st, SectionLine(name) + "\n").table != []
    ensures var w := LineStores(st, SectionLine(name) + "\n")[0];
      Entry(w.Key(), w.Val()) == g && Match(Stores(rest, LoadLine(st, SectionLine(name) + "\n")), gs)
  {
    hide Stores, LineStores, LoadLine, SectionLine, RStrip;
    NameOnLine(name);
    var raw := SectionLine(name) + "\n";
    StoresLine(SectionLine(name), rest, st);
    HeaderDoesNotGoOn(name, st);
    LineStoresOne(st, raw);
    var st' := LoadLine(st, raw);
    assert |Stores(rest, st')| <= |gs| + Slack(st');
    assert LineStores(st, raw) != [];
    var w := LineStores(st, raw)[0];
    assert LineStores(st, raw) == [w];
    MatchCons(w, Stores(rest, st'), g, gs);
    StoredSection(st, raw);
  }

  /** A section line that has stored its own NULL entry is printable. */
  lemma {:induction false} HeaderExact(name: string, rest: string, gs: seq<Entry>, st: Load) returns (st': Load)
    requires st.Reading? && st.prefix == "" && st.table != [] && OneLine(name) && Bounded(rest, |gs|)
    requires ']' !in st.section && Stripped(st.section)
    requires Match(Stores(SectionLine(name) + "\n" + rest, st), [Entry(name, None)] + gs)
    ensures PrintableSection(name, st.section)
    ensures Ready(st', name) && Match(Stores(rest, st'), gs)
  {
    hide Stores, LineStores, LoadLine, ParseLine, RStrip, Match, Bounded, OneLine, NameOk;
    var raw := SectionLine(name) + "\n";
    assert st.prefix + raw == raw;
    HeaderStores(name, rest, Entry(name, None), gs, st);
    StoredLine(st, raw);
    StoredSection(st, raw);
    HeaderDoesNotGoOn(name, st);
    SectionLineReadsBack(name, st.section);
    StripFixed(st.section);
    st' := LoadLine(st, raw);
  }

  lemma {:induction false} PrintableIsClean(name: string, section: string)
    requires PrintableSection(name, section)
    ensures ']' !in name && Stripped(name)
  {
  }

  lemma {:induction false} SectionExact(es: seq<Entry>, name: string, rest: string, gs: seq<Entry>, st: Load)
    returns (st': Load)
    requires st.Reading? && st.prefix == "" && st.table != [] && OneLine(name) && Tail(rest, |gs|)
    requires ']' !in st.section && Stripped(st.section) && Block(SectionEntries(es, name), name)
    requires Match(Stores(SectionText(es, name) + rest, st), [Entry(name, None)] + SectionEntries(es, name) + gs)
    ensures PrintableSection(name, st.section)
    ensures PrintableBlock(SectionEntries(es, name), name)
    ensures Ready(st', name) && Match(Stores(rest, st'), gs)
  {
    hide EntriesText, SectionEntries, SectionLine, SectionText, Bounded, Differs, Block, Stores, Match, PrintableEntry;
    hide PrintableSection, OneLine, InSection, Stripped;
    var bs := SectionEntries(es, name);
    SectionParts(es, name, rest);
    BlankTail(rest, |gs|);
    BlockTail(bs, name, "\n" + rest, |gs|);
    var behind := EntriesText(bs, name) + ("\n" + rest);
    BlankStores(SectionLine(name) + "\n" + behind, st);
    assert [Entry(name, None)] + bs + gs == [Entry(name, None)] + (bs + gs);
    var st1 := HeaderExact(name, behind, bs + gs, st);
    st' := BlockExact(bs, name, "\n" + rest, gs, st1);
    BlankStores(rest, st');
  }

  predicate Blocks(es: seq<Entry>, names: seq<string>) {
    forall i | 0 <= i < |names| :: OneLine(names[i]) && Block(SectionEntries(es, names[i]), names[i])
  }

  lemma GroupedLength(es: seq<Entry>, names: seq<string>)
    requires names != []
    ensures |Grouped(es, names)| == 1 + |SectionEntries(es, names[0])| + |Grouped(es, names[1..])|
  {
    hide SectionEntries;
  }

  lemma {:induction false} BlocksCons(es: seq<Entry>, names: seq<string>)
    requires names != [] && Blocks(es, names)
    ensures OneLine(names[0]) && Block(SectionEntries(es, names[0]), names[0]) && Blocks(es, names[1..])
  {
    hide OneLine, Block, SectionEntries;
    assert forall i | 0 <= i < |names[1..]| :: names[1..][i] == names[i + 1];
  }

  lemma NoSections(t: Table, rest: string)
    ensures DumpSections(t, []) + rest == rest && Grouped(Items(t), []) == []
  {
    assert "" + rest == rest;
  }

  lemma {:induction false} SectionsTail(t: Table, names: seq<string>, rest: string, n: nat)
    requires Blocks(Items(t), names) && Tail(rest, n)
    ensures Tail(DumpSections(t, names) + rest, |Grouped(Items(t), names)| + n)
    decreases |names|
  {
    hide SectionEntries, SectionText, Bounded, Differs, Block, Blocks, Items, Present, OneLine, DumpSections, Grouped;
    if names == [] {
      NoSections(t, rest);
    } else {
      var es, name, more := Items(t), names[0], DumpSections(t, names[1..]) + rest;
      BlocksCons(es, names);
      GroupedLength(es, names);
      SectionsTail(t, names[1..], rest, n);
      var m := |Grouped(es, names[1..])| + n;
      if Present(t, name) {
        SectionTail(es, name, more, m);
        DumpSectionsCons(t, names, rest);
      } else {
        AbsentPrintsNothing(t, names);
        ShortTextDiffers(more, m, 1 + |SectionEntries(es, name)| + m);
      }
    }
  }

  lemma BoundedHere(text: string, n: nat, st: Load)
    requires Bounded(text, n) && Usable(st)
    ensures |Stores(text, st)| <= n + Slack(st)
  {
    hide Stores;
  }

  lemma MatchLength(ws: seq<Store>, gs: seq<Entry>)
    requires Match(ws, gs)
    ensures |ws| == |gs|
  {
  }

  lemma {:induction false} SectionIsPresent(t: Table, names: seq<string>, rest: string, gs: seq<Entry>, st: Load)
    requires names != [] && Usable(st) && Slack(st) == 0
    requires Bounded(DumpSections(t, names[1..]) + rest, |Grouped(Items(t), names[1..])| + |gs|)
    requires Match(Stores(DumpSections(t, names) + rest, st), Grouped(Items(t), names) + gs)
    ensures Present(t, names[0])
  {
    hide Stores, Present, SectionEntries, DumpSections, Bounded, Match, Items, Slack;
    AbsentPrintsNothing(t, names);
    BoundedHere(DumpSections(t, names[1..]) + rest, |Grouped(Items(t), names[1..])| + |gs|, st);
    MatchLength(Stores(DumpSections(t, names) + rest, st), Grouped(Items(t), names) + gs);
    assert |Grouped(Items(t), names)| > |Grouped(Items(t), names[1..])|;
  }

  lemma AbsentPrintsNothing(t: Table, names: seq<string>)
    requires names != []
    ensures !Present(t, names[0]) ==> DumpSections(t, names) == DumpSections(t, names[1..])
  {
    hide Present;
    assert "" + DumpSections(t, names[1..]) == DumpSections(t, names[1..]);
  }

  lemma BuffersCons(names: seq<string>, section: string)
    requires names != [] && PrintableSection(names[0], section) && PrintableSections(names[1..], names[0])
    ensures PrintableSections(names, section)
  {
    hide PrintableSection;
    forall i | 0 <= i < |names| ensures PrintableSection(names[i], Buffer(names, section, i)) {
      if i > 0 {
        assert PrintableSection(names[1..][i - 1], Buffer(names[1..], names[0], i - 1));
      }
    }
  }

  lemma {:induction false} SectionsExact(t: Table, names: seq<string>, rest: string, gs: seq<Entry>, st: Load)
    requires st.Reading? && st.prefix == "" && st.table != [] && ']' !in st.section && Stripped(st.section)
    requires Blocks(Items(t), names) && Tail(rest, |gs|)
    requires Match(Stores(DumpSections(t, names) + rest, st), Grouped(Items(t), names) + gs)
    ensures PrintableSections(names, st.section)
    ensures forall i | 0 <= i < |names| :: PrintableBlock(SectionEntries(Items(t), names[i]), names[i])
    decreases |names|
  {
    hide SectionEntries, SectionText, Bounded, Differs, Block, Items, Stores, Match, OneLine, Present, PrintableSection;
    hide PrintableBlock, Stripped;
    if names != [] {
      var es, name, more := Items(t), names[0], DumpSections(t, names[1..]) + rest;
      var tail := Grouped(es, names[1..]) + gs;
      assert forall i | 0 <= i < |names[1..]| :: names[1..][i] == names[i + 1];
      SectionsTail(t, names[1..], rest, |gs|);
      assert Grouped(es, names) + gs == [Entry(name, None)] + SectionEntries(es, name) + tail;
      SectionIsPresent(t, names, rest, gs, st);
      DumpSectionsCons(t, names, rest);
      var st' := SectionExact(es, name, more, tail, st);
      PrintableIsClean(name, st.section);
      SectionsExact(t, names[1..], rest, gs, st');
      BuffersCons(names, st.section);
      assert forall i | 1 <= i < |names| :: names[i] == names[1..][i - 1];
    }
  }

  // ----- exactly the well-formed dictionaries come back -----

  /** Everything a file loads to is on one line. */
  predicate StoreOnLine(w: Store) {
    OneLine(w.Key()) && (w.Val().Some? ==> OneLine(w.Val().value))
  }

  lemma {:induction false} StripKeepsOut(s: string, c: char)
    requires c !in s
    ensures c !in Strip(s) && c !in RStrip(s)
  {
    LStripIsSuffix(s);
    assert forall i | 0 <= i < |LStrip(s)| :: LStrip(s)[i] in s;
  }

  lemma {:induction false} ParsedNameOnLine(input: string, section: string)
    requires OneLine(input) && OneLine(section) && ParseLine(input, section).Section?
    ensures OneLine(ParseLine(input, section).name)
  {
    StripKeepsOut(input, '\n');
    var line := Strip(input);
    hide Strip, Name, ScanValue, ScanComment, ScanBare;
    var n := Until(line[1..], {']'});
    NameKeepsOut(if n > 0 then line[1..][..n] else section, '\n');
  }

  /** Whichever format reads the line, the key is what is in front of the first '='. */
  lemma ScannedKey(line: string)
    ensures ScanValue(line).Some? ==> ScanValue(line).value.key == line[..Until(line, {'='})]
    ensures ScanComment(line).Some? ==> ScanComment(line).value.key == line[..Until(line, {'='})]
    ensures ScanBare(line).Some? ==> ScanBare(line).value.key == line[..Until(line, {'='})]
  {
    hide LStrip;
  }

  lemma {:induction false} ParsedPairOnLine(input: string, section: string)
    requires OneLine(input) && ParseLine(input, section).Value?
    ensures OneLine(ParseLine(input, section).key) && OneLine(ParseLine(input, section).value)
  {
    StripKeepsOut(input, '\n');
    var line := Strip(input);
    ValueOnLine(line);
    NameKeepsOut(line[..Until(line, {'='})], '\n');
    ScannedKey(line);
    hide Strip, Name, Unquoted, Until, ScanValue, ScanComment, ScanBare;
  }

  lemma {:induction false} ParsedIsOnLine(input: string, section: string)
    requires OneLine(input) && OneLine(section)
    ensures match ParseLine(input, section)
      case Section(name) => OneLine(name)
      case Value(key, value) => OneLine(key) && OneLine(value)
      case _ => true
  {
    hide ParseLine, OneLine;
    match ParseLine(input, section)
    case Section(_) => ParsedNameOnLine(input, section);
    case Value(_, _) => ParsedPairOnLine(input, section);
    case _ =>
  }

  lemma {:induction false} RawOnLine(line: string)
    requires OneLine(line) && ScanValue(line).Some?
    ensures OneLine(ScanValue(line).value.value)
  {
    var n := Until(line, {'='});
    LStripIsSuffix(line[n + 1..]);
    var rest := LStrip(line[n + 1..]);
    hide LStrip, Until;
    assert forall i | 0 <= i < |rest| :: rest[i] in line;
  }

  lemma {:induction false} ValueOnLine(line: string)
    requires OneLine(line)
    ensures ScanValue(line).Some? ==> OneLine(Unquoted(ScanValue(line).value.value))
  {
    hide ScanValue, Strip;
    if ScanValue(line).Some? {
      RawOnLine(line);
      StripKeepsOut(ScanValue(line).value.value, '\n');
    }
  }

  /** The part of a line buffer that is parsed has no newline. */
  lemma {:induction false} TrimmedIsOnLine(prefix: string, raw: string)
    requires OneLine(prefix) && raw != "" && OneLine(raw[..|raw| - 1])
    ensures OneLine(RStrip(prefix + raw))
  {
    var head := prefix + raw[..|raw| - 1];
    assert prefix + raw == head + raw[|raw| - 1..];
    if raw[|raw| - 1] == '\n' {
      RStripSpaces(head, raw[|raw| - 1..]);
      StripKeepsOut(head, '\n');
    } else {
      StripKeepsOut(prefix + raw, '\n');
    }
  }

  lemma {:induction false} LineIsOnLine(text: string)
    requires text != ""
    ensures OneLine(text[..LineEnd(text)][..LineEnd(text) - 1])
  {
  }

  lemma {:induction false} LineStoresOnLine(st: Load, raw: string)
    requires raw != "" && st.Reading? && st.table != [] && OneLine(st.section) && OneLine(st.prefix)
    requires OneLine(raw[..|raw| - 1])
    ensures forall i | 0 <= i < |LineStores(st, raw)| :: StoreOnLine(LineStores(st, raw)[i])
    ensures var st' := LoadLine(st, raw);
      st'.Reading? ==> OneLine(st'.section) && OneLine(st'.prefix)
  {
    hide RStrip, ParseLine, SetIn, AddTo;
    var line := RStrip(st.prefix + raw);
    TrimmedIsOnLine(st.prefix, raw);
    ParsedIsOnLine(line, st.section);
  }

  lemma {:induction false} StoresOnLine(text: string, st: Load)
    requires Usable(st) && (st.Reading? ==> OneLine(st.section) && OneLine(st.prefix))
    ensures forall i | 0 <= i < |Stores(text, st)| :: StoreOnLine(Stores(text, st)[i])
    decreases |text|
  {
    hide Stores, LineStores, LoadLine, LineEnd, StoreOnLine, OneLine;
    StoresStep(text, st);
    if text != "" && st.Reading? {
      LineInText(text);
      LineIsOnLine(text);
      var raw := text[..LineEnd(text)];
      LineStoresOnLine(st, raw);
      LoadLineKeeps(st, raw);
      StoresOnLine(text[LineEnd(text)..], LoadLine(st, raw));
    }
  }

  lemma {:induction false} EntriesOnLine(ws: seq<Store>)
    requires forall i | 0 <= i < |ws| :: StoreOnLine(ws[i])
    ensures forall i | 0 <= i < |Entries(ws)| :: OnLine(Entries(ws)[i])
  {
    if ws != [] {
      assert forall i | 0 <= i < |Front(ws)| :: Front(ws)[i] == ws[i];
      EntriesOnLine(Front(ws));
      assert StoreOnLine(Last(ws));
      hide OneLine, First;
    }
  }

  lemma {:induction false} GroupedBlocks(es: seq<Entry>, names: seq<string>)
    requires NamesDistinct(names)
    requires forall i | 0 <= i < |Grouped(es, names)| :: OnLine(Grouped(es, names)[i])
    ensures Blocks(es, names)
  {
    hide OneLine, Grouped, SectionEntries, HasColon, SectionOf, InSection;
    var gs := Grouped(es, names);
    forall i | 0 <= i < |names| ensures OneLine(names[i]) && Block(SectionEntries(es, names[i]), names[i]) {
      var name, bs := names[i], SectionEntries(es, names[i]);
      GroupedMembers(es, names, Entry(name, None));
      SectionEntriesIn(es, name);
      forall j | 0 <= j < |bs| ensures InSection(bs[j].key, name) && OnLine(bs[j]) {
        assert bs[j] in bs;
        InSectionIs(bs[j].key, name);
        GroupedMembers(es, names, bs[j]);
      }
    }
  }

  /** What the stores of a dump that comes back are. */
  lemma {:induction false} DumpStores(t: Table)
    requires var names := SectionNames(Items(t)); names != [] && NamesDistinct(names)
    requires ComesBack(t)
    ensures var es, names := Items(t), SectionNames(Items(t));
      Blocks(es, names) && Match(Stores(DumpSections(t, names) + "\n", START), Grouped(es, names))
  {
    hide LoadText, Items, SectionNames, Stores, Grouped, DumpSections, Entries, Blocks, NamesDistinct, Ordered;
    var es, names, ws := Items(t), SectionNames(Items(t)), Stores(DumpText(t), START);
    LoadedTable(DumpText(t));
    StartIsUsable();
    StoresOnLine(DumpText(t), START);
    EntriesOnLine(ws);
    GroupedBlocks(es, names);
    EntriesMatch(ws);
    NothingTail();
    BlankTail("", 0);
    assert "\n" + "" == "\n";
    SectionsTail(t, names, "\n", 0);
    assert |ws| <= |Grouped(es, names)| + Slack(START);
  }

  lemma StartIsUsable()
    ensures Usable(START) && START.Reading? && OneLine(START.section) && OneLine(START.prefix) && Slack(START) == 0
  {
  }

  lemma {:induction false} BlocksArePrintable(es: seq<Entry>, names: seq<string>)
    requires forall i | 0 <= i < |names| ::
      !HasColon(names[i]) && PrintableBlock(SectionEntries(es, names[i]), names[i])
    requires forall i | 0 <= i < |es| && HasColon(es[i].key) :: SectionOf(es[i].key) in names
    ensures PrintableEntries(es) && forall i | 0 <= i < |es| && HasColon(es[i].key) :: es[i].val.Some?
  {
    hide HasColon, SectionOf, SectionEntries, PrintableEntry, InSection;
    forall i | 0 <= i < |es| && HasColon(es[i].key) ensures Printable(es[i]) && es[i].val.Some? {
      var name := SectionOf(es[i].key);
      var bs := SectionEntries(es, name);
      InSectionIs(es[i].key, name);
      SectionEntriesIn(es, name);
      assert es[i] in bs;
      var j :| 0 <= j < |bs| && bs[j] == es[i];
    }
  }

  /** If every entry comes back, every line of the dump was printable. */
  lemma {:induction false} OnlyWellFormed(t: Table)
    requires var names := SectionNames(Items(t)); names != [] && NamesDistinct(names)
    requires ComesBack(t)
    ensures WellFormed(t)
  {
    hide LoadText, Items, SectionNames, Stores, Grouped, DumpSections, HasColon, SectionOf, DumpText;
    hide PrintableBlock, PrintableEntries;
    var es, names := Items(t), SectionNames(Items(t));
    DumpStores(t);
    NothingTail();
    BlankTail("", 0);
    assert "\n" + "" == "\n" && Grouped(es, names) + [] == Grouped(es, names);
    StartIsUsable();
    StartIsClean();
    SectionsExact(t, names, "\n", [], START);
    forall i | 0 <= i < |es|
      ensures if HasColon(es[i].key) then SectionOf(es[i].key) in names else es[i].val.None?
    {
      assert es[i] in es;
      GroupedMembers(es, names, es[i]);
      NamesIn(es, es[i].key);
    }
    BlocksArePrintable(es, names);
  }

  lemma StartIsClean()
    ensures ']' !in START.section && Stripped(START.section) && START.prefix == "" && START.table != []
    ensures START.section == ""
  {
  }

  lemma {:induction false} EntriesGrouped(es: seq<Entry>, names: seq<string>, e: Entry)
    requires names == SectionNames(es) && NamesDistinct(names) && Sectioned(es, names) && e in es
    ensures e in Grouped(es, names)
  {
    hide SectionNames, Grouped, HasColon, SectionOf, NamesDistinct;
    var i :| 0 <= i < |es| && es[i] == e;
    GroupedMembers(es, names, e);
    NamesIn(es, e.key);
  }

  lemma {:induction false} WellFormedComesBack(t: Table)
    requires WellFormed(t)
    ensures ComesBack(t)
  {
    var es, names := Items(t), SectionNames(Items(t));
    assert Sectioned(es, names);
    DumpLoads(t);
    ReloadedItems(t);
    NamesHaveNoColon(es);
    hide Items, SectionNames, Grouped, WellFormed, LoadText, NamesDistinct, Sectioned, DumpText;
    forall e | e in es ensures e in Grouped(es, names) {
      EntriesGrouped(es, names, e);
    }
  }

  lemma {:induction false} EmptyComesBack(t: Table)
    requires Items(t) == []
    ensures ComesBack(t)
  {
    ItemsAllEmpty<Entry>(Nones(DICTMINSZ));
    StartIsClean();
    LoadTextEnds(START);
  }

  lemma {:induction false} NamesAreGrouped(es: seq<Entry>, names: seq<string>, name: string)
    requires name in names
    ensures Entry(name, None) in Grouped(es, names)
  {
    if name != names[0] {
      assert names == [names[0]] + names[1..];
      NamesAreGrouped(es, names[1..], name);
    }
  }

  lemma NullBehindNone(e: Entry, bs: seq<Entry>, gs: seq<Entry>)
    requires NullsFirst([e] + bs + gs) && e.val.None?
    ensures e !in gs && NullsFirst(gs)
  {
    var all := [e] + bs + gs;
    forall j | 0 <= j < |gs| ensures gs[j] != e {
      assert all[1 + |bs| + j] == gs[j] && all[0] == e;
    }
    forall i, j | 0 <= i < j < |gs| && gs[j].val.None? ensures gs[i].key != gs[j].key {
      assert all[1 + |bs| + i] == gs[i] && all[1 + |bs| + j] == gs[j];
    }
  }

  /** A section that is printed twice is not stored twice. */
  lemma {:induction false} NamesOnce(es: seq<Entry>, names: seq<string>)
    requires NullsFirst(Grouped(es, names))
    ensures NoDuplicates(names)
  {
    hide SectionEntries;
    if names != [] {
      NullBehindNone(Entry(names[0], None), SectionEntries(es, names[0]), Grouped(es, names[1..]));
      hide Grouped, NullsFirst;
      NamesOnce(es, names[1..]);
      if names[0] in names[1..] {
        NamesAreGrouped(es, names[1..], names[0]);
      }
      assert forall i | 1 <= i < |names| :: names[i] == names[1..][i - 1];
    }
  }

  /** The round trip, exactly: a dictionary comes back from its dump iff it is empty or well-formed. */
  lemma {:induction false} RoundTripExact(t: Table)
    ensures ComesBack(t) <==> Items(t) == [] || WellFormed(t)
  {
    var es, names := Items(t), SectionNames(Items(t));
    hide LoadText, DumpText, Items, SectionNames, WellFormed, NullsFirst, Grouped, Stores, Entries, Ordered;
    if es == [] {
      EmptyComesBack(t);
    } else if WellFormed(t) {
      WellFormedComesBack(t);
    } else if ComesBack(t) {
      LoadedTable(DumpText(t));
      NullsComeFirst(Stores(DumpText(t), START));
      NamesOnce(es, names);
      NamesHaveNoColon(es);
      SomeName(es, names);
      OnlyWellFormed(t);
    }
  }

  /** Without sections nothing comes back. */
  lemma SomeName(es: seq<Entry>, names: seq<string>)
    requires es != [] && forall e | e in es :: e in Grouped(es, names)
    ensures names != []
  {
    assert es[0] in es;
  }

  /** An entry without a value whose key has a colon never comes back. Such is every section that
      config_foreach_container looks for. */
  lemma {:induction false} ColonNameIsLost(t: Table, name: string)
    requires Entry(name, None) in Items(t) && HasColon(name)
    ensures !ComesBack(t)
  {
    hide Items, ComesBack, SectionNames, HasColon, SectionOf, PrintableSections, PrintableEntries;
    RoundTripExact(t);
  }

  // ----- dictionaries of two entries -----

  function Two(a: Entry, b: Entry): Table {
    [Some(a), Some(b)]
  }

  lemma {:induction false} TwoItems(a: Entry, b: Entry)
    ensures Items(Two(a, b)) == [a, b]
  {
    ItemsAllFull(Two(a, b));
  }

  lemma {:induction false} TwoNames(a: Entry, b: Entry)
    ensures SectionNames([a, b]) ==
      (if HasColon(a.key) then [] else [a.key]) + (if HasColon(b.key) then [] else [b.key])
  {
    hide HasColon;
    assert [a, b] == [a] + [b];
    NamesAppend([a], [b]);
    OneView(a, "");
    OneView(b, "");
  }

  lemma NamesOfExamples()
    ensures !HasColon("a") && !HasColon("") && HasColon("a:k")
    ensures SectionOf("a:k") == "a" && "a:k"[Until("a:k", {':'}) + 1..] == "k"
    ensures PrintableSection("", "") && PrintableSection("a", "") && !PrintableSection("", "a")
    ensures !ValueOk(" v")
  {
    UntilIs("a", {':'}, 1);
    UntilIs("a:k", {':'}, 1);
    UntilIs("", {':'}, 0);
  }

  /** A value with a space in front does not come back. */
  lemma {:induction false} LeadingSpaceIsLost()
    ensures !ComesBack(Two(Entry("a", None), Entry("a:k", Some(" v"))))
  {
    var a, b := Entry("a", None), Entry("a:k", Some(" v"));
    NamesOfExamples();
    TwoItems(a, b);
    TwoNames(a, b);
    hide Items, SectionNames, ComesBack, Until, HasColon, SectionOf, PrintableSection, ValueOk, KeyOk, Two, Sectioned;
    assert [a, b][1] == b;
    assert ["a"] + [] == ["a"];
    RoundTripExact(Two(a, b));
  }

  /** An empty section name comes back in front of all others, where "[]" finds an empty buffer. */
  lemma {:induction false} EmptySectionComesFirst()
    ensures ComesBack(Two(Entry("", None), Entry("a", None)))
  {
    var a, b := Entry("", None), Entry("a", None);
    NamesOfExamples();
    TwoItems(a, b);
    TwoNames(a, b);
    hide Items, SectionNames, ComesBack, Until, HasColon, SectionOf, PrintableSection, Printable, Two;
    var names := ["", "a"];
    assert [""] + ["a"] == names && names[0] == "" && names[1] == "a";
    assert Buffer(names, "", 0) == "" && Buffer(names, "", 1) == "";
    assert PrintableSections(names, "");
    RoundTripExact(Two(a, b));
  }

  /** Behind another section it does not. */
  lemma {:induction false} EmptySectionOnlyFirst()
    ensures !ComesBack(Two(Entry("a", None), Entry("", None)))
  {
    var a, b := Entry("a", None), Entry("", None);
    NamesOfExamples();
    TwoItems(a, b);
    TwoNames(a, b);
    hide Items, SectionNames, ComesBack, Until, HasColon, SectionOf, PrintableSection, Printable, Two, Sectioned;
    var names := ["a", ""];
    assert ["a"] + [""] == names && names[0] == "a" && names[1] == "";
    assert !PrintableSection(names[1], Buffer(names, "", 1));
    RoundTripExact(Two(a, b));
  }
}
