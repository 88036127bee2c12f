/** What iniparser_load leaves behind, told by the lines of the file alone, and what config_load puts
    on top of it. */
module LoadedFiles {
  import opened Wrappers
  import opened Slots
  import opened Tables
  import opened CStrings
  import opened EntryLists
  import opened IniLines
  import opened IniFiles

  // ----- the lines that store something -----

  /** A section line; a value line under the section then in force ("" before the first); or an
      override or a default that config_load sets. */
  datatype Store =
    | Header(name: string)
    | Pair(section: string, key: string, value: string)
    | Setting(entry: string, setting: Value)
  {
    function Key(): string {
      match this
      case Header(name) => name
      case Pair(section, key, _) => section + ":" + key
      case Setting(entry, _) => entry
    }

    function Val(): Value {
      match this
      case Header(_) => None
      case Pair(_, _, value) => Some(value)
      case Setting(_, setting) => setting
    }
  }

  /** What comes of a physical line. Skipped: a blank line, a comment, or a line that goes on. */
  datatype Outcome = Stored(store: Store) | Failed | Skipped

  function LineOutcome(st: Load, raw: string): Outcome
    requires raw != "" && st.Reading?
  {
    var line := RStrip(st.prefix + raw);
    if !Fits(st.prefix, raw) || |st.prefix + raw| == 1 || line == "" || line[|line| - 1] == '\\' then Skipped
    else
      match ParseLine(line, st.section)
      case Section(name) => Stored(Header(name))
      case Value(key, value) =>
        if |st.section| + 1 + |key| > LINESZ then Skipped else Stored(Pair(st.section, key, value))
      case Error => Failed
      case _ => Skipped
  }

  function Outcomes(text: string, st: Load): seq<Outcome>
    requires st.Reading? ==> st.table != []
    decreases |text|
  {
    if text == "" || !st.Reading? then []
    else
      var raw := text[..LineEnd(text)];
      [LineOutcome(st, raw)] + Outcomes(text[LineEnd(text)..], LoadLine(st, raw))
  }

  function StoresOf(os: seq<Outcome>): seq<Store> {
    if os == [] then [] else (if os[0].Stored? then [os[0].store] else []) + StoresOf(os[1..])
  }

  function Stores(text: string, st: Load): seq<Store>
    requires st.Reading? ==> st.table != []
  {
    StoresOf(Outcomes(text, st))
  }

  function LineStores(st: Load, raw: string): (ws: seq<Store>)
    requires raw != "" && st.Reading?
    ensures |ws| <= 1
  {
    if LineOutcome(st, raw).Stored? then [LineOutcome(st, raw).store] else []
  }

  lemma {:induction false} StoresStep(text: string, st: Load)
    requires st.Reading? ==> st.table != []
    ensures text == "" || !st.Reading? ==> Stores(text, st) == []
    ensures text != "" && st.Reading? ==>
      Stores(text, st) ==
      LineStores(st, text[..LineEnd(text)]) +
      Stores(text[LineEnd(text)..], LoadLine(st, text[..LineEnd(text)]))
  {
    hide LoadLine, LineOutcome, LineEnd;
    if text != "" && st.Reading? {
      var o := LineOutcome(st, text[..LineEnd(text)]);
      var os := Outcomes(text[LineEnd(text)..], LoadLine(st, text[..LineEnd(text)]));
      assert Outcomes(text, st) == [o] + os;
      assert ([o] + os)[1..] == os;
    }
  }

  // ----- the entries they leave -----

  /** A value line always adds an entry; a section line or a setting replaces the first entry of its
      key, if there is one. */
  function After(es: seq<Entry>, w: Store): seq<Entry> {
    if w.Pair? then es + [Entry(w.Key(), w.Val())] else Put(es, w.Key(), w.Val())
  }

  function Entries(ws: seq<Store>): seq<Entry> {
    if ws == [] then [] else After(Entries(Front(ws)), Last(ws))
  }

  /** The section in force behind these lines. */
  function Current(ws: seq<Store>): string {
    if ws == [] then "" else if Last(ws).Header? then Last(ws).name else Current(Front(ws))
  }

  /** Every value line is under the section in force, and strlwc keeps every key. */
  predicate Ordered(ws: seq<Store>) {
    ws != [] ==>
      && Ordered(Front(ws))
      && CleanKey(Last(ws).Key())
      && (Last(ws).Pair? ==> Last(ws).section == Current(Front(ws)))
  }

  // ----- loading -----

  lemma {:induction false} HeaderStored(t: Table, name: string)
    requires t != [] && Packed(t)
    ensures Packed(SetIn(t, name, None)) && Items(SetIn(t, name, None)) == After(Items(t), Header(name))
  {
    hide Items, SetIn, Packed, Put;
    PutPacked(t, name, None);
  }

  lemma {:induction false} PairStored(t: Table, section: string, key: string, value: string)
    requires t != [] && Packed(t)
    ensures var t' := AddTo(t, section + ":" + key, Some(value));
      Packed(t') && Items(t') == After(Items(t), Pair(section, key, value))
  {
    hide Items, AddTo, Packed;
    AddPacked(t, section + ":" + key, Some(value));
  }

  /** The loading state after these stores. */
  predicate Follows(st: Load, done: seq<Store>) {
    st.Reading? ==>
      && st.table != [] && Packed(st.table) && Items(st.table) == Entries(done)
      && st.section == Current(done) && CleanKey(st.section) && Ordered(done)
  }

  lemma {:induction false} Snoc(ws: seq<Store>, w: Store)
    ensures Entries(ws + [w]) == After(Entries(ws), w)
    ensures Current(ws + [w]) == if w.Header? then w.name else Current(ws)
    ensures Ordered(ws + [w]) <==> Ordered(ws) && CleanKey(w.Key()) && (w.Pair? ==> w.section == Current(ws))
  {
    assert Front(ws + [w]) == ws && Last(ws + [w]) == w;
  }

  lemma {:induction false} NameClean(s: string)
    requires |s| <= LINESZ
    ensures CleanKey(Name(s)) && |Name(s)| <= LINESZ
  {
    NameIsShort(s);
    NameIsClean(s);
    StrLwcFixed(Name(s));
  }

  lemma {:induction false} ParsedNamesAreClean(line: string, section: string)
    requires |line| <= LINESZ && CleanKey(section)
    ensures match ParseLine(line, section)
      case Section(name) => CleanKey(name)
      case Value(key, _) => |section| + 1 + |key| <= LINESZ ==> CleanKey(section + ":" + key)
      case _ => true
  {
    hide ParseLine, CleanKey;
    match ParseLine(line, section)
    case Section(name) =>
      SectionNameIsClean(line, section);
    case Value(key, _) =>
      ParsedKeyIsClean(line, section);
      if |section| + 1 + |key| <= LINESZ {
        JoinedIsClean(section, key);
      }
    case _ =>
  }

  lemma {:induction false} JoinedIsClean(section: string, key: string)
    requires CleanKey(section) && IsLower(key) && |section| + 1 + |key| <= LINESZ
    ensures CleanKey(section + ":" + key)
  {
    StrLwcFixed(section);
    StrLwcFixed(section + ":" + key);
    hide StrLwc;
  }

  /** A section's name is read from the line, or is the one in the buffer. */
  lemma {:induction false} SectionNameRead(line: string, section: string)
    requires ParseLine(line, section).Section?
    ensures exists s: string :: (|s| <= |line| || s == section) && ParseLine(line, section) == Section(Name(s))
  {
    StripIsShorter(line);
    hide Strip, ScanValue, ScanComment, ScanBare, Name, Until;
    var l := Strip(line);
    var n := Until(l[1..], {']'});
    NotLonger(l, n);
    var s := if n > 0 then l[1..][..n] else section;
    assert ParseLine(line, section) == Section(Name(s));
  }

  lemma NotLonger(l: string, n: nat)
    ensures l != "" && n == Until(l[1..], {']'}) ==> n <= |l[1..]| && |l[1..][..n]| <= |l|
  {
  }

  lemma {:induction false} SectionNameIsClean(line: string, section: string)
    requires |line| <= LINESZ && CleanKey(section) && ParseLine(line, section).Section?
    ensures CleanKey(ParseLine(line, section).name)
  {
    SectionNameRead(line, section);
    StrLwcFixed(section);
    hide ParseLine, Name, StrLwc;
    var s :| (|s| <= |line| || s == section) && ParseLine(line, section) == Section(Name(s));
    NameClean(s);
  }

  lemma {:induction false} LineFollows(st: Load, raw: string, done: seq<Store>)
    requires raw != "" && st.Reading? && Follows(st, done)
    ensures Follows(LoadLine(st, raw), done + LineStores(st, raw))
  {
    hide Items, SetIn, AddTo, Packed, After, Entries, Current, Ordered, ParseLine, CleanKey, RStrip;
    var buffer := st.prefix + raw;
    var line := RStrip(buffer);
    assert done + [] == done;
    if Fits(st.prefix, raw) && |buffer| != 1 && line != "" && line[|line| - 1] != '\\' {
      assert |line| <= LINESZ by {
        RStripIsShorter(buffer);
      }
      ParsedNamesAreClean(line, st.section);
      match ParseLine(line, st.section)
      case Section(name) =>
        HeaderStored(st.table, name);
        Snoc(done, Header(name));
      case Value(key, value) =>
        PairStored(st.table, st.section, key, value);
        Snoc(done, Pair(st.section, key, value));
      case _ =>
    }
  }

  lemma {:induction false} RStripIsShorter(s: string)
    ensures |RStrip(s)| <= |s|
  {
  }

  lemma {:induction false} TextFollows(text: string, st: Load, done: seq<Store>)
    requires Follows(st, done) && (st.Reading? ==> st.table != [])
    ensures Follows(LoadText(text, st), done + Stores(text, st))
    decreases |text|
  {
    hide Follows, LineStores, LoadLine, Stores, LineEnd;
    assert done + [] == done;
    StoresStep(text, st);
    if text != "" && st.Reading? {
      LineInText(text);
      var raw, rest := text[..LineEnd(text)], text[LineEnd(text)..];
      LineFollows(st, raw, done);
      LoadTextSteps(text, st);
      var st' := LoadLine(st, raw);
      LoadLineKeeps(st, raw);
      TextFollows(rest, st', done + LineStores(st, raw));
      assert done + LineStores(st, raw) + Stores(rest, st') == done + (LineStores(st, raw) + Stores(rest, st'));
    }
  }

  lemma LineInText(text: string)
    requires text != ""
    ensures 0 < LineEnd(text) <= |text|
  {
  }

  lemma LoadLineKeeps(st: Load, raw: string)
    requires raw != "" && st.Reading? && st.table != []
    ensures LoadLine(st, raw).Reading? ==> LoadLine(st, raw).table != []
  {
  }

  /** The table a file loads to, told by its lines. */
  lemma {:induction false} LoadedTable(text: string)
    ensures var st, ws := LoadText(text, START), Stores(text, START);
      st.Reading? ==>
        && st.table != [] && Packed(st.table) && Items(st.table) == Entries(ws)
        && Ordered(ws) && st.section == Current(ws)
  {
    hide LoadText, Stores, Items;
    assert START.Reading? && START.table == Nones(DICTMINSZ);
    ItemsAllEmpty<Entry>(Nones(DICTMINSZ));
    TextFollows(text, START, []);
    assert [] + Stores(text, START) == Stores(text, START);
  }

  // ----- syntax errors -----

  /** Every line that fails has one behind it that stores. */
  predicate ErrorsCovered(os: seq<Outcome>) {
    forall i | 0 <= i < |os| && os[i].Failed? :: exists j :: i < j < |os| && os[j].Stored?
  }

  predicate SomeStored(os: seq<Outcome>) {
    exists j :: 0 <= j < |os| && os[j].Stored?
  }

  lemma {:induction false} SomeStoredCons(o: Outcome, os: seq<Outcome>)
    ensures SomeStored([o] + os) <==> o.Stored? || SomeStored(os)
  {
    var all := [o] + os;
    assert all[0] == o;
    if j :| 0 <= j < |os| && os[j].Stored? {
      assert all[j + 1].Stored?;
    }
    if j :| 0 <= j < |all| && all[j].Stored? {
      assert j > 0 ==> os[j - 1].Stored?;
    }
  }

  lemma {:induction false} CoveredTail(o: Outcome, os: seq<Outcome>)
    requires ErrorsCovered([o] + os)
    ensures ErrorsCovered(os) && (o.Failed? ==> SomeStored(os))
  {
    var all := [o] + os;
    forall i | 0 <= i < |os| && os[i].Failed? ensures exists j :: i < j < |os| && os[j].Stored? {
      assert all[i + 1].Failed?;
      var j :| i + 1 < j < |all| && all[j].Stored?;
      assert os[j - 1].Stored?;
    }
    if o.Failed? {
      assert all[0].Failed?;
      var j :| 0 < j < |all| && all[j].Stored?;
      assert os[j - 1].Stored?;
    }
  }

  lemma StoredBehind(o: Outcome, os: seq<Outcome>, i: nat, k: nat)
    requires i <= k < |os| && os[k].Stored?
    ensures exists j :: i < j < |[o] + os| && ([o] + os)[j].Stored?
  {
    assert ([o] + os)[k + 1] == os[k];
  }

  lemma {:induction false} CoveredAt(o: Outcome, os: seq<Outcome>, i: nat)
    requires ErrorsCovered(os) && (o.Failed? ==> SomeStored(os))
    requires i < |[o] + os| && ([o] + os)[i].Failed?
    ensures exists j :: i < j < |[o] + os| && ([o] + os)[j].Stored?
  {
    if i == 0 {
      var k :| 0 <= k < |os| && os[k].Stored?;
      StoredBehind(o, os, i, k);
    } else {
      assert os[i - 1].Failed?;
      var k :| i - 1 < k < |os| && os[k].Stored?;
      StoredBehind(o, os, i, k);
    }
  }

  lemma {:induction false} CoveredAll(o: Outcome, os: seq<Outcome>)
    requires ErrorsCovered(os) && (o.Failed? ==> SomeStored(os))
    ensures ErrorsCovered([o] + os)
  {
    var all := [o] + os;
    forall i | 0 <= i < |all| && all[i].Failed? ensures exists j :: i < j < |all| && all[j].Stored? {
      CoveredAt(o, os, i);
    }
  }

  lemma {:induction false} CoveredCons(o: Outcome, os: seq<Outcome>)
    ensures ErrorsCovered([o] + os) <==> ErrorsCovered(os) && (o.Failed? ==> SomeStored(os))
  {
    hide ErrorsCovered, SomeStored;
    if ErrorsCovered([o] + os) {
      CoveredTail(o, os);
    }
    if ErrorsCovered(os) && (o.Failed? ==> SomeStored(os)) {
      CoveredAll(o, os);
    }
  }

  lemma {:induction false} LineErrors(st: Load, raw: string)
    requires raw != "" && st.Reading? && st.table != [] && LoadLine(st, raw).Reading?
    ensures LoadLine(st, raw).errs ==
      match LineOutcome(st, raw)
      case Stored(_) => 0
      case Failed => st.errs + 1
      case Skipped => st.errs
  {
    hide SetIn, AddTo, ParseLine, RStrip;
  }

  lemma {:induction false} NotReadingStays(text: string, st: Load)
    requires !st.Reading?
    ensures LoadText(text, st) == st
  {
  }

  lemma {:induction false} ErrorsOfText(text: string, st: Load)
    requires st.Reading? && st.table != [] && LoadText(text, st).Reading?
    ensures LoadText(text, st).errs == 0 <==>
      ErrorsCovered(Outcomes(text, st)) && (st.errs == 0 || SomeStored(Outcomes(text, st)))
    decreases |text|
  {
    hide LineOutcome, LoadLine, LineEnd, ErrorsCovered, SomeStored;
    if text == "" {
      NothingFails();
    } else {
      LineInText(text);
      var raw, rest := text[..LineEnd(text)], text[LineEnd(text)..];
      var st' := LoadLine(st, raw);
      LoadLineKeeps(st, raw);
      if !st'.Reading? {
        NotReadingStays(rest, st');
      }
      LineErrors(st, raw);
      ErrorsOfText(rest, st');
      SomeStoredCons(LineOutcome(st, raw), Outcomes(rest, st'));
      CoveredCons(LineOutcome(st, raw), Outcomes(rest, st'));
    }
  }

  lemma NothingFails()
    ensures ErrorsCovered([]) && !SomeStored([])
  {
  }

  /** iniparser_load gives a dictionary iff every line with a syntax error has a later line that
      stores something: only the errors behind the last section or value count. */
  lemma {:induction false} ErrorsOfFile(text: string)
    requires LoadText(text, START).Reading?
    ensures LoadText(text, START).errs == 0 <==> ErrorsCovered(Outcomes(text, START))
  {
    hide LoadText, Outcomes, ErrorsCovered;
    ErrorsOfText(text, START);
  }

  // ----- what config_load puts on top -----

  function Settings(es: seq<Entry>): (ws: seq<Store>)
    ensures |ws| == |es| && forall i | 0 <= i < |es| :: ws[i] == Setting(es[i].key, es[i].val)
  {
    seq(|es|, i requires 0 <= i < |es| => Setting(es[i].key, es[i].val))
  }

  /** The defaults that find their key absent or NULL. */
  function WithDefaults(ws: seq<Store>, es: seq<Entry>): seq<Store>
    decreases |es|
  {
    if es == [] then ws
    else
      WithDefaults(
        if Binding(Entries(ws), es[0].key).GetOr(None).None? then ws + [Setting(es[0].key, es[0].val)] else ws, es[1..])
  }

  /** The lines of the file, then the overrides, then the defaults that apply. */
  function ConfigStores(ws: seq<Store>, overrides: Table, defaults: Table): seq<Store> {
    WithDefaults(ws + Settings(Items(overrides)), Items(defaults))
  }
}
