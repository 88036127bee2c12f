/** The section views of iniparser.c and its printer. What they show depends only on the entries of
    the dictionary in slot order. */
module IniSections {
  import opened Wrappers
  import opened Slots
  import opened Tables
  import opened Dictionaries
  import opened CStrings
  import opened IniLines

  // ----- the views -----

  /** strchr(key, ':') != NULL. */
  predicate HasColon(key: string) {
    Until(key, {':'}) < |key|
  }

  /** strncmp(key, "name:", strlen(name) + 1) == 0. */
  predicate InSection(key: string, name: string) {
    name + ":" <= key
  }

  function SectionNames(es: seq<Entry>): seq<string> {
    if es == [] then [] else (if HasColon(es[0].key) then [] else [es[0].key]) + SectionNames(es[1..])
  }

  function SectionEntries(es: seq<Entry>, name: string): seq<Entry> {
    if es == [] then [] else (if InSection(es[0].key, name) then [es[0]] else []) + SectionEntries(es[1..], name)
  }

  /** iniparser_find_entry: any entry with the lower-case form of this key. */
  predicate Present(t: Table, key: string) {
    Find(t, StrLwc(key)) < |t|
  }

  // ----- the printer -----

  /** The part of an entry's line behind "name:". */
  function PrintedKey(e: Entry, name: string): string
    requires InSection(e.key, name)
  {
    e.key[|name| + 1..]
  }

  function EntryText(e: Entry, name: string): string {
    if InSection(e.key, name) then EntryLine(PrintedKey(e, name), e.val.GetOr("")) + "\n" else ""
  }

  function EntriesText(es: seq<Entry>, name: string): string {
    if es == [] then "" else EntryText(es[0], name) + EntriesText(es[1..], name)
  }

  function SectionText(es: seq<Entry>, name: string): string {
    "\n" + (SectionLine(name) + "\n" + (EntriesText(es, name) + "\n"))
  }

  /** The file without sections: "%s = %s", where the C library prints NULL as "(null)". */
  function PlainText(es: seq<Entry>): string {
    if es == [] then "" else es[0].key + " = " + es[0].val.GetOr("(null)") + "\n" + PlainText(es[1..])
  }

  /** iniparser_dumpsection_ini prints nothing for a name it does not find. */
  function DumpSection(t: Table, name: string): string {
    if Present(t, name) then SectionText(Items(t), name) else ""
  }

  function DumpSections(t: Table, names: seq<string>): string {
    if names == [] then "" else DumpSection(t, names[0]) + DumpSections(t, names[1..])
  }

  function DumpText(t: Table): string {
    var names := SectionNames(Items(t));
    if names == [] then PlainText(Items(t)) else DumpSections(t, names) + "\n"
  }

  // ----- the views, front to back -----

  lemma {:induction false} NamesAppend(a: seq<Entry>, b: seq<Entry>)
    ensures SectionNames(a + b) == SectionNames(a) + SectionNames(b)
  {
    if a == [] {
      assert a + b == b;
    } else {
      assert (a + b)[1..] == a[1..] + b;
      NamesAppend(a[1..], b);
    }
  }

  lemma Assoc<T>(a: seq<T>, b: seq<T>, c: seq<T>)
    ensures a + (b + c) == a + b + c
  {
  }

  lemma {:induction false} TextAppend(a: seq<Entry>, b: seq<Entry>, name: string)
    ensures EntriesText(a + b, name) == EntriesText(a, name) + EntriesText(b, name)
  {
    hide EntryText;
    if a == [] {
      assert a + b == b;
    } else {
      assert (a + b)[0] == a[0] && (a + b)[1..] == a[1..] + b;
      TextAppend(a[1..], b, name);
      Assoc(EntryText(a[0], name), EntriesText(a[1..], name), EntriesText(b, name));
    }
  }

  lemma SectionEntriesStep(es: seq<Entry>, name: string)
    requires es != []
    ensures SectionEntries(es, name) ==
      (if InSection(es[0].key, name) then [es[0]] else []) + SectionEntries(es[1..], name)
  {
    hide InSection;
  }

  lemma {:induction false} EntriesAppend(a: seq<Entry>, b: seq<Entry>, name: string)
    ensures SectionEntries(a + b, name) == SectionEntries(a, name) + SectionEntries(b, name)
  {
    hide InSection;
    if a == [] {
      assert a + b == b;
    } else {
      hide SectionEntries;
      SectionEntriesStep(a, name);
      SectionEntriesStep(a + b, name);
      assert (a + b)[0] == a[0] && (a + b)[1..] == a[1..] + b;
      EntriesAppend(a[1..], b, name);
      Assoc(if InSection(a[0].key, name) then [a[0]] else [], SectionEntries(a[1..], name), SectionEntries(b, name));
    }
  }

  lemma {:induction false} PlainAppend(a: seq<Entry>, b: seq<Entry>)
    ensures PlainText(a + b) == PlainText(a) + PlainText(b)
  {
    if a == [] {
      assert a + b == b;
    } else {
      assert (a + b)[1..] == a[1..] + b;
      PlainAppend(a[1..], b);
      Assoc(a[0].key + " = " + a[0].val.GetOr("(null)") + "\n", PlainText(a[1..]), PlainText(b));
    }
  }

  lemma {:induction false} PrefixStep(t: Table, j: nat, name: string)
    requires j < |t|
    ensures var a, b := Items(t[..j]), Items(t[..j + 1]);
      && |SectionNames(b)| == |SectionNames(a)| + |SectionNames(One(t[j]))|
      && SectionNames(b) == SectionNames(a) + SectionNames(One(t[j]))
      && SectionEntries(b, name) == SectionEntries(a, name) + SectionEntries(One(t[j]), name)
      && EntriesText(b, name) == EntriesText(a, name) + EntriesText(One(t[j]), name)
      && PlainText(b) == PlainText(a) + PlainText(One(t[j]))
  {
    hide Items, SectionNames, SectionEntries, EntriesText, PlainText;
    ItemsPrefix(t, j);
    NamesAppend(Items(t[..j]), One(t[j]));
    EntriesAppend(Items(t[..j]), One(t[j]), name);
    TextAppend(Items(t[..j]), One(t[j]), name);
    PlainAppend(Items(t[..j]), One(t[j]));
  }

  lemma {:induction false} OneView(e: Entry, name: string)
    ensures SectionNames([e]) == if HasColon(e.key) then [] else [e.key]
    ensures SectionEntries([e], name) == if InSection(e.key, name) then [e] else []
    ensures EntriesText([e], name) == EntryText(e, name)
    ensures PlainText([e]) == e.key + " = " + e.val.GetOr("(null)") + "\n"
    ensures SectionNames([]) == [] && SectionEntries([], name) == []
    ensures EntriesText([], name) == "" && PlainText([]) == ""
  {
    assert [e][1..] == [];
  }

  /** What slot j adds to the views of the slots before it. */
  lemma {:induction false} SlotSeen(d: Dictionary, j: nat, name: string)
    requires d.Valid() && j < d.size
    ensures j < |d.table| && j < d.key.Length && j < d.val.Length
    ensures var a, b := Items(d.table[..j]), Items(d.table[..j + 1]);
      if d.key[j].None? then
        && SectionNames(b) == SectionNames(a) && SectionEntries(b, name) == SectionEntries(a, name)
        && EntriesText(b, name) == EntriesText(a, name) && PlainText(b) == PlainText(a)
      else
        var e := Entry(d.key[j].value, d.val[j]);
        && SectionNames(b) == SectionNames(a) + (if HasColon(e.key) then [] else [e.key])
        && SectionEntries(b, name) == SectionEntries(a, name) + (if InSection(e.key, name) then [e] else [])
        && EntriesText(b, name) == EntriesText(a, name) + EntryText(e, name)
        && PlainText(b) == PlainText(a) + (e.key + " = " + e.val.GetOr("(null)") + "\n")
  {
    d.At(j);
    PrefixStep(d.table, j, name);
    if d.key[j].Some? {
      OneView(Entry(d.key[j].value, d.val[j]), name);
    } else {
      OneView(Entry("", None), name);
    }
  }

  /** The views before the first slot and behind the last one. */
  lemma {:induction false} SlotEnds(d: Dictionary, name: string)
    requires d.Valid()
    ensures d.table[..d.size] == d.table
    ensures var a := Items(d.table[..0]);
      SectionNames(a) == [] && SectionEntries(a, name) == [] && EntriesText(a, name) == "" && PlainText(a) == ""
  {
  }

  lemma {:induction false} ViewsGrow(d: Dictionary, j: nat, name: string)
    requires d.Valid() && j <= d.size
    ensures SectionNames(Items(d.table[..j])) <= SectionNames(Items(d.table))
    ensures SectionEntries(Items(d.table[..j]), name) <= SectionEntries(Items(d.table), name)
  {
    hide Items, SectionNames, SectionEntries, EntriesText;
    var t := d.table;
    assert t == t[..j] + t[j..];
    ItemsAppend(t[..j], t[j..]);
    NamesAppend(Items(t[..j]), Items(t[j..]));
    EntriesAppend(Items(t[..j]), Items(t[j..]), name);
  }

  /** A colon-free key is the name numbered by the names in the slots before it. */
  lemma {:induction false} NthName(d: Dictionary, i: nat)
    requires d.Valid() && i < d.size && d.key[i].Some? && !HasColon(d.key[i].value)
    ensures var n, names := |SectionNames(Items(d.table[..i]))|, SectionNames(Items(d.table));
      n < |names| && names[n] == d.key[i].value
  {
    hide Items, SectionNames, SectionEntries, EntriesText, PlainText, Represents, EntryText, HasColon;
    SlotSeen(d, i, "");
    ViewsGrow(d, i + 1, "");
  }

  // ----- the loops over the slots -----

  /** iniparser_getstring: `def` only for an absent key. */
  method GetString(d: Dictionary, key: string, def: Value) returns (r: Value)
    requires d.Valid()
    ensures r == Lookup(d.table, StrLwc(key)).GetOr(def)
  {
    var lc := Strlwc(key);
    r := d.Get(lc, def);
  }

  /** iniparser_set. */
  method SetString(d: Dictionary, entry: string, v: Value) returns (r: int)
    requires d.Valid()
    modifies d, d.key, d.val, d.hash
    ensures d.Valid() && d.table == SetIn(old(d.table), StrLwc(entry), v) && r == 0
    ensures fresh(d.Arrays() - old(d.Arrays()))
  {
    var lc := Strlwc(entry);
    r := d.Set(lc, v);
  }

  /** iniparser_find_entry. */
  method FindEntry(d: Dictionary, entry: string) returns (found: bool)
    requires d.Valid()
    ensures found == Present(d.table, entry)
    ensures found <==> exists i :: 0 <= i < |d.table| && d.table[i].Some? && d.table[i].value.key == StrLwc(entry)
  {
    var lc := Strlwc(entry);
    var i := d.FindSlot(lc);
    found := i < d.size;
  }

  /** iniparser_getnsec. */
  method GetNSec(d: Dictionary) returns (nsec: nat)
    requires d.Valid()
    ensures nsec == |SectionNames(Items(d.table))|
  {
    hide Items, SectionNames, SectionEntries, EntriesText, PlainText, Represents, Until;
    nsec := 0;
    SlotEnds(d, "");
    var i := 0;
    while i < d.size
      invariant 0 <= i <= d.size
      invariant nsec == |SectionNames(Items(d.table[..i]))|
    {
      SlotSeen(d, i, "");
      if d.key[i].Some? && !HasColon(d.key[i].value) {
        nsec := nsec + 1;
      }
      i := i + 1;
    }
  }

  /** iniparser_getsecname: the n-th name, or NULL. */
  method GetSecName(d: Dictionary, n: int) returns (r: Option<string>)
    requires d.Valid()
    ensures 0 <= n < |SectionNames(Items(d.table))| ==> r == Some(SectionNames(Items(d.table))[n])
    ensures !(0 <= n < |SectionNames(Items(d.table))|) ==> r == None
  {
    hide Items, SectionNames, SectionEntries, EntriesText, PlainText, Represents, EntryText, HasColon, InSection;
    r := None;
    if n < 0 {
      return;
    }
    var foundsec := 0;
    SlotEnds(d, "");
    var i := 0;
    while i < d.size
      invariant 0 <= i <= d.size && foundsec <= n
      invariant foundsec == |SectionNames(Items(d.table[..i]))|
    {
      SlotSeen(d, i, "");
      if d.key[i].Some? {
        if !HasColon(d.key[i].value) {
          if foundsec == n {
            NthName(d, i);
            return Some(d.key[i].value);
          }
          foundsec := foundsec + 1;
        }
      }
      i := i + 1;
    }
  }

  /** iniparser_getsecnkeys. */
  method GetSecNKeys(d: Dictionary, s: string) returns (nkeys: nat)
    requires d.Valid() && |s| < LINESZ
    ensures nkeys == if Present(d.table, s) then |SectionEntries(Items(d.table), s)| else 0
  {
    hide Items, SectionNames, SectionEntries, EntriesText, PlainText, Represents, Until, Find;
    nkeys := 0;
    var found := FindEntry(d, s);
    if !found {
      return;
    }
    var keym := s + ":";
    SlotEnds(d, s);
    var j := 0;
    while j < d.size
      invariant 0 <= j <= d.size
      invariant nkeys == |SectionEntries(Items(d.table[..j]), s)|
    {
      SlotSeen(d, j, s);
      if d.key[j].Some? && keym <= d.key[j].value {
        nkeys := nkeys + 1;
      }
      j := j + 1;
    }
  }

  /** iniparser_getseckeys: the array it allocates is filled exactly, never overrun. */
  method GetSecKeys(d: Dictionary, s: string) returns (keys: array?<string>)
    requires d.Valid() && |s| < LINESZ
    ensures keys != null <==> Present(d.table, s)
    ensures keys != null ==> fresh(keys)
    ensures keys != null ==> var es := SectionEntries(Items(d.table), s);
      keys.Length == |es| && forall i | 0 <= i < |es| :: keys[i] == es[i].key
  {
    hide Items, SectionNames, SectionEntries, EntriesText, PlainText, Represents, Until, Find;
    keys := null;
    var found := FindEntry(d, s);
    if !found {
      return;
    }
    var nkeys := GetSecNKeys(d, s);
    var a := new string[nkeys];
    var keym := s + ":";
    SlotEnds(d, s);
    var i, j := 0, 0;
    while j < d.size
      invariant 0 <= j <= d.size
      invariant i == |SectionEntries(Items(d.table[..j]), s)| <= nkeys
      invariant forall k | 0 <= k < i :: a[k] == SectionEntries(Items(d.table[..j]), s)[k].key
    {
      SlotSeen(d, j, s);
      ViewsGrow(d, j + 1, s);
      if d.key[j].Some? && keym <= d.key[j].value {
        a[i] := d.key[j].value;
        i := i + 1;
      }
      j := j + 1;
    }
    keys := a;
  }

  /** iniparser_dumpsection_ini; the text goes to the end of `out`. */
  method DumpSectionIni(d: Dictionary, s: string, out: string) returns (f: string)
    requires d.Valid() && |s| < LINESZ
    ensures f == out + DumpSection(d.table, s)
  {
    hide Items, SectionNames, SectionEntries, EntriesText, PlainText, Represents, Until, Find, EntryLine, SectionLine;
    f := out;
    var found := FindEntry(d, s);
    if !found {
      return;
    }
    f := f + "\n" + SectionLine(s) + "\n";
    ghost var head := f;
    var keym := s + ":";
    SlotEnds(d, s);
    var j := 0;
    while j < d.size
      invariant 0 <= j <= d.size
      invariant f == head + EntriesText(Items(d.table[..j]), s)
    {
      SlotSeen(d, j, s);
      if d.key[j].Some? && keym <= d.key[j].value {
        f := f + (EntryLine(d.key[j].value[|s| + 1..], d.val[j].GetOr("")) + "\n");
      }
      j := j + 1;
    }
    f := f + "\n";
  }

  /** iniparser_dump_ini. */
  method DumpIni(d: Dictionary) returns (f: string)
    requires d.Valid()
    requires forall name | name in SectionNames(Items(d.table)) :: |name| < LINESZ
    ensures f == DumpText(d.table)
  {
    hide Items, SectionNames, SectionEntries, EntriesText, PlainText, Represents, Until, DumpSection;
    f := "";
    var nsec := GetNSec(d);
    if nsec < 1 {
      f := DumpPlain(d);
      return;
    }
    ghost var names := SectionNames(Items(d.table));
    var i := 0;
    assert names[..0] == [];
    while i < nsec
      invariant 0 <= i <= nsec
      invariant f == DumpSections(d.table, names[..i])
    {
      var secname := GetSecName(d, i);
      f := DumpSectionIni(d, secname.value, f);
      DumpSectionsSnoc(d.table, names[..i], names[i]);
      assert names[..i + 1] == names[..i] + [names[i]];
      i := i + 1;
    }
    assert names[..nsec] == names;
    f := f + "\n";
  }

  method DumpPlain(d: Dictionary) returns (f: string)
    requires d.Valid()
    ensures f == PlainText(Items(d.table))
  {
    hide Items, SectionNames, SectionEntries, EntriesText, PlainText, Represents, Until;
    f := "";
    SlotEnds(d, "");
    var i := 0;
    while i < d.size
      invariant 0 <= i <= d.size
      invariant f == PlainText(Items(d.table[..i]))
    {
      SlotSeen(d, i, "");
      if d.key[i].Some? {
        f := f + (d.key[i].value + " = " + d.val[i].GetOr("(null)") + "\n");
      }
      i := i + 1;
    }
  }

  lemma {:induction false} DumpSectionsSnoc(t: Table, names: seq<string>, name: string)
    ensures DumpSections(t, names + [name]) == DumpSections(t, names) + DumpSection(t, name)
  {
    hide DumpSection;
    if names == [] {
      assert [] + [name] == [name] && [name][1..] == [];
    } else {
      assert (names + [name])[1..] == names[1..] + [name];
      DumpSectionsSnoc(t, names[1..], name);
      var x, y, z := DumpSection(t, names[0]), DumpSections(t, names[1..]), DumpSection(t, name);
      assert x + (y + z) == x + y + z;
    }
  }
}
