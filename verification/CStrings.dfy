/** The C string handling of iniparser.c: character classes, strlwc, strstrip, scanning. */
module CStrings {
  // ASCIILINESZ
  const LINESZ: nat := 1024

  /** isspace in the C locale: blank, and tab to carriage return. */
  predicate IsSpace(c: char) {
    c == ' ' || '\t' <= c <= '\r'
  }

  function ToLower(c: char): char {
    if 'A' <= c <= 'Z' then (c as int + 32) as char else c
  }

  function Lower(s: string): (r: string)
    ensures |r| == |s| && forall i | 0 <= i < |s| :: r[i] == ToLower(s[i])
  {
    seq(|s|, i requires 0 <= i < |s| => ToLower(s[i]))
  }

  predicate IsLower(s: string) {
    forall i | 0 <= i < |s| :: ToLower(s[i]) == s[i]
  }

  const UPPER := "ABCDEFGHIJKLMNOPQRSTUVWXYZ"
  const LOWER := "abcdefghijklmnopqrstuvwxyz"

  /** isspace: blank, tab, newline, vertical tab, form feed and carriage return. */
  lemma SpaceTable(c: char)
    ensures IsSpace(c) <==> c in {' ', '\t', '\n', '\U{0b}', '\U{0c}', '\r'}
  {
  }

  /** tolower: each capital letter becomes its small one, and nothing else changes. */
  lemma {:induction false} CaseTable(c: char)
    ensures c in UPPER <==> 'A' <= c <= 'Z'
    ensures if c in UPPER then exists i :: 0 <= i < 26 && UPPER[i] == c && LOWER[i] == ToLower(c) else ToLower(c) == c
  {
    Letters();
    hide UPPER, LOWER;
    if 'A' <= c <= 'Z' {
      assert UPPER[c as int - 'A' as int] == c;
    }
  }

  lemma Letters()
    ensures |UPPER| == |LOWER| == 26
    ensures forall i | 0 <= i < 26 :: UPPER[i] as int == 'A' as int + i && LOWER[i] as int == 'a' as int + i
  {
  }

  /** strlwc cuts what does not fit its static buffer. */
  function StrLwc(s: string): string {
    Lower(if |s| <= LINESZ then s else s[..LINESZ])
  }

  /** strlwc keeps this key. */
  predicate CleanKey(key: string) {
    StrLwc(key) == key
  }

  method Strlwc(s: string) returns (l: string)
    ensures l == StrLwc(s)
  {
    l := "";
    var i := 0;
    while i < |s| && i < LINESZ
      invariant 0 <= i <= |s| && i <= LINESZ && |l| == i
      invariant forall j | 0 <= j < i :: l[j] == ToLower(s[j])
    {
      l := l + [ToLower(s[i])];
      i := i + 1;
    }
  }

  /** Lowering twice is lowering once, and a short lower-case string is its own lower case. */
  lemma StrLwcFixed(s: string)
    ensures StrLwc(StrLwc(s)) == StrLwc(s)
    ensures StrLwc(s) == s <==> IsLower(s) && |s| <= 1024
  {
    assert |StrLwc(s)| <= LINESZ;
    if IsLower(s) && |s| <= LINESZ {
      assert StrLwc(s) == s;
    }
    if StrLwc(s) == s {
      forall i | 0 <= i < |s| ensures ToLower(s[i]) == s[i] {
        assert StrLwc(s)[i] == ToLower(s[i]);
      }
    }
  }

  // ----- stripping -----

  predicate AllSpace(s: string) {
    forall i | 0 <= i < |s| :: IsSpace(s[i])
  }

  function LStrip(s: string): (r: string)
    ensures |r| <= |s| && (r != "" ==> !IsSpace(r[0]))
  {
    if s != "" && IsSpace(s[0]) then LStrip(s[1..]) else s
  }

  function RStrip(s: string): (r: string)
    ensures |r| <= |s| && r == s[..|r|] && (r != "" ==> !IsSpace(r[|r| - 1]))
  {
    if s != "" && IsSpace(s[|s| - 1]) then RStrip(s[..|s| - 1]) else s
  }

  function Strip(s: string): string {
    RStrip(LStrip(s))
  }

  lemma LStripStep(s: string, i: nat)
    requires i <= |s|
    ensures i == |s| ==> LStrip(s[i..]) == s[i..]
    ensures i < |s| ==> LStrip(s[i..]) == if IsSpace(s[i]) then LStrip(s[i + 1..]) else s[i..]
  {
    if i < |s| {
      assert s[i..][0] == s[i] && s[i..][1..] == s[i + 1..];
    }
  }

  lemma RStripStep(s: string, n: nat)
    requires n <= |s|
    ensures n == 0 ==> RStrip(s[..n]) == s[..n]
    ensures n > 0 ==> RStrip(s[..n]) == if IsSpace(s[n - 1]) then RStrip(s[..n - 1]) else s[..n]
  {
    if n > 0 {
      assert s[..n][n - 1] == s[n - 1] && s[..n][..n - 1] == s[..n - 1];
    }
  }

  /** strstrip; its static buffer holds LINESZ characters. */
  method Strstrip(s: string) returns (l: string)
    requires |s| <= LINESZ
    ensures l == Strip(s)
  {
    hide LStrip, RStrip, IsSpace;
    var first := 0;
    assert s[0..] == s;
    while first < |s| && IsSpace(s[first])
      invariant 0 <= first <= |s| && LStrip(s[first..]) == LStrip(s)
    {
      LStripStep(s, first);
      first := first + 1;
    }
    LStripStep(s, first);
    l := s[first..];
    var last := |l|;
    assert l[..last] == l;
    while last > 0
      invariant 0 <= last <= |l| && RStrip(l[..last]) == RStrip(l)
    {
      RStripStep(l, last);
      if !IsSpace(l[last - 1]) {
        break;
      }
      last := last - 1;
    }
    RStripStep(l, last);
    l := l[..last];
  }

  predicate Stripped(s: string) {
    s != "" ==> !IsSpace(s[0]) && !IsSpace(s[|s| - 1])
  }

  lemma {:induction false} StripFixed(s: string)
    ensures Stripped(Strip(s))
    ensures Strip(s) == s <==> Stripped(s)
  {
    var l := LStrip(s);
    var r := RStrip(l);
    assert r != "" ==> r[0] == l[0];
  }

  lemma {:induction false} LStripSpaces(a: string, b: string)
    requires AllSpace(a)
    ensures LStrip(a + b) == LStrip(b)
  {
    if a == "" {
      assert a + b == b;
    } else {
      assert (a + b)[1..] == a[1..] + b;
      LStripSpaces(a[1..], b);
    }
  }

  lemma {:induction false} RStripSpaces(a: string, b: string)
    requires AllSpace(b)
    ensures RStrip(a + b) == RStrip(a)
  {
    if b == "" {
      assert a + b == a;
    } else {
      assert (a + b)[..|a + b| - 1] == a + b[..|b| - 1];
      RStripSpaces(a, b[..|b| - 1]);
    }
  }

  /** Spaces at the right end of b are those at the right end of a + b, unless b is all spaces. */
  lemma {:induction false} RStripAppend(a: string, b: string)
    requires RStrip(b) != ""
    ensures RStrip(a + b) == a + RStrip(b)
  {
    if IsSpace(b[|b| - 1]) {
      assert (a + b)[..|a + b| - 1] == a + b[..|b| - 1];
      RStripAppend(a, b[..|b| - 1]);
    }
  }

  lemma {:induction false} RStripEmpty(s: string)
    ensures RStrip(s) == "" <==> AllSpace(s)
  {
    if s != "" && IsSpace(s[|s| - 1]) {
      RStripEmpty(s[..|s| - 1]);
      assert s == s[..|s| - 1] + [s[|s| - 1]];
    }
  }

  lemma {:induction false} LStripEmpty(s: string)
    ensures LStrip(s) == "" <==> AllSpace(s)
  {
    if s != "" && IsSpace(s[0]) {
      LStripEmpty(s[1..]);
      assert s == [s[0]] + s[1..];
    }
  }

  /** Stripping on the right first gives the same. */
  lemma {:induction false} StripCommutes(s: string)
    ensures LStrip(RStrip(s)) == Strip(s)
  {
    RStripEmpty(s);
    LStripEmpty(s);
    if !AllSpace(s) {
      var n := |s| - |LStrip(s)|;
      LStripIsSuffix(s);
      assert s == s[..n] + LStrip(s);
      RStripEmpty(LStrip(s));
      RStripAppend(s[..n], LStrip(s));
      LStripSpaces(s[..n], RStrip(LStrip(s)));
    }
  }

  lemma {:induction false} LStripIsSuffix(s: string)
    ensures LStrip(s) == s[|s| - |LStrip(s)|..]
    ensures AllSpace(s[..|s| - |LStrip(s)|])
  {
    if s != "" && IsSpace(s[0]) {
      LStripIsSuffix(s[1..]);
      var n := |s| - |LStrip(s)|;
      assert s[..n] == [s[0]] + s[1..][..n - 1];
    }
  }

  /** Stripping takes away the spaces at the ends, and nothing else. */
  lemma {:induction false} StripAround(a: string, s: string, b: string)
    requires AllSpace(a) && AllSpace(b) && Stripped(s)
    ensures Strip(a + s + b) == s
  {
    assert a + s + b == a + (s + b);
    LStripSpaces(a, s + b);
    if s == "" {
      assert s + b == b;
      LStripEmpty(b);
    } else {
      RStripSpaces(s, b);
    }
  }

  lemma {:induction false} LStripSplits(s: string) returns (a: string)
    ensures AllSpace(a) && s == a + LStrip(s)
  {
    LStripIsSuffix(s);
    a := s[..|s| - |LStrip(s)|];
  }

  // ----- scanning -----

  /** How many leading characters are outside `stops`: what %[^...] reads. */
  function Until(s: string, stops: set<char>): (n: nat)
    ensures n <= |s| && (n < |s| ==> s[n] in stops)
    ensures forall i | 0 <= i < n :: s[i] !in stops
  {
    if s == "" || s[0] in stops then 0 else Until(s[1..], stops) + 1
  }

  /** Until is the only length with its property. */
  lemma {:induction false} UntilIs(s: string, stops: set<char>, n: nat)
    requires n <= |s| && (n < |s| ==> s[n] in stops)
    requires forall i | 0 <= i < n :: s[i] !in stops
    ensures Until(s, stops) == n
  {
  }

  /** How many leading characters are inside `chars`: what %[...] reads. */
  function While(s: string, chars: set<char>): (n: nat)
    ensures n <= |s| && (n < |s| ==> s[n] !in chars)
    ensures forall i | 0 <= i < n :: s[i] in chars
  {
    if s == "" || s[0] !in chars then 0 else While(s[1..], chars) + 1
  }
}
