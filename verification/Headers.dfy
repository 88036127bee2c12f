/** The response headers of libcontainer/endpoint.c: a multimap under lower-case names with a cached
    status, sent through a callback. Sections 6.3 and 6.3.3 of RFC 3875. */
module Headers {
  import opened Wrappers
  import opened CStrings

  // ----- strtol -----

  predicate IsDigit(c: char) {
    '0' <= c <= '9'
  }

  function DigitsEnd(s: string, i: nat): (n: nat)
    requires i <= |s|
    ensures i <= n <= |s| && (forall j | i <= j < n :: IsDigit(s[j])) && (n < |s| ==> !IsDigit(s[n]))
    decreases |s| - i
  {
    if i < |s| && IsDigit(s[i]) then DigitsEnd(s, i + 1) else i
  }

  function DigitsValue(s: string): nat {
    if s == "" || !IsDigit(s[|s| - 1]) then 0 else 10 * DigitsValue(s[..|s| - 1]) + (s[|s| - 1] as int - '0' as int)
  }

  /** The number read, and where the reading ended: 0 if there is no number. */
  datatype Number = Number(value: int, end: nat)

  /** Spaces, a sign, digits; numbers out of range are out of the range of a status as well. */
  function StrTol(s: string): (n: Number)
    ensures n.end <= |s|
  {
    var blanks := |s| - |LStrip(s)|;
    var start := if blanks < |s| && (s[blanks] == '-' || s[blanks] == '+') then blanks + 1 else blanks;
    var end := DigitsEnd(s, start);
    if end == start then Number(0, 0)
    else
      var magnitude: int := DigitsValue(s[start..end]);
      Number(if s[blanks] == '-' then -magnitude else magnitude, end)
  }

  /** The status a value stands for, if it is one. */
  function StatusOf(value: string): (r: Option<int>)
    ensures r.Some? ==> 100 <= r.value <= 999
  {
    var n := StrTol(value);
    if n.value < 100 || n.value > 999 || (n.end < |value| && !IsSpace(value[n.end])) then None else Some(n.value)
  }

  const DIGITS := "0123456789"

  function ThreeDigits(status: nat): string
    requires 100 <= status <= 999
  {
    [DIGITS[status / 100], DIGITS[status / 10 % 10], DIGITS[status % 10]]
  }

  /** The values section 6.3.3 of RFC 3875 asks for: three digits, a space and a reason. */
  lemma {:induction false} StatusLineRead(status: nat, reason: string)
    requires 100 <= status <= 999
    ensures StatusOf(ThreeDigits(status) + " " + reason) == Some(status)
    ensures StatusOf(ThreeDigits(status)) == Some(status)
  {
    ThreeDigitsRead(status, " " + reason);
    assert ThreeDigits(status) + " " + reason == ThreeDigits(status) + (" " + reason);
    ThreeDigitsRead(status, "");
    assert ThreeDigits(status) + "" == ThreeDigits(status);
  }

  lemma {:induction false} ThreeDigitsRead(status: nat, rest: string)
    requires 100 <= status <= 999 && (rest != "" ==> IsSpace(rest[0]))
    ensures StatusOf(ThreeDigits(status) + rest) == Some(status)
  {
    ThreeDigitsValue(status);
    var d := ThreeDigits(status);
    hide ThreeDigits, DigitsValue;
    var s := d + rest;
    assert LStrip(s) == s;
    assert s[0] == d[0] && s[1] == d[1] && s[2] == d[2];
    var n := DigitsEnd(s, 0);
    assert |s| > 3 ==> s[3] == rest[0] && !IsDigit(s[3]);
    assert n != 0 && n != 1 && n != 2;
    assert n == 3 && s[0..3] == d;
  }

  lemma Decimal(n: nat)
    requires 100 <= n <= 999
    ensures n == 100 * (n / 100) + 10 * (n / 10 % 10) + n % 10
    ensures 0 <= n / 100 < 10 && 0 <= n / 10 % 10 < 10 && 0 <= n % 10 < 10
  {
  }

  lemma DigitChar(n: nat)
    requires n < 10
    ensures |DIGITS| == 10 && IsDigit(DIGITS[n]) && DIGITS[n] as int - '0' as int == n
  {
  }

  lemma {:induction false} ThreeDigitsValue(status: nat)
    requires 100 <= status <= 999
    ensures var d := ThreeDigits(status);
      DigitsValue(d) == status && |d| == 3 && IsDigit(d[0]) && IsDigit(d[1]) && IsDigit(d[2])
  {
    hide DigitsValue, IsDigit, DIGITS;
    Decimal(status);
    var a, b, c := status / 100, status / 10 % 10, status % 10;
    DigitChar(a);
    DigitChar(b);
    DigitChar(c);
    DigitsOf(DIGITS[a], DIGITS[b], DIGITS[c]);
  }

  lemma {:induction false} DigitsOf(a: char, b: char, c: char)
    requires IsDigit(a) && IsDigit(b) && IsDigit(c)
    ensures DigitsValue([a, b, c]) ==
      100 * (a as int - '0' as int) + 10 * (b as int - '0' as int) + (c as int - '0' as int)
  {
    assert [a, b, c][..2] == [a, b] && [a, b][..1] == [a] && [a][..0] == "";
    assert DigitsValue([a]) == a as int - '0' as int;
    assert DigitsValue([a, b]) == 10 * DigitsValue([a]) + (b as int - '0' as int);
  }

  // ----- exactly the values that are a status -----

  predicate AllZero(s: string) {
    forall i | 0 <= i < |s| :: s[i] == '0'
  }

  predicate AllDigits(s: string) {
    forall i | 0 <= i < |s| :: IsDigit(s[i])
  }

  /** Spaces, perhaps a plus sign, zeros, the three digits of the status, and then the end or a space. */
  predicate IsStatusText(value: string, status: nat, a: string, sign: string, z: string, tail: string) {
    && 100 <= status <= 999 && value == a + sign + z + ThreeDigits(status) + tail
    && AllSpace(a) && (sign == "" || sign == "+") && AllZero(z) && (tail == "" || IsSpace(tail[0]))
  }

  lemma {:induction false} ZerosAreZero(s: string)
    ensures AllZero(s) ==> DigitsValue(s) == 0
    ensures AllDigits(s) && DigitsValue(s) == 0 ==> AllZero(s)
  {
    if s != "" {
      ZerosAreZero(s[..|s| - 1]);
    }
  }

  lemma {:induction false} LeadingZeros(z: string, d: string)
    requires AllZero(z) && AllDigits(d)
    ensures DigitsValue(z + d) == DigitsValue(d)
  {
    if d == "" {
      assert z + d == z;
      ZerosAreZero(z);
    } else {
      assert (z + d)[..|z + d| - 1] == z + d[..|d| - 1];
      LeadingZeros(z, d[..|d| - 1]);
    }
  }

  /** What strtol reads from spaces, a sign, digits and something else. */
  lemma {:induction false} StrTolReads(a: string, sign: string, digits: string, tail: string)
    requires AllSpace(a) && (sign == "" || sign == "+" || sign == "-") && digits != "" && AllDigits(digits)
    requires tail == "" || !IsDigit(tail[0])
    ensures var magnitude: int := DigitsValue(digits);
      StrTol(a + sign + digits + tail) ==
      Number(if sign == "-" then -magnitude else magnitude, |a| + |sign| + |digits|)
  {
    hide DigitsValue, LStrip, DigitsEnd, IsDigit, AllDigits, AllSpace;
    var s, num := a + sign + digits + tail, sign + digits + tail;
    SignStarts(sign, digits, tail);
    TextParts(a, sign, digits, tail);
    assert s == a + num;
    LStripSpaces(a, num);
    assert s[|a|] == num[0] && |s| == |a| + |num|;
    DigitsFound(a + sign, digits, tail);
  }

  lemma {:induction false} SignStarts(sign: string, digits: string, tail: string)
    requires (sign == "" || sign == "+" || sign == "-") && digits != "" && AllDigits(digits)
    ensures var num := sign + digits + tail;
      num != "" && LStrip(num) == num && (num[0] == '-' <==> sign == "-") && (num[0] == '+' <==> sign == "+")
  {
    var num := sign + digits + tail;
    assert num[0] == if sign == "" then digits[0] else sign[0];
  }

  lemma {:induction false} DigitsFound(before: string, digits: string, tail: string)
    requires AllDigits(digits) && (tail == "" || !IsDigit(tail[0]))
    ensures var s := before + digits + tail;
      DigitsEnd(s, |before|) == |before| + |digits| && s[|before|..|before| + |digits|] == digits
  {
    var s := before + digits + tail;
    hide IsDigit;
    forall i | |before| <= i < |before| + |digits| ensures s[i] == digits[i - |before|] && IsDigit(s[i]) {
    }
    assert tail != "" ==> s[|before| + |digits|] == tail[0];
  }

  lemma {:induction false} StatusTextRead(value: string, status: nat, a: string, sign: string, z: string, tail: string)
    requires IsStatusText(value, status, a, sign, z, tail)
    ensures StatusOf(value) == Some(status)
  {
    var d := ThreeDigits(status);
    ThreeDigitsValue(status);
    hide ThreeDigits, DigitsValue, StrTol;
    LeadingZeros(z, d);
    assert AllDigits(z + d);
    assert value == a + sign + (z + d) + tail;
    StrTolReads(a, sign, z + d, tail);
  }

  lemma {:induction false} LastDigit(s: string)
    requires s != "" && AllDigits(s)
    ensures |DIGITS| == 10 && s[|s| - 1] == DIGITS[DigitsValue(s) % 10]
    ensures AllDigits(s[..|s| - 1]) && DigitsValue(s[..|s| - 1]) == DigitsValue(s) / 10
  {
    hide DIGITS, DigitsValue;
    var c := s[|s| - 1];
    DigitsStep(s);
    DigitAt(c);
    TenTimes(DigitsValue(s[..|s| - 1]), c as int - '0' as int);
  }

  lemma DigitsStep(s: string)
    requires s != "" && IsDigit(s[|s| - 1])
    ensures DigitsValue(s) == 10 * DigitsValue(s[..|s| - 1]) + (s[|s| - 1] as int - '0' as int)
  {
  }

  lemma TenTimes(m: nat, n: nat)
    requires n < 10
    ensures (10 * m + n) % 10 == n && (10 * m + n) / 10 == m
  {
  }

  lemma DigitAt(c: char)
    requires IsDigit(c)
    ensures var n := c as int - '0' as int; 0 <= n < 10 == |DIGITS| && DIGITS[n] == c
  {
  }

  lemma NoDigits()
    ensures DigitsValue("") == 0
  {
  }

  /** Digits worth three digits are these three behind zeros. */
  lemma {:induction false} DigitsSplit(s: string, n: nat)
    requires AllDigits(s) && DigitsValue(s) == n && 100 <= n <= 999
    ensures |s| >= 3 && AllZero(s[..|s| - 3]) && s[|s| - 3..] == ThreeDigits(n)
  {
    hide DigitsValue, DIGITS, AllDigits, AllZero;
    NoDigits();
    LastDigit(s);
    var s1 := s[..|s| - 1];
    LastDigit(s1);
    var s2 := s1[..|s1| - 1];
    LastDigit(s2);
    var s3 := s2[..|s2| - 1];
    assert s3 == s[..|s| - 3];
    ZerosAreZero(s3);
    DigitPlaces(n);
    assert s[|s| - 3..] == [s[|s| - 3], s[|s| - 2], s[|s| - 1]];
  }

  lemma DigitPlaces(n: nat)
    requires 100 <= n <= 999
    ensures n / 10 / 10 % 10 == n / 100 && n / 10 / 10 / 10 == 0
  {
  }

  /** What strtol has read splits the text. */
  lemma {:induction false} StrTolSplits(value: string) returns (a: string, sign: string, digits: string, tail: string)
    ensures AllSpace(a) && value == a + sign + digits + tail && AllDigits(digits)
    ensures sign == "" || sign == "+" || sign == "-"
    ensures digits != "" ==>
      var magnitude: int := DigitsValue(digits);
      StrTol(value) == Number(if sign == "-" then -magnitude else magnitude, |value| - |tail|)
    ensures digits == "" ==> StrTol(value).value == 0
  {
    hide LStrip, DigitsValue, IsDigit, DigitsEnd, AllSpace;
    var num := LStrip(value);
    a := LStripSplits(value);
    sign := if num != "" && (num[0] == '-' || num[0] == '+') then num[..1] else "";
    var start := |a| + |sign|;
    var end := DigitsEnd(value, start);
    digits := value[start..end];
    tail := value[end..];
    assert |value| == |a| + |num| && (num != "" ==> value[|a|] == num[0]);
    SlicesJoin(value, |a|, start, end);
    assert value[..|a|] == a && value[|a|..start] == sign;
  }

  lemma SlicesJoin(s: string, i: nat, j: nat, k: nat)
    requires i <= j <= k <= |s|
    ensures s == s[..i] + s[i..j] + s[j..k] + s[k..]
  {
  }

  lemma {:induction false} StatusTextSplits(value: string, status: nat)
      returns (a: string, sign: string, z: string, tail: string)
    requires StatusOf(value) == Some(status)
    ensures IsStatusText(value, status, a, sign, z, tail)
  {
    hide StrTol, DigitsValue, ThreeDigits, AllSpace, AllDigits, AllZero;
    var digits;
    a, sign, digits, tail := StrTolSplits(value);
    DigitsSplit(digits, status);
    z := digits[..|digits| - 3];
    assert digits == z + ThreeDigits(status);
    assert tail != "" ==> value[|value| - |tail|] == tail[0];
    TextParts(a + sign, z, ThreeDigits(status), tail);
  }

  lemma TextParts(a: string, z: string, d: string, tail: string)
    ensures a + (z + d) + tail == a + z + d + tail == a + (z + d + tail)
  {
  }

  /** A value is accepted as a status exactly if it is written like this. */
  lemma {:induction false} StatusIs(value: string)
    ensures forall status: nat :: StatusOf(value) == Some(status) <==>
      exists a, sign, z, tail :: IsStatusText(value, status, a, sign, z, tail)
    ensures StatusOf(value).None? <==>
      !exists status: nat, a, sign, z, tail :: IsStatusText(value, status, a, sign, z, tail)
  {
    hide StatusOf, IsStatusText;
    forall status: nat, a, sign, z, tail | IsStatusText(value, status, a, sign, z, tail)
      ensures StatusOf(value) == Some(status)
    {
      StatusTextRead(value, status, a, sign, z, tail);
    }
    if StatusOf(value).Some? {
      var a, sign, z, tail := StatusTextSplits(value, StatusOf(value).value);
    }
  }

  // ----- the headers -----

  /** The name as last given, and the values in order. */
  datatype Header = Header(name: string, values: seq<string>)

  /** The hash under lower-case names; `status` is its entry under "STATUS". */
  datatype Headers = Headers(entries: map<string, Header>, status: int)

  datatype Outcome = Done | EINVAL | EPERM

  const STATUS := "status"
  const STATUS_KEY := "STATUS"

  datatype Setting = Setting(headers: Headers, outcome: Outcome)

  function ValuesOf(h: Headers, name: string): seq<string> {
    if Lower(name) in h.entries then h.entries[Lower(name)].values else []
  }

  /** cw_request_headers_vset; a NULL value is None. */
  function SetHeader(h: Headers, name: string, value: Option<string>, replace: bool): Setting {
    if value.None? && !replace then Setting(h, EINVAL)
    else if Lower(name) != STATUS then Setting(Stored(h, name, value, replace), Done)
    else if value.None? || !replace then Setting(h, EPERM)
    else
      match StatusOf(value.value)
      case None => Setting(h, EINVAL)
      case Some(status) => Setting(Stored(h.(status := status), name, value, replace), Done)
  }

  function Stored(h: Headers, name: string, value: Option<string>, replace: bool): Headers {
    var kept := if replace then [] else ValuesOf(h, name);
    h.(entries := h.entries[Lower(name) := Header(name, kept + (if value.Some? then [value.value] else []))])
  }

  /** cw_request_headers_init. */
  function Initial(): Headers {
    Headers(map[STATUS := Header("Status", ["200 OK"]), "content-type" := Header("Content-Type", ["text/html"])], 200)
  }

  /** Every entry is under the lower case of its name, and there is one status value, whose leading
      number is the cached status. */
  predicate Sound(h: Headers) {
    && (forall key | key in h.entries :: Lower(h.entries[key].name) == key)
    && STATUS in h.entries
    && |h.entries[STATUS].values| == 1
    && StatusOf(h.entries[STATUS].values[0]) == Some(h.status)
  }

  lemma InitialNames()
    ensures Lower("Status") == STATUS && Lower("Content-Type") == "content-type" && "content-type" != STATUS
    ensures StatusOf("200 OK") == Some(200)
  {
    hide StatusOf;
    StatusLineRead(200, "OK");
    assert ThreeDigits(200) + " " + "OK" == "200 OK";
  }

  lemma {:induction false} InitialSound()
    ensures Sound(Initial())
  {
    InitialNames();
    hide StatusOf, Lower;
  }

  lemma {:induction false} SetKeepsSound(h: Headers, name: string, value: Option<string>, replace: bool)
    requires Sound(h)
    ensures Sound(SetHeader(h, name, value, replace).headers)
  {
    hide StatusOf, Lower;
  }

  /** What setting does to the values under any name: names that differ only in case are one name;
      a refused setting changes nothing. */
  lemma {:induction false} ValuesAfterSet(h: Headers, name: string, value: Option<string>, replace: bool, other: string)
    ensures var s := SetHeader(h, name, value, replace);
      && (s.outcome != Done ==> s.headers == h)
      && (s.outcome == Done ==>
          ValuesOf(s.headers, other) ==
          if Lower(other) != Lower(name) then ValuesOf(h, other)
          else (if replace then [] else ValuesOf(h, name)) + (if value.Some? then [value.value] else []))
  {
    hide StatusOf, Lower;
  }

  /** A status replaces, and is one; any other header may not append NULL. */
  predicate Accepted(name: string, value: Option<string>, replace: bool) {
    if Lower(name) == STATUS then value.Some? && replace && StatusOf(value.value).Some? else value.Some? || replace
  }

  lemma {:induction false} RefusedIff(h: Headers, name: string, value: Option<string>, replace: bool)
    ensures SetHeader(h, name, value, replace).outcome == Done <==> Accepted(name, value, replace)
  {
    hide StatusOf, Lower;
  }

  lemma {:induction false} OutcomeIs(h: Headers, name: string, value: Option<string>, replace: bool)
    ensures SetHeader(h, name, value, replace).outcome ==
      if value.None? && !replace then EINVAL
      else if Lower(name) != "status" then Done
      else if value.None? || !replace then EPERM
      else if exists n: nat, a, sign, z, tail :: IsStatusText(value.value, n, a, sign, z, tail) then Done
      else EINVAL
  {
    hide IsStatusText, StatusOf, Lower;
    if value.Some? {
      StatusIs(value.value);
    }
  }

  // ----- sending -----

  /** A call of the callback; `more` tells that the header has more values. */
  datatype Line = Line(name: string, value: string, more: bool)

  /** The calls made, and what r holds. */
  datatype Sending = Sending(lines: seq<Line>, r: int)

  /** jd_keys: each key once, in any order. */
  predicate IsListing(keys: seq<string>, h: Headers) {
    && (forall i, j | 0 <= i < j < |keys| :: keys[i] != keys[j])
    && (forall key | key in keys :: key in h.entries || key == STATUS_KEY)
    && (forall key | key in h.entries :: key in keys)
    && STATUS_KEY in keys
  }

  /** Keys that start with a capital are not headers. */
  predicate IsInternal(key: string) {
    key != "" && 'A' <= key[0] <= 'Z'
  }

  function HeaderAt(h: Headers, key: string): Header {
    if key in h.entries then h.entries[key] else Header("", [])
  }

  /** The values from the vi-th on; answers(k) is what the k-th call returns. A negative answer ends
      the header. */
  function SendValues(h: Header, vi: nat, s: Sending, answers: nat -> int): Sending
    requires vi <= |h.values|
    decreases |h.values| - vi
  {
    if vi == |h.values| then s
    else
      var s' := Sending(s.lines + [Line(h.name, h.values[vi], vi + 1 < |h.values|)], answers(|s.lines|));
      if s'.r < 0 then s' else SendValues(h, vi + 1, s', answers)
  }

  /** -2 ends the sending; r is not set anew for a header without values. */
  function SendKeys(h: Headers, keys: seq<string>, s: Sending, answers: nat -> int): Sending {
    if keys == [] then s
    else if IsInternal(keys[0]) then SendKeys(h, keys[1..], s, answers)
    else
      var s' := SendValues(HeaderAt(h, keys[0]), 0, s, answers);
      if s'.r == -2 then s' else SendKeys(h, keys[1..], s', answers)
  }

  lemma SendStep(h: Headers, keys: seq<string>, s: Sending, answers: nat -> int)
    ensures SendKeys(h, keys, s, answers) ==
      if keys == [] then s
      else if IsInternal(keys[0]) then SendKeys(h, keys[1..], s, answers)
      else
        var s' := SendValues(HeaderAt(h, keys[0]), 0, s, answers);
        if s'.r == -2 then s' else SendKeys(h, keys[1..], s', answers)
  {
    hide SendValues, IsInternal;
  }

  /** All lines of a header from the vi-th value on. */
  function HeaderLines(h: Header, vi: nat): seq<Line>
    requires vi <= |h.values|
    decreases |h.values| - vi
  {
    if vi == |h.values| then []
    else [Line(h.name, h.values[vi], vi + 1 < |h.values|)] + HeaderLines(h, vi + 1)
  }

  function AllLines(h: Headers, keys: seq<string>): seq<Line> {
    if keys == [] then []
    else (if IsInternal(keys[0]) then [] else HeaderLines(HeaderAt(h, keys[0]), 0)) + AllLines(h, keys[1..])
  }

  /** The first header listed has no values. */
  predicate FirstIsEmpty(h: Headers, keys: seq<string>) {
    keys != [] && if IsInternal(keys[0]) then FirstIsEmpty(h, keys[1..]) else HeaderAt(h, keys[0]).values == []
  }

  lemma {:induction false} ValuesSent(h: Header, vi: nat, s: Sending, answers: nat -> int)
    requires vi <= |h.values| && forall k: nat :: answers(k) >= 0
    ensures SendValues(h, vi, s, answers).lines == s.lines + HeaderLines(h, vi)
    ensures vi < |h.values| ==> SendValues(h, vi, s, answers).r >= 0
    ensures vi == |h.values| ==> SendValues(h, vi, s, answers).r == s.r
    decreases |h.values| - vi
  {
    if vi < |h.values| {
      var line := Line(h.name, h.values[vi], vi + 1 < |h.values|);
      ValuesSent(h, vi + 1, Sending(s.lines + [line], answers(|s.lines|)), answers);
      assert s.lines + ([line] + HeaderLines(h, vi + 1)) == s.lines + [line] + HeaderLines(h, vi + 1);
    }
  }

  /** With a callback that never stops, every line of every header is sent, in the order listed,
      unless r starts as -2 and the first header listed has no values: then nothing is. */
  lemma {:induction false} KeysSent(h: Headers, keys: seq<string>, s: Sending, answers: nat -> int)
    requires forall k: nat :: answers(k) >= 0
    ensures SendKeys(h, keys, s, answers).lines ==
      s.lines + (if s.r == -2 && FirstIsEmpty(h, keys) then [] else AllLines(h, keys))
    decreases |keys|
  {
    hide SendValues, HeaderLines, IsInternal;
    if keys == [] {
    } else if IsInternal(keys[0]) {
      KeysSent(h, keys[1..], s, answers);
      LinesAssoc([], AllLines(h, keys[1..]), []);
    } else {
      var e := HeaderAt(h, keys[0]);
      ValuesSent(e, 0, s, answers);
      NoLines(e);
      var s' := SendValues(e, 0, s, answers);
      KeysSent(h, keys[1..], s', answers);
      var a, b := HeaderLines(e, 0), AllLines(h, keys[1..]);
      LinesAssoc(s.lines, a, b);
    }
  }

  lemma LinesAssoc(a: seq<Line>, b: seq<Line>, c: seq<Line>)
    ensures a + b + c == a + (b + c)
    ensures a == [] ==> a + b == b
  {
  }

  lemma NoLines(h: Header)
    ensures h.values == [] ==> HeaderLines(h, 0) == []
  {
  }

  /** An answer of -2 is the last one asked for. */
  lemma {:induction false} StopsAtMinusTwo(h: Headers, keys: seq<string>, s: Sending, answers: nat -> int, k: nat)
    requires s.r != -2 && |s.lines| <= k < |SendKeys(h, keys, s, answers).lines| && answers(k) == -2
    ensures k == |SendKeys(h, keys, s, answers).lines| - 1
    decreases |keys|
  {
    hide SendValues;
    if keys != [] {
      if IsInternal(keys[0]) {
        StopsAtMinusTwo(h, keys[1..], s, answers, k);
      } else {
        var e := HeaderAt(h, keys[0]);
        ValuesStop(e, 0, s, answers, k);
        var s' := SendValues(e, 0, s, answers);
        if s'.r != -2 {
          StopsAtMinusTwo(h, keys[1..], s', answers, k);
        }
      }
    }
  }

  lemma {:induction false} ValuesStop(h: Header, vi: nat, s: Sending, answers: nat -> int, k: nat)
    requires vi <= |h.values| && |s.lines| <= k && answers(k) == -2
    ensures var s' := SendValues(h, vi, s, answers);
      k < |s'.lines| ==> k == |s'.lines| - 1 && s'.r == -2
    decreases |h.values| - vi
  {
    if vi < |h.values| {
      var s' := Sending(s.lines + [Line(h.name, h.values[vi], vi + 1 < |h.values|)], answers(|s.lines|));
      if s'.r >= 0 {
        ValuesStop(h, vi + 1, s', answers, k);
      }
    }
  }

  // ----- what is sent, whatever the answers -----

  function Visible(keys: seq<string>): seq<string> {
    if keys == [] then [] else (if IsInternal(keys[0]) then [] else [keys[0]]) + Visible(keys[1..])
  }

  function Flat(chunks: seq<seq<Line>>): seq<Line> {
    if chunks == [] then [] else chunks[0] + Flat(chunks[1..])
  }

  /** The calls for one header, the first of which is the from-th of all: one for each value in order, up
      to the first negative answer. */
  ghost predicate IsChunk(h: Header, from: nat, chunk: seq<Line>, answers: nat -> int) {
    && |chunk| <= |h.values|
    && (forall i | 0 <= i < |chunk| :: chunk[i] == Line(h.name, h.values[i], i + 1 < |h.values|))
    && (forall k: nat | from <= k < from + |chunk| - 1 :: answers(k) >= 0)
    && (|chunk| < |h.values| ==> chunk != [] && answers(from + |chunk| - 1) < 0)
  }

  /** The last answer ends the sending. */
  ghost predicate Stopped(from: nat, chunk: seq<Line>, answers: nat -> int) {
    chunk != [] && answers(from + |chunk| - 1) == -2
  }

  /** One chunk for each header, in the order of the names; none behind an answer of -2. */
  ghost predicate AreChunks(h: Headers, names: seq<string>, from: nat, chunks: seq<seq<Line>>, answers: nat -> int) {
    if names == [] then chunks == []
    else
      && chunks != [] && IsChunk(HeaderAt(h, names[0]), from, chunks[0], answers)
      && if Stopped(from, chunks[0], answers) then |chunks| == 1
         else AreChunks(h, names[1..], from + |chunks[0]|, chunks[1..], answers)
  }

  lemma {:induction false} ValuesSentUntil(h: Header, vi: nat, s: Sending, answers: nat -> int)
      returns (chunk: seq<Line>)
    requires vi <= |h.values|
    ensures var s' := SendValues(h, vi, s, answers);
      && s'.lines == s.lines + chunk
      && s'.r == (if chunk == [] then s.r else answers(|s.lines| + |chunk| - 1))
      && |chunk| <= |h.values| - vi
      && (forall i | 0 <= i < |chunk| :: chunk[i] == Line(h.name, h.values[vi + i], vi + i + 1 < |h.values|))
      && (forall k: nat | |s.lines| <= k < |s.lines| + |chunk| - 1 :: answers(k) >= 0)
      && (|chunk| < |h.values| - vi ==> chunk != [] && answers(|s.lines| + |chunk| - 1) < 0)
    decreases |h.values| - vi
  {
    if vi == |h.values| {
      chunk := [];
    } else {
      var line := Line(h.name, h.values[vi], vi + 1 < |h.values|);
      var s' := Sending(s.lines + [line], answers(|s.lines|));
      if s'.r < 0 {
        chunk := [line];
      } else {
        var rest := ValuesSentUntil(h, vi + 1, s', answers);
        chunk := [line] + rest;
        LinesAssoc(s.lines, [line], rest);
      }
    }
  }

  /** For any callback: the headers are sent in the order listed, each up to its first negative answer;
      an answer of -2 ends the sending, and any other goes on to the next header. */
  lemma {:induction false} SentInChunks(h: Headers, keys: seq<string>, s: Sending, answers: nat -> int)
      returns (chunks: seq<seq<Line>>)
    requires s.r != -2
    ensures SendKeys(h, keys, s, answers).lines == s.lines + Flat(chunks)
    ensures AreChunks(h, Visible(keys), |s.lines|, chunks, answers)
    decreases |keys|
  {
    hide SendValues, IsInternal, IsChunk;
    if keys == [] {
      chunks := [];
    } else if IsInternal(keys[0]) {
      chunks := SentInChunks(h, keys[1..], s, answers);
      assert [] + Visible(keys[1..]) == Visible(keys[1..]);
    } else {
      var chunk, s' := HeaderChunk(HeaderAt(h, keys[0]), s, answers);
      VisibleCons(keys);
      if s'.r == -2 {
        chunks := [chunk];
        FlatCons(chunk, []);
        assert chunk + [] == chunk;
      } else {
        var rest := SentInChunks(h, keys[1..], s', answers);
        chunks := [chunk] + rest;
        FlatCons(chunk, rest);
        LinesAssoc(s.lines, chunk, Flat(rest));
      }
    }
  }

  lemma {:induction false} HeaderChunk(e: Header, s: Sending, answers: nat -> int)
      returns (chunk: seq<Line>, s': Sending)
    requires s.r != -2
    ensures s' == SendValues(e, 0, s, answers) && s'.lines == s.lines + chunk
    ensures IsChunk(e, |s.lines|, chunk, answers)
    ensures s'.r == -2 <==> Stopped(|s.lines|, chunk, answers)
  {
    hide SendValues;
    chunk := ValuesSentUntil(e, 0, s, answers);
    s' := SendValues(e, 0, s, answers);
  }

  lemma VisibleCons(keys: seq<string>)
    requires keys != [] && !IsInternal(keys[0])
    ensures Visible(keys) == [keys[0]] + Visible(keys[1..])
    ensures Visible(keys)[1..] == Visible(keys[1..])
  {
  }

  lemma FlatCons(chunk: seq<Line>, rest: seq<seq<Line>>)
    ensures Flat([chunk] + rest) == chunk + Flat(rest) && ([chunk] + rest)[1..] == rest
    ensures [chunk] + [] == [chunk] && Flat([]) == []
  {
    assert ([chunk] + rest)[1..] == rest;
  }
}
