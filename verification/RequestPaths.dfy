/** cw_request_info_init of libcontainer/endpoint.c: from REQUEST_URI to decoded path segments, which
    are then handed out one at a time. Strings are sequences of bytes. */
module RequestPaths {
  import opened Wrappers
  import opened CStrings

  const NUL := '\0'

  // A C string has no NUL in it.
  type CString = s: string | NUL !in s

  // ----- percent-encoding: section 2.1 of RFC 3986 -----

  /** isxdigit */
  predicate IsHex(c: char) {
    '0' <= c <= '9' || 'a' <= c <= 'f' || 'A' <= c <= 'F'
  }

  function HexDigit(c: char): (n: nat)
    requires IsHex(c)
    ensures n < 16
  {
    if c <= '9' then c as int - '0' as int
    else if c <= 'F' then c as int - 'A' as int + 10
    else c as int - 'a' as int + 10
  }

  /** strtol on two digits, base 16. */
  function HexByte(c: char, d: char): char
    requires IsHex(c) && IsHex(d)
  {
    (16 * HexDigit(c) + HexDigit(d)) as char
  }

  const UPPER_HEX := "0123456789ABCDEF"
  const LOWER_HEX := "0123456789abcdef"

  /** isxdigit and strtol by the tables of the digits. */
  lemma {:induction false} DigitTables(n: nat)
    requires n < 16
    ensures IsHex(UPPER_HEX[n]) && HexDigit(UPPER_HEX[n]) == n
    ensures IsHex(LOWER_HEX[n]) && HexDigit(LOWER_HEX[n]) == n
  {
  }

  predicate InTable(c: char) {
    c in UPPER_HEX || c in LOWER_HEX
  }

  lemma {:induction false} DigitInTable(c: char)
    ensures IsHex(c) <==> InTable(c)
    ensures IsHex(c) ==> c == UPPER_HEX[HexDigit(c)] || c == LOWER_HEX[HexDigit(c)]
  {
    if IsHex(c) {
      var n := HexDigit(c);
      assert c == UPPER_HEX[n] || c == LOWER_HEX[n];
    }
  }

  /** The percent sign and two digits of either case that stand for a byte. */
  predicate EscapeOf(e: string, byte: char) {
    var n := byte as int;
    && |e| == 3 && e[0] == '%' && n < 256
    && (e[1] == UPPER_HEX[n / 16] || e[1] == LOWER_HEX[n / 16])
    && (e[2] == UPPER_HEX[n % 16] || e[2] == LOWER_HEX[n % 16])
  }

  lemma {:induction false} EscapeIsHex(e: string, byte: char)
    requires EscapeOf(e, byte)
    ensures IsEscape(e) && HexByte(e[1], e[2]) == byte
  {
    hide UPPER_HEX, LOWER_HEX, IsHex, HexDigit;
    var n := byte as int;
    DigitTables(n / 16);
    DigitTables(n % 16);
  }

  lemma {:induction false} HexIsEscape(c: char, d: char)
    requires IsHex(c) && IsHex(d)
    ensures EscapeOf(['%', c, d], HexByte(c, d))
  {
    DigitInTable(c);
    DigitInTable(d);
    var n := HexByte(c, d) as int;
    assert n / 16 == HexDigit(c) && n % 16 == HexDigit(d);
  }

  predicate IsEscape(s: string) {
    |s| >= 3 && s[0] == '%' && IsHex(s[1]) && IsHex(s[2])
  }

  /** One pass from the left; what is not an escape stands for itself. */
  function Decode(s: string): (r: string)
    ensures |r| <= |s|
  {
    if s == "" then ""
    else if IsEscape(s) then [HexByte(s[1], s[2])] + Decode(s[3..])
    else [s[0]] + Decode(s[1..])
  }

  /** What a C string function sees of these bytes. */
  function CutNul(s: string): (r: CString) {
    var n := Until(s, {NUL});
    assert forall i | 0 <= i < n :: s[i] != NUL;
    s[..n]
  }

  /** Every byte is read from its two digits in either case; what is not '%' and two digits stands
      for itself. */
  lemma {:induction false} DecodeReads(e: string, byte: char, rest: string)
    ensures EscapeOf(e, byte) ==> Decode(e + rest) == [byte] + Decode(rest)
    ensures rest != "" && !(|rest| >= 3 && rest[0] == '%' && InTable(rest[1]) && InTable(rest[2])) ==>
      Decode(rest) == [rest[0]] + Decode(rest[1..])
    ensures Decode("") == ""
  {
    hide HexByte, IsHex, InTable, UPPER_HEX, LOWER_HEX;
    if EscapeOf(e, byte) {
      EscapeIsHex(e, byte);
      assert (e + rest)[3..] == rest;
    }
    if |rest| >= 3 {
      DigitInTable(rest[1]);
      DigitInTable(rest[2]);
    }
  }

  /** Decoding leaves a text as it is iff it has no escape anywhere: malformed ones are literal. */
  lemma {:induction false} DecodeChangesEscapesOnly(s: string)
    ensures Decode(s) == s <==>
      forall i | 0 <= i <= |s| - 3 :: !(s[i] == '%' && InTable(s[i + 1]) && InTable(s[i + 2]))
  {
    UnchangedIff(s);
    hide Decode, IsHex, InTable;
    forall i | 0 <= i <= |s| - 3
      ensures IsEscape(s[i..]) <==> s[i] == '%' && InTable(s[i + 1]) && InTable(s[i + 2])
    {
      DigitInTable(s[i + 1]);
      DigitInTable(s[i + 2]);
    }
  }

  lemma {:induction false} UnchangedIff(s: string)
    ensures Decode(s) == s <==> forall i | 0 <= i <= |s| :: !IsEscape(s[i..])
  {
    if s == "" {
      assert forall i | 0 <= i <= |s| :: !IsEscape(s[i..]);
    } else {
      assert s[0..] == s;
      if !IsEscape(s) {
        UnchangedIff(s[1..]);
        assert forall i | 0 <= i <= |s[1..]| :: s[1..][i..] == s[i + 1..];
        assert forall i | 1 <= i <= |s| :: s[i..] == s[1..][i - 1..];
        assert s == [s[0]] + s[1..];
        assert Decode(s)[1..] == Decode(s[1..]);
      } else {
        assert |Decode(s)| < |s|;
      }
    }
  }

  // ----- decoding in place -----

  /** memmove(&buf[dst], &buf[src], count) to the left. */
  method MoveLeft(buf: array<char>, dst: nat, src: nat, count: nat)
    requires dst <= src && src + count <= buf.Length
    modifies buf
    ensures forall i | 0 <= i < buf.Length ::
      buf[i] == if dst <= i < dst + count then old(buf[i - dst + src]) else old(buf[i])
  {
    var k := 0;
    while k < count
      invariant 0 <= k <= count
      invariant forall i | 0 <= i < buf.Length ::
        buf[i] == if dst <= i < dst + k then old(buf[i - dst + src]) else old(buf[i])
    {
      buf[dst + k] := buf[src + k];
      k := k + 1;
    }
  }

  /** The string at `from` ends at `end`. */
  ghost predicate EndsAt(buf: array<char>, from: nat, end: nat)
    reads buf
  {
    from <= end < buf.Length && buf[end] == NUL && forall i | from <= i < end :: buf[i] != NUL
  }

  method StrLen(buf: array<char>, from: nat, ghost end: nat) returns (n: nat)
    requires EndsAt(buf, from, end)
    ensures n == end - from
  {
    n := 0;
    while buf[from + n] != NUL
      invariant from + n <= end
      decreases end - from - n
    {
      n := n + 1;
    }
  }

  lemma EscapeInBuffer(buf: array<char>, x: nat, size: nat)
    requires EndsAt(buf, x, size) && IsEscape(buf[x..size])
    ensures x + 3 <= size && buf[x] == '%' && IsHex(buf[x + 1]) && IsHex(buf[x + 2])
  {
  }

  /** Moves what is behind an escape, with its NUL, up behind the escape's first byte. */
  method CloseGap(buf: array<char>, x: nat, ghost size: nat)
    requires x + 3 <= size && EndsAt(buf, x + 3, size)
    modifies buf
    ensures EndsAt(buf, x + 1, size - 2)
    ensures buf[..x + 1] == old(buf[..x + 1]) && buf[x + 1..size - 2] == old(buf[x + 3..size])
  {
    var n := StrLen(buf, x + 3, size);
    MoveLeft(buf, x + 1, x + 3, n + 1);
  }

  /** Replaces an escape by its byte and closes the gap behind it. */
  method ReplaceEscape(buf: array<char>, x: nat, ghost size: nat)
    requires EndsAt(buf, x, size) && IsEscape(buf[x..size])
    modifies buf
    ensures EndsAt(buf, x + 1, size - 2)
    ensures buf[..x + 1] == old(buf[..x]) + [HexByte(old(buf[x + 1]), old(buf[x + 2]))]
    ensures EscapeOf(old(buf[x..x + 3]), buf[x])
    ensures buf[x + 1..size - 2] == old(buf[x + 3..size])
  {
    EscapeInBuffer(buf, x, size);
    hide IsEscape, IsHex, HexByte, EscapeOf;
    HexIsEscape(buf[x + 1], buf[x + 2]);
    assert buf[x..x + 3] == ['%', buf[x + 1], buf[x + 2]];
    buf[x] := HexByte(buf[x + 1], buf[x + 2]);
    CloseGap(buf, x, size);
  }

  lemma DecodeStep(s: string)
    requires s != ""
    ensures IsEscape(s) ==> Decode(s) == [HexByte(s[1], s[2])] + Decode(s[3..])
    ensures !IsEscape(s) ==> Decode(s) == [s[0]] + Decode(s[1..])
    ensures Decode("") == ""
  {
  }

  /** The test of the loop, which may look at the NUL but not behind it, is the test for an escape. */
  lemma EscapeTest(buf: array<char>, x: nat, size: nat)
    requires EndsAt(buf, x, size) && x < size
    ensures buf[x] == '%' && IsHex(buf[x + 1]) ==> x + 2 <= size
    ensures buf[x] == '%' && IsHex(buf[x + 1]) && IsHex(buf[x + 2]) <==> IsEscape(buf[x..size])
  {
  }

  /** The decoding loop. At every step the finished bytes followed by the decoded rest are the same
      text, so no byte is decoded twice; the rest shrinks. An escaped NUL does not end the loop, but
      it ends the string that is read from the buffer afterwards. */
  method DecodeInPlace(buf: array<char>, len: nat) returns (ghost size: nat)
    requires EndsAt(buf, 0, len)
    modifies buf
    ensures size <= len && buf[size] == NUL && buf[..size] == Decode(old(buf[..len]))
  {
    hide Decode, IsHex, HexByte;
    ghost var text := buf[..len];
    size := len;
    var x := 0;
    assert buf[0..size] == text && [] + Decode(text) == Decode(text);
    while buf[x] != NUL
      invariant x <= size <= len && EndsAt(buf, x, size)
      invariant buf[..x] + Decode(buf[x..size]) == Decode(text)
      decreases size - x
    {
      ghost var rest, done := buf[x..size], buf[..x];
      DecodeStep(rest);
      EscapeTest(buf, x, size);
      if buf[x] == '%' && IsHex(buf[x + 1]) && IsHex(buf[x + 2]) {
        ghost var c := HexByte(buf[x + 1], buf[x + 2]);
        assert rest[3..] == buf[x + 3..size];
        ReplaceEscape(buf, x, size);
        size := size - 2;
        assert done + ([c] + Decode(rest[3..])) == done + [c] + Decode(rest[3..]);
      } else {
        assert rest[1..] == buf[x + 1..size];
        assert buf[..x + 1] == done + [buf[x]];
        assert done + ([buf[x]] + Decode(rest[1..])) == done + [buf[x]] + Decode(rest[1..]);
      }
      x := x + 1;
    }
    DecodeStep("x");
    assert x == size && buf[x..size] == "" && buf[..size] + [] == buf[..size];
  }

  // ----- segments: section 3.3 of RFC 3986 -----

  /** The part before the query string. */
  function PathOf(uri: string): string {
    uri[..Until(uri, {'?'})]
  }

  /** The runs between slashes, empty ones dropped. */
  function Split(path: string): (r: seq<string>)
    decreases |path|
  {
    if path == "" then []
    else if path[0] == '/' then Split(path[1..])
    else [path[..Until(path, {'/'})]] + Split(path[Until(path, {'/'})..])
  }

  function Decoded(segments: seq<string>): seq<CString> {
    if segments == [] then [] else [CutNul(Decode(segments[0]))] + Decoded(segments[1..])
  }

  /** The request array for a REQUEST_URI, or for none. */
  function Request(uri: Option<CString>): seq<CString> {
    if uri.None? then [] else Decoded(Split(PathOf(uri.value)))
  }

  /** Reads the C string at the start of a buffer. */
  method ReadString(buf: array<char>, ghost size: nat) returns (s: CString)
    requires size < buf.Length && buf[size] == NUL
    ensures s == CutNul(buf[..size])
  {
    var n := 0;
    while buf[n] != NUL
      invariant n <= size && forall i | 0 <= i < n :: buf[i] != NUL
      decreases size - n
    {
      n := n + 1;
    }
    CutNulIs(buf[..size], n);
    assert buf[..size][..n] == buf[..n];
    s := buf[..n];
  }

  lemma {:induction false} CutNulIs(s: string, n: nat)
    requires n <= |s| && (n < |s| ==> s[n] == NUL)
    requires forall i | 0 <= i < n :: s[i] != NUL
    ensures CutNul(s) == s[..n]
  {
    assert Until(s, {NUL}) == n;
  }

  /** An escaped NUL ends the segment. */
  lemma {:induction false} EscapedNulEndsSegment(e: string, s: string, rest: string)
    requires Encodes(e, s) && NUL !in s
    ensures CutNul(Decode(e + "%00" + rest)) == s
  {
    hide Decode, EscapeOf;
    DecodeEncoded(e, s, "%00" + rest);
    ByteZero();
    DecodeReads("%00", NUL, rest);
    var tail := Decode(rest);
    assert e + "%00" + rest == e + ("%00" + rest);
    assert forall i | 0 <= i < |s| :: s[i] in s;
    CutNulIs(s + ([NUL] + tail), |s|);
  }

  lemma ByteZero()
    ensures EscapeOf("%00", NUL)
  {
  }

  /** Copies a segment to the buffer, decodes it there and reads it back. */
  method DecodeSegment(buf: array<char>, segment: CString) returns (s: CString)
    requires |segment| < buf.Length
    modifies buf
    ensures s == CutNul(Decode(segment))
  {
    var n := |segment|;
    forall i | 0 <= i < n {
      buf[i] := segment[i];
    }
    buf[n] := NUL;
    assert buf[..n] == segment;
    assert forall i | 0 <= i < n :: segment[i] in segment;
    ghost var size := DecodeInPlace(buf, n);
    s := ReadString(buf, size);
  }

  lemma {:induction false} SplitStep(path: string, p: nat)
    requires path != "" && p <= |path| && forall i | 0 <= i < p :: path[i] != '/'
    requires p == |path| || path[p] == '/'
    ensures path[0] == '/' ==> Split(path) == Split(path[1..])
    ensures path[0] != '/' ==> Split(path) == [path[..p]] + (if p == |path| then [] else Split(path[p + 1..]))
    ensures Split("") == []
  {
    UntilIs(path, {'/'}, p);
    if path[0] != '/' {
      assert p < |path| ==> path[p..][1..] == path[p + 1..];
      assert p == |path| ==> path[p..] == "";
    }
  }

  lemma PathHasNoNul(uri: CString)
    ensures NUL !in PathOf(uri)
  {
    var path := PathOf(uri);
    assert forall i | 0 <= i < |path| :: path[i] in uri;
  }

  lemma PartHasNoNul(path: string, r: nat, p: nat)
    requires NUL !in path && r <= p <= |path|
    ensures NUL !in path[r..p]
  {
  }

  lemma {:induction false} SkipSlash(path: string, r: nat)
    requires r < |path| && path[r] == '/'
    ensures Split(path[r..]) == Split(path[r + 1..])
  {
    hide Split;
    SplitStep(path[r..], 0);
    assert path[r..][1..] == path[r + 1..];
  }

  /** The segment at r is the first of the segments from r on. */
  lemma {:induction false} PassSegment(path: string, r: nat, p: nat, before: seq<CString>)
    requires r < |path| && path[r] != '/' && r <= p <= |path| && (p < |path| ==> path[p] == '/')
    requires forall i | r <= i < p :: path[i] != '/'
    ensures var segment := CutNul(Decode(path[r..p]));
      before + Decoded(Split(path[r..])) ==
      before + [segment] + (if p == |path| then [] else Decoded(Split(path[p + 1..])))
  {
    hide Split, Decoded, Decode, CutNul;
    var rest, tail := path[r..], if p == |path| then [] else Split(path[p + 1..]);
    SplitStep(rest, p - r);
    assert rest[..p - r] == path[r..p];
    if p < |path| {
      assert rest[p - r + 1..] == path[p + 1..];
    }
    DecodedStep(path[r..p], tail);
    var segment := CutNul(Decode(path[r..p]));
    assert before + ([segment] + Decoded(tail)) == before + [segment] + Decoded(tail);
  }

  lemma {:induction false} NoSegments(path: string, r: nat, before: seq<CString>)
    requires r == |path|
    ensures before + Decoded(Split(path[r..])) == before
  {
    hide Split, Decoded;
    assert path[r..] == "";
    SplitStep("/", 0);
    DecodedStep("", []);
    assert before + [] == before;
  }

  /** The state of a request's path: what is left to consume and what has been. */
  class RequestInfo {
    var request: seq<CString>
    var params: seq<CString>
    var current: seq<CString>

    predicate Valid()
      reads this
    {
      current + params == request
    }

    /** What is consumed next. */
    function Next(): Option<CString>
      reads this
    {
      if params == [] then None else Some(params[0])
    }

    /** cw_request_info_init. */
    constructor (uri: Option<CString>)
      ensures Valid() && request == Request(uri) && current == []
    {
      var segments := [];
      if uri.Some? {
        segments := Segments(uri.value);
      }
      request, params, current := segments, segments, [];
    }

    /** The end of the segment that starts at r. */
    static method SegmentEnd(path: string, r: nat) returns (p: nat)
      requires r < |path|
      ensures r <= p <= |path| && (forall i | r <= i < p :: path[i] != '/') && (p < |path| ==> path[p] == '/')
    {
      p := r;
      while p < |path| && path[p] != '/'
        invariant r <= p <= |path| && forall i | r <= i < p :: path[i] != '/'
      {
        p := p + 1;
      }
    }

    /** The loop over the path. */
    static method Segments(uri: CString) returns (segments: seq<CString>)
      ensures segments == Request(Some(uri))
    {
      hide Decode, CutNul, Split, Decoded;
      segments := [];
      var path := PathOf(uri);
      PathHasNoNul(uri);
      hide PathOf;
      var buf := new char[|path| + 1];
      var r := 0;
      assert path[0..] == path;
      while r < |path|
        invariant 0 <= r <= |path| && fresh(buf) && buf.Length == |path| + 1
        invariant segments + Decoded(Split(path[r..])) == Decoded(Split(path))
      {
        if path[r] == '/' {
          SkipSlash(path, r);
          r := r + 1;
          continue;
        }
        var p := SegmentEnd(path, r);
        PassSegment(path, r, p, segments);
        PartHasNoNul(path, r, p);
        var segment := DecodeSegment(buf, path[r..p]);
        segments := segments + [segment];
        if p == |path| {
          return;
        }
        r := p + 1;
      }
      NoSegments(path, r, segments);
    }

    /** cw_request_info_vconsume. */
    method Consume() returns (out: Option<CString>)
      requires Valid()
      modifies this`params, this`current
      ensures Valid()
      ensures out == old(Next())
      ensures out.None? ==> params == old(params) == [] && current == old(current)
      ensures out.Some? ==> old(params) == [out.value] + params && current == old(current) + [out.value]
    {
      if |params| == 0 {
        return None;
      }
      var entry := params[0];
      assert current + params == (current + [entry]) + params[1..];
      params := params[1..];
      current := current + [entry];
      out := Some(entry);
    }

    /** cw_request_info_vpeek: what the next Consume returns. */
    method Peek() returns (out: Option<CString>)
      requires Valid()
      ensures out == Next()
    {
      if |params| == 0 {
        return None;
      }
      out := Some(params[0]);
    }
  }

  lemma {:induction false} DecodedStep(segment: string, rest: seq<string>)
    ensures Decoded([segment] + rest) == [CutNul(Decode(segment))] + Decoded(rest)
    ensures Decoded([]) == []
  {
    assert ([segment] + rest)[1..] == rest;
  }

  // ----- round trip -----

  /** A segment a client can ask for: not empty, without NUL, of bytes. */
  predicate Segment(s: string) {
    s != "" && NUL !in s
  }

  /** `e` stands for `s`: every character is itself or an escape in either case, and '%', '/' and '?'
      are escapes. */
  predicate Encodes(e: string, s: string) {
    if s == "" then e == ""
    else
      || (|e| >= 3 && EscapeOf(e[..3], s[0]) && Encodes(e[3..], s[1..]))
      || (e != "" && e[0] == s[0] && s[0] !in {'%', '/', '?'} && Encodes(e[1..], s[1..]))
  }

  lemma {:induction false} EncodedDecodes(e: string, s: string)
    requires Encodes(e, s)
    ensures Decode(e) == s && '/' !in e && '?' !in e
    ensures NUL !in s ==> NUL !in e
    decreases |e|
  {
    hide EscapeOf, HexByte, IsHex, UPPER_HEX, LOWER_HEX;
    if s != "" {
      if |e| >= 3 && EscapeOf(e[..3], s[0]) && Encodes(e[3..], s[1..]) {
        EscapeIsHex(e[..3], s[0]);
        EscapeHasNo(e[..3], s[0]);
        assert e == e[..3] + e[3..];
        EncodedDecodes(e[3..], s[1..]);
      } else {
        assert e == [e[0]] + e[1..];
        EncodedDecodes(e[1..], s[1..]);
      }
      assert s == [s[0]] + s[1..];
    }
  }

  lemma EscapeHasNo(e: string, byte: char)
    requires EscapeOf(e, byte)
    ensures '/' !in e && '?' !in e && NUL !in e
  {
    hide UPPER_HEX, LOWER_HEX, HexDigit, HexByte;
    EscapeIsHex(e, byte);
  }

  lemma OnePlus(s: string, t: string)
    requires s != ""
    ensures [s[0]] + (s[1..] + t) == s + t
  {
  }

  lemma {:induction false} DecodeEncoded(e: string, s: string, rest: string)
    requires Encodes(e, s)
    ensures Decode(e + rest) == s + Decode(rest)
    decreases |e|
  {
    hide EscapeOf, HexByte, IsHex, UPPER_HEX, LOWER_HEX, Decode, InTable;
    if s == "" {
      assert e + rest == rest;
    } else {
      OnePlus(s, Decode(rest));
      if |e| >= 3 && EscapeOf(e[..3], s[0]) && Encodes(e[3..], s[1..]) {
        DecodeEncoded(e[3..], s[1..], rest);
        DecodeReads(e[..3], s[0], e[3..] + rest);
        assert e + rest == e[..3] + (e[3..] + rest);
      } else {
        DecodeEncoded(e[1..], s[1..], rest);
        DecodeReads("", NUL, e + rest);
        assert (e + rest)[0] == s[0] && (e + rest)[1..] == e[1..] + rest;
      }
    }
  }

  function Slashes(n: nat): (r: string)
    ensures |r| == n && forall i | 0 <= i < n :: r[i] == '/'
  {
    seq(n, _ => '/')
  }

  /** Each segment behind some slashes. */
  function Joined(gaps: seq<nat>, encoded: seq<string>): string
    requires |gaps| == |encoded|
  {
    if encoded == [] then "" else Slashes(gaps[0]) + encoded[0] + Joined(gaps[1..], encoded[1..])
  }

  lemma {:induction false} SplitSlashes(n: nat, rest: string)
    ensures Split(Slashes(n) + rest) == Split(rest)
  {
    if n == 0 {
      assert Slashes(n) + rest == rest;
    } else {
      assert (Slashes(n) + rest)[1..] == Slashes(n - 1) + rest;
      SplitSlashes(n - 1, rest);
    }
  }

  lemma {:induction false} SplitSegment(e: string, rest: string)
    requires e != "" && '/' !in e && (rest == "" || rest[0] == '/')
    ensures Split(e + rest) == [e] + Split(rest)
  {
    var path := e + rest;
    UntilIs(path, {'/'}, |e|);
    assert path[..|e|] == e && path[|e|..] == rest;
  }

  /** Segments with one slash or more between them. */
  predicate Apart(gaps: seq<nat>, encoded: seq<string>) {
    && |gaps| == |encoded|
    && (forall i | 0 <= i < |encoded| :: encoded[i] != "" && '/' !in encoded[i])
    && (forall i | 0 < i < |gaps| :: gaps[i] > 0)
  }

  lemma {:induction false} JoinedCons(gaps: seq<nat>, encoded: seq<string>, last: nat)
    requires Apart(gaps, encoded) && encoded != []
    ensures Apart(gaps[1..], encoded[1..]) && encoded[0] != "" && '/' !in encoded[0]
    ensures var rest := Joined(gaps[1..], encoded[1..]) + Slashes(last);
      && Joined(gaps, encoded) + Slashes(last) == Slashes(gaps[0]) + (encoded[0] + rest)
      && (rest == "" || rest[0] == '/')
  {
    var e, rest := encoded[0], Joined(gaps[1..], encoded[1..]) + Slashes(last);
    assert Joined(gaps, encoded) + Slashes(last) == Slashes(gaps[0]) + (e + rest);
    assert encoded[1..] != [] ==> gaps[1..][0] == gaps[1] > 0;
  }

  /** The segments between one slash or more come apart again, whatever slashes come last. */
  lemma {:induction false} SplitJoined(gaps: seq<nat>, encoded: seq<string>, last: nat)
    requires Apart(gaps, encoded)
    ensures Split(Joined(gaps, encoded) + Slashes(last)) == encoded
    decreases |encoded|
  {
    hide Split;
    if encoded == [] {
      assert "" + Slashes(last) == Slashes(last) + "";
      SplitSlashes(last, "");
      SplitStep("/", 0);
    } else {
      hide Joined, Apart;
      JoinedCons(gaps, encoded, last);
      var e, rest := encoded[0], Joined(gaps[1..], encoded[1..]) + Slashes(last);
      SplitSlashes(gaps[0], e + rest);
      SplitSegment(e, rest);
      SplitJoined(gaps[1..], encoded[1..], last);
      assert encoded == [e] + encoded[1..];
    }
  }

  lemma {:induction false} DecodedAll(encoded: seq<string>, segments: seq<string>)
    requires |encoded| == |segments|
    requires forall i | 0 <= i < |segments| :: Encodes(encoded[i], segments[i]) && NUL !in segments[i]
    ensures Decoded(encoded) == segments
  {
    if encoded != [] {
      var s := segments[0];
      EncodedDecodes(encoded[0], s);
      assert forall i | 0 <= i < |s| :: s[i] in s;
      CutNulIs(s, |s|);
      assert s[..|s|] == s && segments == [s] + segments[1..];
      DecodedAll(encoded[1..], segments[1..]);
    }
  }

  lemma {:induction false} JoinedHasNo(gaps: seq<nat>, encoded: seq<string>, c: char)
    requires |gaps| == |encoded| && c != '/'
    requires forall i | 0 <= i < |encoded| :: c !in encoded[i]
    ensures c !in Joined(gaps, encoded)
  {
    if encoded != [] {
      JoinedHasNo(gaps[1..], encoded[1..], c);
    }
  }

  /** For any list of non-empty NUL-free segments, any escaping of them that escapes at least '%',
      '/' and '?', any number of slashes between, before and behind them, and any query string, the
      request array is the list of segments. */
  lemma {:induction false} PathRoundTrip(segments: seq<string>, encoded: seq<string>, gaps: seq<nat>, last: nat,
                                         query: Option<CString>)
    requires |segments| == |encoded| == |gaps|
    requires forall i | 0 <= i < |segments| :: Segment(segments[i]) && Encodes(encoded[i], segments[i])
    requires forall i | 0 < i < |gaps| :: gaps[i] > 0
    ensures var uri := Joined(gaps, encoded) + Slashes(last) + (if query.Some? then "?" + query.value else "");
      NUL !in uri && Request(Some(uri)) == segments
  {
    hide Decode, Split, Decoded;
    forall i | 0 <= i < |segments|
      ensures '/' !in encoded[i] && '?' !in encoded[i] && NUL !in encoded[i] && encoded[i] != ""
    {
      EncodedDecodes(encoded[i], segments[i]);
    }
    var path := Joined(gaps, encoded) + Slashes(last);
    JoinedHasNo(gaps, encoded, '?');
    JoinedHasNo(gaps, encoded, NUL);
    assert '?' !in path;
    var uri := path + (if query.Some? then "?" + query.value else "");
    UntilIs(uri, {'?'}, |path|);
    assert PathOf(uri) == path;
    SplitJoined(gaps, encoded, last);
    DecodedAll(encoded, segments);
  }

  // ----- the escaping that escapes exactly what has to be -----

  function Escaped(s: string): string {
    if s == "" then ""
    else
      var c := s[0] as int;
      (if s[0] in {'%', '/', '?'} then ['%', UPPER_HEX[c / 16], UPPER_HEX[c % 16]] else [s[0]]) + Escaped(s[1..])
  }

  lemma {:induction false} EscapedEncodes(s: string)
    ensures Encodes(Escaped(s), s)
  {
    if s != "" {
      var e, rest := Escaped(s), Escaped(s[1..]);
      EscapedEncodes(s[1..]);
      if s[0] in {'%', '/', '?'} {
        assert e[3..] == rest;
      } else {
        assert e[1..] == rest;
      }
    }
  }
}
