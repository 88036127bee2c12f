/** The response of endpoints/fcgi/request.c: headers until the first write, then the header block,
    a newline and the bodies. The output stream is the string of the bytes it has taken. */
module Responses {
  import opened Wrappers
  import opened CStrings
  import opened Headers

  // ----- the response on values -----

  datatype Response = Response(headers: Headers, sent: bool, wbytes: nat, out: string)

  /** What a handler does. The order in which jd_keys lists the headers, the value that r happens to
      have in cw_request_headers_send and the number of bytes the stream takes are not the
      handler's choice. */
  datatype Op =
    | Set(name: string, value: Option<string>, replace: bool)
    | Write(buf: string, taken: int, keys: seq<string>, r0: int)

  const FRESH := Response(Initial(), false, 0, "")

  /** request_write_header_ */
  function LineText(line: Line): string {
    line.name + ": " + line.value + "\n"
  }

  function LinesText(lines: seq<Line>): string {
    if lines == [] then "" else LineText(lines[0]) + LinesText(lines[1..])
  }

  /** The callback of the FastCGI endpoint always returns 0. */
  function Always0(): nat -> int {
    (k: nat) => 0
  }

  /** The text the first write puts before its body. */
  function Block(h: Headers, keys: seq<string>, r0: int): string {
    LinesText(SendKeys(h, keys, Sending([], r0), Always0()).lines) + "\n"
  }

  /** The stream takes no more than it is given; a negative result is an error. */
  predicate Possible(h: Headers, op: Op) {
    op.Write? ==> op.taken <= |op.buf| && IsListing(op.keys, h)
  }

  function Body(op: Op): string
    requires op.Write? ==> op.taken <= |op.buf|
  {
    if op.Write? && op.taken > 0 then op.buf[..op.taken] else ""
  }

  function Next(r: Response, op: Op): Response
    requires Possible(r.headers, op)
  {
    match op
    case Set(name, value, replace) =>
      if r.sent then r else r.(headers := SetHeader(r.headers, name, value, replace).headers)
    case Write(buf, taken, keys, r0) =>
      var block := if r.sent then "" else Block(r.headers, keys, r0);
      Response(r.headers, true, r.wbytes + |block| + |Body(op)|, r.out + block + Body(op))
  }

  // ----- the headers in their own form -----

  method LowerAll(s: string) returns (l: string)
    ensures l == Lower(s)
  {
    l := "";
    var p := 0;
    while p < |s|
      invariant 0 <= p <= |s| && |l| == p && forall i | 0 <= i < p :: l[i] == ToLower(s[i])
    {
      l := l + [ToLower(s[p])];
      p := p + 1;
    }
  }

  lemma {:induction false} InitialIsSet()
    ensures var first := SetHeader(Headers(map[], 0), "Status", Some("200 OK"), true).headers;
      SetHeader(first, "Content-Type", Some("text/html"), true).headers == Initial()
  {
    InitialNames();
    hide StatusOf, Lower;
    assert [] + ["200 OK"] == ["200 OK"] && [] + ["text/html"] == ["text/html"];
  }

  class HeaderHash {
    var entries: map<string, Header>
    var status: int

    function Value(): Headers
      reads this
    {
      Headers(entries, status)
    }

    ghost predicate Valid()
      reads this
    {
      Sound(Value())
    }

    /** cw_request_headers_init. */
    constructor ()
      ensures Value() == Initial()
    {
      entries, status := map[], 0;
      new;
      InitialIsSet();
      hide StatusOf, Lower, SetHeader, Initial;
      var _ := Set("Status", Some("200 OK"), true);
      var _ := Set("Content-Type", Some("text/html"), true);
    }

    /** cw_request_headers_vset. */
    method Set(name: string, value: Option<string>, replace: bool) returns (outcome: Outcome)
      modifies this
      ensures SetHeader(old(Value()), name, value, replace) == Setting(Value(), outcome)
      ensures outcome ==
        if value.None? && !replace then EINVAL
        else if Lower(name) != "status" then Done
        else if value.None? || !replace then EPERM
        else if exists n: nat, a, sign, z, tail :: IsStatusText(value.value, n, a, sign, z, tail) then Done
        else EINVAL
    {
      OutcomeIs(old(Value()), name, value, replace);
      hide IsStatusText, StatusOf, Lower, Stored;
      if value.None? && !replace {
        return EINVAL;
      }
      var key := LowerAll(name);
      if key == STATUS {
        if value.None? || !replace {
          return EPERM;
        }
        var refused := SetStatus(value.value);
        if refused {
          return EINVAL;
        }
      }
      Store(name, key, value, replace);
      outcome := Done;
    }

    /** What it does when the setting is accepted: the name as given, and the values kept or not. */
    method Store(name: string, key: string, value: Option<string>, replace: bool)
      requires key == Lower(name) && (value.Some? || replace)
      modifies this`entries
      ensures Value() == Stored(old(Value()), name, value, replace)
    {
      hide Lower;
      if key !in entries {
        entries := entries[key := Header("", [])];
      }
      entries := entries[key := entries[key].(name := name)];
      if replace {
        entries := entries[key := entries[key].(values := [])];
        if value.None? {
          ghost var none: seq<string> := [];
          assert none + none == none;
          assert entries == old(entries)[key := Header(name, none)];
          return;
        }
      }
      entries := entries[key := entries[key].(values := entries[key].values + [value.value])];
      ghost var kept := if replace then [] else ValuesOf(old(Value()), name);
      assert entries == old(entries)[key := Header(name, kept + [value.value])];
    }

    /** cw_request_headers_vset_status_ */
    method SetStatus(value: string) returns (refused: bool)
      modifies this`status
      ensures refused == StatusOf(value).None?
      ensures refused <==> !exists n: nat, a, sign, z, tail :: IsStatusText(value, n, a, sign, z, tail)
      ensures !refused ==> status >= 0 && exists a, sign, z, tail :: IsStatusText(value, status, a, sign, z, tail)
      ensures status == StatusOf(value).GetOr(old(status))
    {
      StatusIs(value);
      hide IsStatusText;
      var n := StrTol(value);
      if n.value < 100 || n.value > 999 || (n.end < |value| && !IsSpace(value[n.end])) {
        return true;
      }
      status := n.value;
      return false;
    }

    /** cw_request_headers_send; answers(k) is what the k-th call of the callback returns, `r0` what
        is in r before the first. */
    method Send(keys: seq<string>, r0: int, answers: nat -> int) returns (lines: seq<Line>)
      requires IsListing(keys, Value()) && Valid()
      ensures lines == SendKeys(Value(), keys, Sending([], r0), answers).lines
    {
      hide Sound, SendKeys, SendValues;
      lines := [];
      var r, hi := r0, 0;
      assert keys[0..] == keys;
      while hi < |keys|
        invariant 0 <= hi <= |keys|
        invariant SendKeys(Value(), keys[hi..], Sending(lines, r), answers) ==
          SendKeys(Value(), keys, Sending([], r0), answers)
      {
        var key := keys[hi];
        assert keys[hi..][1..] == keys[hi + 1..];
        SendStep(Value(), keys[hi..], Sending(lines, r), answers);
        hi := hi + 1;
        if IsInternal(key) {
          continue;
        }
        assert key in keys;
        var header := entries[key];
        lines, r := SendHeader(header, lines, r, answers);
        if r == -2 {
          return;
        }
      }
      assert keys[hi..] == [];
      SendStep(Value(), [], Sending(lines, r), answers);
    }

    /** The inner loop: the values of one header. */
    static method SendHeader(header: Header, before: seq<Line>, r0: int, answers: nat -> int)
      returns (lines: seq<Line>, r: int)
      ensures Sending(lines, r) == SendValues(header, 0, Sending(before, r0), answers)
    {
      lines, r := before, r0;
      var vi, vcount := 0, |header.values|;
      while vi < vcount
        invariant 0 <= vi <= vcount
        invariant SendValues(header, vi, Sending(lines, r), answers) ==
          SendValues(header, 0, Sending(before, r0), answers)
      {
        r := answers(|lines|);
        lines := lines + [Line(header.name, header.values[vi], vi + 1 < vcount)];
        if r < 0 {
          break;
        }
        vi := vi + 1;
      }
    }
  }

  // ----- the response in its own form -----

  class FcgiRequest {
    const headers: HeaderHash
    var headersSent: bool
    var wbytes: nat
    // The output stream.
    var out: string

    function Value(): Response
      reads this, headers
    {
      Response(headers.Value(), headersSent, wbytes, out)
    }

    ghost predicate Valid()
      reads this, headers
    {
      headers.Valid() && wbytes == |out|
    }

    /** The part of request_create_ that the response needs. */
    constructor ()
      ensures Valid() && fresh(headers) && Value() == FRESH
    {
      InitialSound();
      headers := new HeaderHash();
      headersSent, wbytes, out := false, 0, "";
    }

    /** request_header_: refused after the headers are sent; the outcome of the setting is dropped. */
    method SetHeaderLine(name: string, value: Option<string>, replace: bool) returns (r: int)
      requires Valid()
      modifies headers
      ensures Valid() && Value() == Next(old(Value()), Set(name, value, replace))
      ensures r == if headersSent then -1 else 0
    {
      if headersSent {
        return -1;
      }
      SetKeepsSound(headers.Value(), name, value, replace);
      hide Sound, StatusOf, Lower, SetHeader;
      var _ := headers.Set(name, value, replace);
      r := 0;
    }

    /** request_write_header_ */
    method WriteHeader(name: string, value: string) returns (r: int)
      modifies this`out, this`wbytes
      ensures out == old(out) + name + ": " + value + "\n" && r == 0
      ensures wbytes == old(wbytes) + |name| + |value| + 3
    {
      out := out + name;
      out := out + ":";
      out := out + " ";
      out := out + value;
      out := out + "\n";
      wbytes := wbytes + |name| + |value| + 3;
      r := 0;
    }

    /** request_write_ */
    method WriteBody(buf: string, taken: int, keys: seq<string>, r0: int) returns (r: int)
      requires Valid() && Possible(headers.Value(), Write(buf, taken, keys, r0))
      modifies this
      ensures Valid() && Value() == Next(old(Value()), Write(buf, taken, keys, r0)) && r == taken
      ensures headersSent && headers.Value() == old(headers.Value())
      ensures out == old(out) + (if old(headersSent) then "" else Block(headers.Value(), keys, r0))
        + (if taken > 0 then buf[..taken] else "")
      ensures wbytes == |out|
    {
      hide Sound, Block, IsListing;
      if !headersSent {
        WriteBlock(keys, r0);
      }
      r := taken;
      ghost var was := out;
      if r > 0 {
        out := out + buf[..r];
        wbytes := wbytes + r;
      }
      assert out == was + Body(Write(buf, taken, keys, r0));
    }

    /** The calls of the callback. */
    method WriteLines(lines: seq<Line>)
      modifies this`out, this`wbytes
      ensures out == old(out) + LinesText(lines) && wbytes == old(wbytes) + |LinesText(lines)|
    {
      hide LineText;
      ghost var was, before, text := out, wbytes, LinesText(lines);
      var i := 0;
      assert lines[0..] == lines;
      while i < |lines|
        invariant 0 <= i <= |lines|
        invariant out + LinesText(lines[i..]) == was + text
        invariant wbytes + |LinesText(lines[i..])| == before + |text|
      {
        assert lines[i..][1..] == lines[i + 1..];
        var line, now := lines[i], out;
        var _ := WriteHeader(line.name, line.value);
        TextOf(now, line);
        assert now + (LineText(line) + LinesText(lines[i + 1..])) == now + LineText(line) + LinesText(lines[i + 1..]);
        i := i + 1;
      }
      assert lines[i..] == [] && out + "" == out;
    }

    static lemma TextOf(before: string, line: Line)
      ensures before + line.name + ": " + line.value + "\n" == before + LineText(line)
      ensures |LineText(line)| == |line.name| + |line.value| + 3
    {
    }

    method WriteBlock(keys: seq<string>, r0: int)
      requires Valid() && IsListing(keys, headers.Value()) && !headersSent
      modifies this
      ensures Valid() && headersSent
      ensures out == old(out) + Block(headers.Value(), keys, r0)
      ensures wbytes == old(wbytes) + |Block(headers.Value(), keys, r0)|
    {
      hide SendKeys, Sound, LinesText;
      var lines := headers.Send(keys, r0, Always0());
      WriteLines(lines);
      ghost var was, text := old(out), LinesText(lines);
      out := out + "\n";
      assert was + text + "\n" == was + (text + "\n");
      wbytes := wbytes + 1;
      headersSent := true;
    }
  }
}
