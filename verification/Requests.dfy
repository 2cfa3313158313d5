/** The requests that clients send, and what the endpoint makes of them: a grammar of request texts,
    written byte by byte, and the verdict on every text of it.  The response is read by the same
    parser. */
module Requests {
  import opened Bytes
  import opened Text
  import opened Handshake
  import Base64
  import Sha1
  import Sha1Standard

  // ---------- the grammar ----------

  function Spaces(n: nat): (s: seq<byte>)
    ensures |s| == n
  {
    seq(n, _ => 32)
  }

  /** A header line: a field with any spaces around name and value, or one of the three kinds of
      line that are skipped. */
  datatype Header =
    | Field(before: nat, name: seq<byte>, between: nat, after: nat, value: seq<byte>, behind: nat)
    | NoColon(text: seq<byte>)
    | NoName(before: nat, text: seq<byte>)
    | NoValue(text: seq<byte>, after: nat)

  /** Blank lines, the request line with any spaces around it, and header lines. */
  datatype RequestText = RequestText(blanks: seq<nat>, lead: nat, tokens: seq<seq<byte>>, trail: nat,
                                     headers: seq<Header>)

  /** No line break in it. */
  predicate OneLine(s: seq<byte>) {
    CR !in s && LF !in s
  }

  predicate PlainHeader(h: Header) {
    match h
    case Field(_, name, _, _, value, _) =>
      && name != [] && value != [] && Trimmed(name) && Trimmed(value)
      && OneLine(name) && OneLine(value) && COLON !in name
    case NoColon(text) => text != [] && OneLine(text) && COLON !in text
    case NoName(_, text) => OneLine(text)
    case NoValue(text, _) => OneLine(text) && COLON !in text
  }

  predicate PlainToken(s: seq<byte>) {
    s != [] && OneLine(s) && SPACE !in s
  }

  predicate PlainRequest(r: RequestText) {
    && r.tokens != []
    && (forall n :: n in r.blanks ==> n > 0)
    && (forall t :: t in r.tokens ==> PlainToken(t))
    && (forall h :: h in r.headers ==> PlainHeader(h))
  }

  function HeaderLine(h: Header): seq<byte> {
    match h
    case Field(before, name, between, after, value, behind) =>
      Spaces(before) + name + Spaces(between) + [58] + (Spaces(after) + value + Spaces(behind))
    case NoColon(text) => text
    case NoName(before, text) => Spaces(before) + [58] + text
    case NoValue(text, after) => text + [58] + Spaces(after)
  }

  function HeaderLines(hs: seq<Header>): (r: seq<seq<byte>>)
    ensures |r| == |hs|
    ensures forall i :: 0 <= i < |r| ==> r[i] == HeaderLine(hs[i])
  {
    if hs == [] then [] else [HeaderLine(hs[0])] + HeaderLines(hs[1..])
  }

  function BlankLines(blanks: seq<nat>): (r: seq<seq<byte>>)
    ensures |r| == |blanks|
    ensures forall i :: 0 <= i < |r| ==> r[i] == Spaces(blanks[i])
  {
    if blanks == [] then [] else [Spaces(blanks[0])] + BlankLines(blanks[1..])
  }

  function Spaced(tokens: seq<seq<byte>>): seq<byte> {
    if tokens == [] then [] else if |tokens| == 1 then tokens[0] else tokens[0] + [32] + Spaced(tokens[1..])
  }

  function RequestLine(r: RequestText): seq<byte> {
    Spaces(r.lead) + Spaced(r.tokens) + Spaces(r.trail)
  }

  function RequestLines(r: RequestText): seq<seq<byte>> {
    BlankLines(r.blanks) + ([RequestLine(r)] + HeaderLines(r.headers))
  }

  /** Lines, each with its line break. */
  function Lined(lines: seq<seq<byte>>): seq<byte> {
    if lines == [] then [] else lines[0] + [13, 10] + Lined(lines[1..])
  }

  /** The request as it is sent: its lines, and an empty one. */
  function Print(r: RequestText): seq<byte> {
    Lined(RequestLines(r)) + [13, 10]
  }

  /** The fields as a map; a later field replaces an earlier one of the same name. */
  function FieldMap(m: Params, hs: seq<Header>): Params
    decreases |hs|
  {
    if hs == [] then m
    else FieldMap(if hs[0].Field? then m[hs[0].name := hs[0].value] else m, hs[1..])
  }

  // ---------- lines ----------

  lemma NotAt2(s: seq<byte>, d: seq<byte>, j: nat)
    requires 2 < |d| && (j + 2 < |s| ==> s[j + 2] != d[2])
    ensures !OccursAt(s, d, j)
  {
    if j + |d| <= |s| {
      assert s[j..j + |d|][2] == s[j + 2];
    }
  }

  lemma FindFrom(s: seq<byte>, d: seq<byte>, a: nat, b: nat)
    requires a <= b && forall j :: a <= j < b ==> !OccursAt(s, d, j)
    ensures Find(s, d, a) == Find(s, d, b)
  {
    var i := Find(s, d, b);
    FindFirst(s, d, b);
    if i == -1 {
      FindNone(s, d, a);
    } else {
      FindIs(s, d, a, i);
    }
  }

  /** No terminator starts within a line, or at its end when another line follows. */
  lemma SkipLine(pre: seq<byte>, l: seq<byte>, tail: seq<byte>)
    requires OneLine(l) && tail != [] && tail[0] != CR
    ensures var s := pre + l + EOL + tail;
            Find(s, TERMINATOR, |pre|) == Find(s, TERMINATOR, |pre + l + EOL|)
  {
    var s, a, b := pre + l + EOL + tail, |pre|, |pre + l|;
    assert s[b + 1] == LF && s[b + 2] == tail[0];
    forall j | a <= j < b + 2 ensures !OccursAt(s, TERMINATOR, j) {
      if j < b {
        assert s[j] == l[j - a];
        NotAt(s, TERMINATOR, j);
      } else if j == b {
        NotAt2(s, TERMINATOR, j);
      } else {
        NotAt(s, TERMINATOR, j);
      }
    }
    FindFrom(s, TERMINATOR, a, b + 2);
  }

  predicate PlainLines(lines: seq<seq<byte>>) {
    forall l :: l in lines ==> l != [] && OneLine(l)
  }

  lemma JoinStarts(lines: seq<seq<byte>>)
    requires lines != [] && PlainLines(lines)
    ensures lines[0] != [] && Join(lines, EOL) != [] && Join(lines, EOL)[0] == lines[0][0] != CR
  {
    assert lines[0] in lines;
  }

  lemma Regroup(a: seq<byte>, b: seq<byte>, c: seq<byte>, d: seq<byte>, e: seq<byte>, f: seq<byte>)
    ensures a + ((b + c + d) + e + f) == a + b + c + (d + e + f)
  {
  }

  /** The blank line after non-empty lines is the first terminator. */
  lemma {:induction false} TerminatorFound(pre: seq<byte>, lines: seq<seq<byte>>, rest: seq<byte>)
    requires lines != [] && PlainLines(lines)
    ensures Find(pre + (Join(lines, EOL) + TERMINATOR + rest), TERMINATOR, |pre|) == |pre| + |Join(lines, EOL)|
    decreases lines
  {
    var l := lines[0];
    assert l in lines;
    if |lines| == 1 {
      FindPast(pre, l, TERMINATOR, rest);
      assert pre + (l + TERMINATOR + rest) == pre + l + TERMINATOR + rest;
    } else {
      var j := Join(lines[1..], EOL);
      var tail := j + TERMINATOR + rest;
      JoinStarts(lines[1..]);
      SkipLine(pre, l, tail);
      TerminatorFound(pre + l + EOL, lines[1..], rest);
      Regroup(pre, l, EOL, j, TERMINATOR, rest);
    }
  }

  lemma PrintedLines(lines: seq<seq<byte>>, rest: seq<byte>)
    requires lines != [] && PlainLines(lines)
    ensures Fetch(Join(lines, EOL) + EOL + EOL + rest) == ParseLines(map[], |Join(lines, EOL)| + 4, lines)
  {
    var text := Join(lines, EOL);
    var msg := text + EOL + EOL + rest;
    TerminatorFound([], lines, rest);
    assert msg == [] + (text + TERMINATOR + rest);
    assert msg[..|text|] == text;
    assert lines[|lines| - 1] in lines;
    SplitJoin(lines, EOL);
  }

  lemma {:induction false} LinedJoin(lines: seq<seq<byte>>)
    requires lines != []
    ensures Lined(lines) == Join(lines, EOL) + EOL
    decreases |lines|
  {
    if |lines| == 1 {
      assert lines[1..] == [];
    } else {
      LinedJoin(lines[1..]);
      Associates(lines[0] + EOL, Join(lines[1..], EOL), EOL);
    }
  }

  lemma {:induction false} SpacedJoin(tokens: seq<seq<byte>>)
    ensures Spaced(tokens) == Join(tokens, [SPACE])
    decreases |tokens|
  {
    if |tokens| <= 1 {
    } else {
      SpacedJoin(tokens[1..]);
    }
  }

  lemma {:induction false} SpacedEnds(tokens: seq<seq<byte>>)
    requires tokens != [] && forall t :: t in tokens ==> PlainToken(t)
    ensures var s := Spaced(tokens);
            s != [] && OneLine(s) && s[0] != SPACE && s[|s| - 1] != SPACE
    decreases |tokens|
  {
    var t := tokens[0];
    assert t in tokens && t[0] in t && t[|t| - 1] in t;
    if |tokens| == 1 {
    } else {
      SpacedEnds(tokens[1..]);
    }
  }

  lemma SpacedTokens(tokens: seq<seq<byte>>)
    requires tokens != [] && forall t :: t in tokens ==> PlainToken(t)
    ensures Split(Spaced(tokens), [SPACE]) == tokens
  {
    SpacedJoin(tokens);
    assert tokens[|tokens| - 1] in tokens;
    SplitJoin(tokens, [SPACE]);
  }

  lemma TokenTrim(s: seq<byte>)
    requires PlainToken(s)
    ensures Trim(s) == s
  {
    assert s[0] in s && s[|s| - 1] in s;
    TrimmedTrim(s);
  }

  lemma RequestLineRead(r: RequestText)
    requires PlainRequest(r)
    ensures RequestLine(r) != [] && OneLine(RequestLine(r)) && Trim(RequestLine(r)) == Spaced(r.tokens) != []
  {
    SpacedEnds(r.tokens);
    TrimPadded(r.lead, Spaced(r.tokens), r.trail);
  }

  // ---------- header lines ----------

  lemma HeaderLinePlain(h: Header)
    requires PlainHeader(h)
    ensures HeaderLine(h) != [] && OneLine(HeaderLine(h))
  {
  }

  lemma HeaderRead(m: Params, h: Header)
    requires PlainHeader(h)
    ensures AddField(m, HeaderLine(h)) == if h.Field? then m[h.name := h.value] else m
  {
    match h
    case Field(before, name, between, after, value, behind) =>
      ColonCut(Spaces(before) + name + Spaces(between), Spaces(after) + value + Spaces(behind));
      TrimPadded(before, name, between);
      TrimPadded(after, value, behind);
    case NoColon(text) =>
      FindAbsent([], text, [COLON]);
      assert [] + text == text;
    case NoName(before, text) =>
      ColonCut(Spaces(before), text);
      TrimSpaces(before);
    case NoValue(text, after) =>
      ColonCut(text, Spaces(after));
      TrimSpaces(after);
  }

  /** The first colon of a line. */
  lemma ColonCut(k: seq<byte>, v: seq<byte>)
    requires COLON !in k
    ensures var line := k + [58] + v;
            Find(line, [COLON], 0) == |k| && line[..|k|] == k && line[|k| + 1..] == v
  {
    var line := k + [58] + v;
    FindPast([], k, [COLON], v);
    assert [] + k + [COLON] + v == line;
  }

  lemma TrimSpaces(n: nat)
    ensures Trim(Spaces(n)) == []
  {
    TrimPadded(n, [], 0);
    assert Spaces(n) + [] + Spaces(0) == Spaces(n);
  }

  lemma {:induction false} HeadersRead(m: Params, hs: seq<Header>)
    requires forall h :: h in hs ==> PlainHeader(h)
    ensures AddFields(m, HeaderLines(hs)) == FieldMap(m, hs)
    decreases |hs|
  {
    if hs == [] {
    } else {
      assert hs[0] in hs;
      HeaderRead(m, hs[0]);
      HeadersRead(AddField(m, HeaderLine(hs[0])), hs[1..]);
      assert HeaderLines(hs)[1..] == HeaderLines(hs[1..]);
    }
  }

  lemma LinesPlain(r: RequestText)
    requires PlainRequest(r)
    ensures PlainLines(RequestLines(r))
  {
    RequestLineRead(r);
    forall l | l in RequestLines(r) ensures l != [] && OneLine(l) {
      if l in BlankLines(r.blanks) {
        BlankPlain(r.blanks, l);
      } else if l != RequestLine(r) {
        var i :| 0 <= i < |r.headers| && l == HeaderLines(r.headers)[i];
        assert r.headers[i] in r.headers;
        HeaderLinePlain(r.headers[i]);
      }
    }
  }

  lemma BlankPlain(blanks: seq<nat>, l: seq<byte>)
    requires (forall n :: n in blanks ==> n > 0) && l in BlankLines(blanks)
    ensures l != [] && OneLine(l)
  {
    var i :| 0 <= i < |blanks| && l == BlankLines(blanks)[i];
    assert blanks[i] in blanks;
  }

  lemma {:induction false} BlanksSkipped(blanks: seq<nat>, lines: seq<seq<byte>>)
    requires lines != [] && Trim(lines[0]) != []
    ensures LeadingBlanks(BlankLines(blanks) + lines) == |blanks|
    decreases |blanks|
  {
    if blanks == [] {
      assert BlankLines(blanks) + lines == lines;
    } else {
      var all := BlankLines(blanks) + lines;
      TrimSpaces(blanks[0]);
      assert all[0] == Spaces(blanks[0]);
      assert all[1..] == BlankLines(blanks[1..]) + lines;
      BlanksSkipped(blanks[1..], lines);
    }
  }

  // ---------- a request is read back ----------

  /** A request needs three tokens, and more than its first line. */
  predicate Complete(r: RequestText) {
    3 <= |r.tokens| && (r.blanks != [] || r.headers != [])
  }

  lemma LinesParsed(r: RequestText, size: nat)
    requires PlainRequest(r)
    ensures ParseLines(map[], size, RequestLines(r)) ==
            if Complete(r)
            then Parsed(size, r.tokens[0], r.tokens[1], r.tokens[2], FieldMap(map[], r.headers)) else Unfinished
  {
    var lines, k := RequestLines(r), |r.blanks|;
    var own := [RequestLine(r)] + HeaderLines(r.headers);
    RequestLineRead(r);
    BlanksSkipped(r.blanks, own);
    SpacedTokens(r.tokens);
    HeadersRead(map[], r.headers);
    assert lines[k] == RequestLine(r) && lines[k + 1..] == HeaderLines(r.headers);
    if 3 <= |r.tokens| {
      TokenTrim(r.tokens[0]);
      TokenTrim(r.tokens[1]);
      TokenTrim(r.tokens[2]);
    }
  }

  /** Every printed request, with anything behind it, is read back: its length, its first three
      tokens and its fields, last one wins; without three tokens or a second line it is not one. */
  lemma PrintFetch(r: RequestText, rest: seq<byte>)
    requires PlainRequest(r)
    ensures Fetch(Print(r) + rest) ==
            if Complete(r)
            then Parsed(|Print(r)|, r.tokens[0], r.tokens[1], r.tokens[2], FieldMap(map[], r.headers)) else Unfinished
  {
    var lines := RequestLines(r);
    LinesPlain(r);
    LinedJoin(lines);
    PrintedLines(lines, rest);
    LinesParsed(r, |Print(r)|);
  }

  // ---------- the verdict on a request ----------

  /** The bytes of a text. */
  predicate Spells(b: seq<byte>, s: string) {
    |b| == |s| && forall i :: 0 <= i < |s| ==> b[i] as nat == s[i] as nat % 256
  }

  lemma SpellsAscii(b: seq<byte>, s: string)
    ensures Spells(b, s) <==> b == Ascii(s)
  {
    AsciiNumbers(s);
    forall i | 0 <= i < |b| ensures Value(b[i]) == b[i] as nat {
      ValueIsNumber(b[i]);
    }
    forall i | 0 <= i < |s| ensures Value(Ascii(s)[i]) == Ascii(s)[i] as nat {
      ValueIsNumber(Ascii(s)[i]);
    }
    if Spells(b, s) {
      SameBytes(b, Ascii(s));
    }
  }

  predicate NamedField(h: Header, name: seq<byte>) {
    h.Field? && h.name == name
  }

  predicate LastAt(hs: seq<Header>, i: nat, name: seq<byte>, value: seq<byte>) {
    && i < |hs| && NamedField(hs[i], name) && hs[i].value == value
    && forall j :: i < j < |hs| ==> !NamedField(hs[j], name)
  }

  /** The last field of that name has that value. */
  ghost predicate LastIs(hs: seq<Header>, name: seq<byte>, value: seq<byte>) {
    exists i: nat :: LastAt(hs, i, name, value)
  }

  predicate Unnamed(hs: seq<Header>, name: seq<byte>) {
    forall j :: 0 <= j < |hs| ==> !NamedField(hs[j], name)
  }

  /** What holds of all places of `s` behind `i` holds of all of its tail behind `i - 1`. */
  lemma TailUnnamed(h: Header, tail: seq<Header>, i: nat, name: seq<byte>)
    requires i <= |tail|
    ensures (forall j :: i < j <= |tail| ==> !NamedField(([h] + tail)[j], name))
            <==> (forall j :: i <= j < |tail| ==> !NamedField(tail[j], name))
  {
    var hs := [h] + tail;
    forall j | i <= j < |tail| ensures hs[j + 1] == tail[j] {
    }
    forall j | i < j <= |tail| ensures hs[j] == tail[j - 1] {
    }
  }

  lemma LastInTail(h: Header, tail: seq<Header>, name: seq<byte>, value: seq<byte>)
    ensures LastIs([h] + tail, name, value) <==>
            LastIs(tail, name, value) || (NamedField(h, name) && h.value == value && Unnamed(tail, name))
    ensures Unnamed([h] + tail, name) <==> !NamedField(h, name) && Unnamed(tail, name)
  {
    var hs := [h] + tail;
    TailUnnamed(h, tail, 0, name);
    if LastIs(hs, name, value) {
      var i: nat :| LastAt(hs, i, name, value);
      if i > 0 {
        assert hs[i] == tail[i - 1];
        TailUnnamed(h, tail, i, name);
        assert LastAt(tail, i - 1, name, value);
      }
    }
    if LastIs(tail, name, value) {
      var i: nat :| LastAt(tail, i, name, value);
      assert hs[i + 1] == tail[i];
      TailUnnamed(h, tail, i + 1, name);
      assert LastAt(hs, i + 1, name, value);
    }
    if NamedField(h, name) && h.value == value && Unnamed(tail, name) {
      assert LastAt(hs, 0, name, value);
    }
  }

  lemma {:induction false} FieldMapLast(m: Params, hs: seq<Header>, name: seq<byte>, value: seq<byte>)
    ensures (name in FieldMap(m, hs) && FieldMap(m, hs)[name] == value) <==>
            LastIs(hs, name, value) || (Unnamed(hs, name) && name in m && m[name] == value)
    decreases |hs|
  {
    if hs == [] {
    } else {
      var h, tail := hs[0], hs[1..];
      FieldMapLast(if h.Field? then m[h.name := h.value] else m, tail, name, value);
      LastInTail(h, tail, name, value);
      assert hs == [h] + tail;
    }
  }

  /** The last field with that name has that value, both spelled out. */
  ghost predicate Says(hs: seq<Header>, name: string, value: string) {
    exists k, v :: Spells(k, name) && Spells(v, value) && LastIs(hs, k, v)
  }

  /** The last field with that name has some value. */
  ghost predicate Gives(hs: seq<Header>, name: string) {
    exists k, v :: Spells(k, name) && v != [] && LastIs(hs, k, v)
  }

  /** What an opening handshake has to say. */
  ghost predicate Wanted(hs: seq<Header>) {
    && Says(hs, "Upgrade", "websocket") && Says(hs, "Connection", "Upgrade")
    && Says(hs, "Sec-WebSocket-Version", "13") && Gives(hs, "Sec-WebSocket-Key")
  }

  lemma SaysGet(hs: seq<Header>, name: string, value: string)
    requires value != ""
    ensures Says(hs, name, value) <==> Get(FieldMap(map[], hs), name) == Ascii(value)
  {
    var k, v := Ascii(name), Ascii(value);
    FieldMapLast(map[], hs, k, v);
    SpellsAscii(k, name);
    SpellsAscii(v, value);
    if Says(hs, name, value) {
      var k', v' :| Spells(k', name) && Spells(v', value) && LastIs(hs, k', v');
      SpellsAscii(k', name);
      SpellsAscii(v', value);
    }
  }

  lemma GivesGet(hs: seq<Header>, name: string)
    ensures Gives(hs, name) <==> Get(FieldMap(map[], hs), name) != []
  {
    var k := Ascii(name);
    SpellsAscii(k, name);
    if Gives(hs, name) {
      var k', v :| Spells(k', name) && v != [] && LastIs(hs, k', v);
      SpellsAscii(k', name);
      FieldMapLast(map[], hs, k, v);
    }
    if Get(FieldMap(map[], hs), name) != [] {
      FieldMapLast(map[], hs, k, Get(FieldMap(map[], hs), name));
    }
  }

  lemma WantedAcceptable(hs: seq<Header>)
    ensures Wanted(hs) <==> Acceptable(FieldMap(map[], hs))
  {
    SaysGet(hs, "Upgrade", "websocket");
    SaysGet(hs, "Connection", "Upgrade");
    SaysGet(hs, "Sec-WebSocket-Version", "13");
    GivesGet(hs, "Sec-WebSocket-Key");
  }

  /** A request that fits in the buffer is accepted if it says what is wanted, refused if it does
      not, and waited for while it is not complete, whatever comes behind it. */
  lemma PrintedJudged(r: RequestText, rest: seq<byte>, limit: nat)
    requires PlainRequest(r) && |Print(r)| + |rest| <= limit
    ensures Judge(Print(r) + rest, limit) ==
            if !Complete(r) then More
            else if Wanted(r.headers) then Accepted(|Print(r)|, FieldMap(map[], r.headers)) else Refused
  {
    PrintFetch(r, rest);
    WantedAcceptable(r.headers);
  }

  /** The limit of the code is 1024000 bytes; more are refused, fewer are judged by what they say. */
  lemma SizeLimit(buf: seq<byte>)
    ensures |buf| > 1024000 ==> Judge(buf, MAX_SIZE) == Refused
    ensures |buf| <= 1024000 ==> Judge(buf, MAX_SIZE) == Judge(buf, |buf|)
  {
  }

  // ---------- the response ----------

  lemma {:induction false} EncodedPlain(s: seq<byte>)
    ensures CR !in Base64.Encode(s) && LF !in Base64.Encode(s) && SPACE !in Base64.Encode(s)
    decreases |s|
  {
    if s == [] {
    } else {
      var b, c := if |s| > 1 then s[1] else 0, if |s| > 2 then s[2] else 0;
      Base64.QuadSixBits(Base64.Group(s[0], b, c));
      assert !Base64.InAlphabet(CR) && !Base64.InAlphabet(LF) && !Base64.InAlphabet(SPACE);
      if |s| >= 3 {
        EncodedPlain(s[3..]);
      }
    }
  }

  /** No control character, space or colon. */
  predicate Word(s: string) {
    s != "" && forall i :: 0 <= i < |s| ==> 32 < s[i] as nat < 127 && s[i] != ':'
  }

  lemma WordPlain(s: string)
    requires Word(s)
    ensures PlainToken(Ascii(s)) && COLON !in Ascii(s) && Trimmed(Ascii(s))
  {
    var b := Ascii(s);
    AsciiNumbers(s);
    ValueIsNumber(CR);
    ValueIsNumber(LF);
    ValueIsNumber(SPACE);
    ValueIsNumber(COLON);
  }

  function Simple(name: string, value: seq<byte>): Header {
    Field(0, Ascii(name), 0, 1, value, 0)
  }

  lemma ColonSpace()
    ensures Ascii(": ") == [58, 32] && Ascii(" ") == [32]
  {
    ToByteIsNumber(58, 58);
    ToByteIsNumber(32, 32);
  }

  lemma SimpleShape(name: seq<byte>, value: seq<byte>)
    ensures Spaces(0) + name + Spaces(0) + [58] + (Spaces(1) + value + Spaces(0)) == name + [58, 32] + value
  {
  }

  lemma SimpleLine(name: string, value: seq<byte>)
    ensures HeaderLine(Simple(name, value)) == Ascii(name + ": ") + value
  {
    ColonSpace();
    AsciiJoin(name, ": ");
    SimpleShape(Ascii(name), value);
  }

  function Protocol(): Header {
    Simple("Sec-WebSocket-Protocol", Ascii("chat"))
  }

  /** A response with the accept value `v`, and perhaps more lines, as a text of the same grammar. */
  function ResponseWith(v: seq<byte>, more: seq<Header>): RequestText {
    RequestText([], 0, [Ascii("HTTP/1.1"), Ascii("101"), Ascii("Switching"), Ascii("Protocols")], 0,
                [Simple("Connection", Ascii("upgrade")), Simple("Upgrade", Ascii("websocket")),
                 Simple("Sec-WebSocket-Accept", v)] + more)
  }

  function ResponseText(params: Params): RequestText {
    ResponseWith(AcceptValue(Get(params, "Sec-WebSocket-Key")),
                 if Get(params, "Sec-WebSocket-Protocol") != [] then [Protocol()] else [])
  }

  lemma StatusLine(v: seq<byte>, more: seq<Header>)
    ensures RequestLine(ResponseWith(v, more)) == Ascii("HTTP/1.1 101 Switching Protocols")
  {
    var a, b, c, d := Ascii("HTTP/1.1"), Ascii("101"), Ascii("Switching"), Ascii("Protocols");
    ColonSpace();
    AsciiJoin("HTTP/1.1", " ");
    AsciiJoin("HTTP/1.1" + " ", "101");
    AsciiJoin("HTTP/1.1" + " " + "101", " ");
    AsciiJoin("HTTP/1.1" + " " + "101" + " ", "Switching");
    AsciiJoin("HTTP/1.1" + " " + "101" + " " + "Switching", " ");
    AsciiJoin("HTTP/1.1" + " " + "101" + " " + "Switching" + " ", "Protocols");
    assert "HTTP/1.1" + " " + "101" + " " + "Switching" + " " + "Protocols" == "HTTP/1.1 101 Switching Protocols";
    FourSpaced(a, b, c, d);
  }

  lemma FourSpaced(a: seq<byte>, b: seq<byte>, c: seq<byte>, d: seq<byte>)
    ensures Spaces(0) + Spaced([a, b, c, d]) + Spaces(0) == a + [32] + b + [32] + c + [32] + d
  {
    assert [a, b, c, d][1..] == [b, c, d] && [b, c, d][1..] == [c, d] && [c, d][1..] == [d];
    assert Spaced([b, c, d]) == b + [32] + Spaced([c, d]) && Spaced([c, d]) == c + [32] + Spaced([d]);
  }

  lemma {:induction false} LinedMore(a: seq<seq<byte>>, b: seq<seq<byte>>)
    ensures Lined(a + b) == Lined(a) + Lined(b)
    decreases |a|
  {
    if a == [] {
      assert a + b == b;
    } else {
      assert (a + b)[1..] == a[1..] + b;
      LinedMore(a[1..], b);
      Associates(a[0] + [13, 10], Lined(a[1..]), Lined(b));
    }
  }

  lemma LinedOne(l: seq<byte>)
    ensures Lined([l]) == l + [13, 10]
  {
    assert [l][1..] == [];
  }

  lemma HeaderLinesMore(a: seq<Header>, b: seq<Header>)
    ensures HeaderLines(a + b) == HeaderLines(a) + HeaderLines(b)
  {
  }

  lemma FiveLines(a: seq<byte>, b: seq<byte>, c: seq<byte>, d: seq<byte>, rest: seq<seq<byte>>)
    ensures Lined([a] + ([b, c, d] + rest))
            == a + [13, 10] + b + [13, 10] + c + [13, 10] + d + [13, 10] + Lined(rest)
  {
    assert [a] + ([b, c, d] + rest) == [a] + [b] + [c] + [d] + rest;
    LinedMore([a] + [b] + [c] + [d], rest);
    LinedMore([a] + [b] + [c], [d]);
    LinedMore([a] + [b], [c]);
    LinedMore([a], [b]);
    LinedOne(a);
    LinedOne(b);
    LinedOne(c);
    LinedOne(d);
  }

  lemma ResponseLines(v: seq<byte>, more: seq<Header>)
    ensures RequestLines(ResponseWith(v, more))
            == [Ascii("HTTP/1.1 101 Switching Protocols")]
               + ([Ascii("Connection: upgrade"), Ascii("Upgrade: websocket"), Ascii("Sec-WebSocket-Accept: ") + v]
                  + HeaderLines(more))
  {
    var hs := [Simple("Connection", Ascii("upgrade")), Simple("Upgrade", Ascii("websocket")),
               Simple("Sec-WebSocket-Accept", v)];
    StatusLine(v, more);
    FixedLines(v);
    HeaderLinesMore(hs, more);
    assert HeaderLines(hs)
           == [Ascii("Connection: upgrade"), Ascii("Upgrade: websocket"), Ascii("Sec-WebSocket-Accept: ") + v];
  }

  /** The response is that text, byte for byte. */
  lemma ResponsePrinted(params: Params)
    ensures Response(params) == Print(ResponseText(params))
  {
    var v := AcceptValue(Get(params, "Sec-WebSocket-Key"));
    var more := if Get(params, "Sec-WebSocket-Protocol") != [] then [Protocol()] else [];
    ResponseLines(v, more);
    FiveLines(Ascii("HTTP/1.1 101 Switching Protocols"), Ascii("Connection: upgrade"), Ascii("Upgrade: websocket"),
              Ascii("Sec-WebSocket-Accept: ") + v, HeaderLines(more));
    ProtocolLine(more);
    ResponseShape(Ascii("HTTP/1.1 101 Switching Protocols"), Ascii("Connection: upgrade"),
                  Ascii("Upgrade: websocket"), Ascii("Sec-WebSocket-Accept: "), v, Lined(HeaderLines(more)));
  }

  lemma ResponseShape(a: seq<byte>, b: seq<byte>, c: seq<byte>, d: seq<byte>, v: seq<byte>, m: seq<byte>)
    ensures a + EOL + b + EOL + c + EOL + d + v + EOL + m + EOL
            == a + [13, 10] + b + [13, 10] + c + [13, 10] + (d + v) + [13, 10] + m + [13, 10]
  {
  }

  lemma FixedLines(key: seq<byte>)
    ensures HeaderLine(Simple("Connection", Ascii("upgrade"))) == Ascii("Connection: upgrade")
    ensures HeaderLine(Simple("Upgrade", Ascii("websocket"))) == Ascii("Upgrade: websocket")
    ensures HeaderLine(Simple("Sec-WebSocket-Accept", key)) == Ascii("Sec-WebSocket-Accept: ") + key
    ensures HeaderLine(Simple("Sec-WebSocket-Protocol", Ascii("chat"))) == Ascii("Sec-WebSocket-Protocol: chat")
  {
    SimpleLine("Connection", Ascii("upgrade"));
    SimpleLine("Upgrade", Ascii("websocket"));
    SimpleLine("Sec-WebSocket-Accept", key);
    SimpleLine("Sec-WebSocket-Protocol", Ascii("chat"));
    AsciiJoin("Connection" + ": ", "upgrade");
    AsciiJoin("Upgrade" + ": ", "websocket");
    AsciiJoin("Sec-WebSocket-Protocol" + ": ", "chat");
    assert "Connection" + ": " + "upgrade" == "Connection: upgrade";
    assert "Upgrade" + ": " + "websocket" == "Upgrade: websocket";
    assert "Sec-WebSocket-Accept" + ": " == "Sec-WebSocket-Accept: ";
    assert "Sec-WebSocket-Protocol" + ": " + "chat" == "Sec-WebSocket-Protocol: chat";
  }

  lemma ProtocolLine(more: seq<Header>)
    requires more == [] || more == [Protocol()]
    ensures Lined(HeaderLines(more)) ==
            if more == [] then [] else Ascii("Sec-WebSocket-Protocol: chat") + EOL
  {
    if more != [] {
      FixedLines([]);
      assert HeaderLines(more) == [Ascii("Sec-WebSocket-Protocol: chat")];
      LinedOne(Ascii("Sec-WebSocket-Protocol: chat"));
    }
  }

  lemma SimplePlain(name: string, value: seq<byte>)
    requires Word(name) && value != [] && Trimmed(value) && OneLine(value)
    ensures PlainHeader(Simple(name, value))
  {
    WordPlain(name);
  }

  lemma AcceptPlain(key: seq<byte>)
    ensures var v := AcceptValue(key); |v| == 28 && Trimmed(v) && OneLine(v)
  {
    var v := AcceptValue(key);
    EncodedPlain(Sha1Standard.StateBytes(Sha1Standard.Fold(Sha1.CodePadded(key + Ascii(MAGIC)))));
    assert v[0] in v && v[|v| - 1] in v;
  }

  lemma TokensPlain()
    ensures forall t :: t in [Ascii("HTTP/1.1"), Ascii("101"), Ascii("Switching"), Ascii("Protocols")] ==> PlainToken(t)
  {
    WordPlain("HTTP/1.1");
    WordPlain("101");
    WordPlain("Switching");
    WordPlain("Protocols");
  }

  lemma FixedPlain()
    ensures PlainHeader(Simple("Connection", Ascii("upgrade"))) && PlainHeader(Simple("Upgrade", Ascii("websocket")))
  {
    WordPlain("upgrade");
    WordPlain("websocket");
    SimplePlain("Connection", Ascii("upgrade"));
    SimplePlain("Upgrade", Ascii("websocket"));
  }

  lemma ProtocolPlain()
    ensures PlainHeader(Protocol())
  {
    WordPlain("chat");
    SimplePlain("Sec-WebSocket-Protocol", Ascii("chat"));
  }

  lemma ResponsePlain(v: seq<byte>, more: seq<Header>)
    requires v != [] && Trimmed(v) && OneLine(v) && (more == [] || more == [Protocol()])
    ensures PlainRequest(ResponseWith(v, more)) && Complete(ResponseWith(v, more))
  {
    TokensPlain();
    FixedPlain();
    SimplePlain("Sec-WebSocket-Accept", v);
    ProtocolPlain();
  }

  lemma FieldsOf(a: Header, b: Header, c: Header, d: Header, last: bool)
    requires a.Field? && b.Field? && c.Field? && d.Field?
    requires a.name != b.name && a.name != c.name && b.name != c.name
    requires d.name != a.name && d.name != b.name && d.name != c.name
    ensures var m := FieldMap(map[], [a, b, c] + if last then [d] else []);
            && a.name in m && m[a.name] == a.value && b.name in m && m[b.name] == b.value
            && c.name in m && m[c.name] == c.value
            && (last ==> d.name in m && m[d.name] == d.value) && (!last ==> d.name !in m)
  {
    var hs := [a, b, c] + if last then [d] else [];
    forall h | h in hs ensures LastIs(hs, h.name, h.value) {
      var i: nat := if h == a then 0 else if h == b then 1 else if h == c then 2 else 3;
      assert LastAt(hs, i, h.name, h.value);
    }
    FieldMapLast(map[], hs, a.name, a.value);
    FieldMapLast(map[], hs, b.name, b.value);
    FieldMapLast(map[], hs, c.name, c.value);
    FieldMapLast(map[], hs, d.name, d.value);
    if !last && d.name in FieldMap(map[], hs) {
      FieldMapLast(map[], hs, d.name, FieldMap(map[], hs)[d.name]);
    }
  }

  /** The response is a header of its own, and says: switching protocols, upgraded to a websocket,
      with the accept value of the request's key, and a protocol exactly if the request has one. */
  lemma ResponseRead(params: Params, rest: seq<byte>)
    ensures var r := Fetch(Response(params) + rest);
            && r.Parsed? && r.size == |Response(params)| && Spells(r.verb, "HTTP/1.1") && Spells(r.uri, "101")
            && Spells(Get(r.params, "Connection"), "upgrade") && Spells(Get(r.params, "Upgrade"), "websocket")
            && Get(r.params, "Sec-WebSocket-Accept") == AcceptValue(Get(params, "Sec-WebSocket-Key"))
            && (Get(r.params, "Sec-WebSocket-Protocol") != [] <==> Get(params, "Sec-WebSocket-Protocol") != [])
  {
    var v := AcceptValue(Get(params, "Sec-WebSocket-Key"));
    var more := if Get(params, "Sec-WebSocket-Protocol") != [] then [Protocol()] else [];
    ResponsePrinted(params);
    AcceptPlain(Get(params, "Sec-WebSocket-Key"));
    ResponsePlain(v, more);
    PrintFetch(ResponseWith(v, more), rest);
    FieldsOf(Simple("Connection", Ascii("upgrade")), Simple("Upgrade", Ascii("websocket")),
             Simple("Sec-WebSocket-Accept", v), Protocol(), more != []);
    SpellsAscii(Ascii("HTTP/1.1"), "HTTP/1.1");
    SpellsAscii(Ascii("101"), "101");
    SpellsAscii(Ascii("upgrade"), "upgrade");
    SpellsAscii(Ascii("websocket"), "websocket");
  }
}
