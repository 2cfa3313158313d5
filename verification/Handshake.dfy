/** The opening handshake (`src/ws_packet.cpp`): the parse of a request and the verdict on it. */
module Handshake {
  import opened Bytes
  import opened Text
  import Base64
  import Sha1
  import Sha1Standard

  /** An empty line after the last header line. */
  const TERMINATOR: seq<byte> := [CR, LF, CR, LF]

  type Params = map<seq<byte>, seq<byte>>

  /** What `fetch_hs_element` makes of the bytes received so far: no complete request (-1), a
      dereferenced end iterator when every line is blank, or a request of `size` bytes. */
  datatype Request =
    | Unfinished
    | AllBlank
    | Parsed(size: nat, verb: seq<byte>, uri: seq<byte>, version: seq<byte>, params: Params)

  /** One header line; without a colon, a name or a value it is skipped. */
  function AddField(m: Params, line: seq<byte>): Params {
    var pos := Find(line, [COLON], 0);
    if pos == -1 then m
    else
      var k, v := Trim(line[..pos]), Trim(line[pos + 1..]);
      if k == [] || v == [] then m else m[k := v]
  }

  function AddFields(m: Params, lines: seq<seq<byte>>): Params
    decreases lines
  {
    if lines == [] then m else AddFields(AddField(m, lines[0]), lines[1..])
  }

  /** The number of blank lines at the start. */
  function LeadingBlanks(lines: seq<seq<byte>>): (k: nat)
    ensures k <= |lines|
    ensures forall i :: 0 <= i < k ==> Trim(lines[i]) == []
    ensures k < |lines| ==> Trim(lines[k]) != []
  {
    if lines == [] || Trim(lines[0]) != [] then 0 else 1 + LeadingBlanks(lines[1..])
  }

  function ParseLines(before: Params, size: nat, lines: seq<seq<byte>>): Request {
    var k := LeadingBlanks(lines);
    if |lines| < 2 then Unfinished
    else if k == |lines| then AllBlank
    else
      var tokens := Split(Trim(lines[k]), [SPACE]);
      if |tokens| < 3 then Unfinished
      else Parsed(size, Trim(tokens[0]), Trim(tokens[1]), Trim(tokens[2]), AddFields(before, lines[k + 1..]))
  }

  /** `fetch_hs_element` on a packet that has the parameters `before`. */
  function FetchOnto(before: Params, msg: seq<byte>): (r: Request)
    ensures r.Parsed? ==> 4 <= r.size <= |msg|
  {
    var end := Find(msg, TERMINATOR, 0);
    if end == -1 then Unfinished else ParseLines(before, end + 4, Split(msg[..end], EOL))
  }

  /** `fetch_hs_element` on a fresh packet. */
  function Fetch(msg: seq<byte>): Request {
    FetchOnto(map[], msg)
  }

  /** Once the terminator is there, further bytes change nothing. */
  lemma FetchStable(msg: seq<byte>, more: seq<byte>)
    requires Find(msg, TERMINATOR, 0) != -1
    ensures Fetch(msg + more) == Fetch(msg)
  {
    FindStable(msg, more, TERMINATOR, 0);
    var end := Find(msg, TERMINATOR, 0);
    assert (msg + more)[..end] == msg[..end];
  }

  lemma FetchBounds(msg: seq<byte>)
    ensures Fetch(msg).Parsed? ==> 4 <= Fetch(msg).size <= |msg|
  {
  }

  // ---------- the verdict ----------

  /** The largest buffer the code looks at during the handshake. */
  const MAX_SIZE := 1024 * 1000

  function Get(params: Params, name: string): seq<byte> {
    var k := Ascii(name);
    if k in params then params[k] else []
  }

  predicate Acceptable(params: Params) {
    && Get(params, "Upgrade") == Ascii("websocket")
    && Get(params, "Connection") == Ascii("Upgrade")
    && Get(params, "Sec-WebSocket-Version") == Ascii("13")
    && Get(params, "Sec-WebSocket-Key") != []
  }

  /** What `recv_handshake` answers: wait for more bytes, an undefined access, a refusal, or the
      acceptance of a request of `size` bytes. */
  datatype Verdict = More | Broken | Refused | Accepted(size: nat, params: Params)

  function JudgeOnto(before: Params, buf: seq<byte>, limit: nat): Verdict {
    if |buf| > limit then Refused
    else
      match FetchOnto(before, buf)
      case Unfinished => More
      case AllBlank => Broken
      case Parsed(size, _, _, _, params) => if Acceptable(params) then Accepted(size, params) else Refused
  }

  /** `recv_handshake` on a fresh packet. */
  function Judge(buf: seq<byte>, limit: nat): Verdict {
    JudgeOnto(map[], buf, limit)
  }

  /** An acceptance is not changed by bytes that follow, within the size limit. */
  lemma AcceptedStable(buf: seq<byte>, more: seq<byte>, limit: nat)
    requires Judge(buf, limit).Accepted? && |buf| + |more| <= limit
    ensures Judge(buf + more, limit) == Judge(buf, limit)
  {
    FetchStable(buf, more);
  }

  /** The accepted bytes alone are accepted as they were. */
  lemma AcceptedAlone(buf: seq<byte>, limit: nat)
    requires Judge(buf, limit).Accepted?
    ensures var n := Judge(buf, limit).size;
            4 <= n <= |buf| && Judge(buf[..n], limit) == Judge(buf, limit)
  {
    FetchBounds(buf);
    var n := Judge(buf, limit).size;
    var end := Find(buf, TERMINATOR, 0);
    FindFirst(buf, TERMINATOR, 0);
    assert n == end + 4;
    assert buf[..n] + buf[n..] == buf;
    assert buf[..n][end..end + 4] == buf[end..end + 4];
    assert OccursAt(buf[..n], TERMINATOR, end);
    FindFirst(buf[..n], TERMINATOR, 0);
    FetchStable(buf[..n], buf[n..]);
  }

  /** Bytes behind the accepted ones may as well be missing. */
  lemma AcceptedEarlier(buf: seq<byte>, n: nat, limit: nat)
    requires Judge(buf, limit).Accepted? && Judge(buf, limit).size <= n <= |buf|
    ensures Judge(buf[..n], limit) == Judge(buf, limit)
  {
    var size := Judge(buf, limit).size;
    AcceptedAlone(buf, limit);
    assert buf[..size] + buf[size..n] == buf[..n];
    AcceptedStable(buf[..size], buf[size..n], limit);
  }

  /** A request cut short is waited for, or already judged as a whole. */
  lemma JudgedEarlier(buf: seq<byte>, n: nat, limit: nat)
    requires n <= |buf| <= limit
    ensures Judge(buf[..n], limit) == More || Judge(buf[..n], limit) == Judge(buf, limit)
    ensures Judge(buf, limit).Accepted? && n < Judge(buf, limit).size ==> Judge(buf[..n], limit) == More
  {
    assert buf[..n] + buf[n..] == buf;
    FetchBounds(buf[..n]);
    if Find(buf[..n], TERMINATOR, 0) != -1 {
      FetchStable(buf[..n], buf[n..]);
    }
  }

  /** A refusal is final. */
  lemma RefusedStable(buf: seq<byte>, more: seq<byte>, limit: nat)
    requires Judge(buf, limit).Refused?
    ensures Judge(buf + more, limit).Refused?
  {
    if |buf| <= limit {
      FetchStable(buf, more);
    }
  }

  lemma {:induction false} BlankLines(lines: seq<seq<byte>>)
    ensures LeadingBlanks(lines) == |lines| <==> forall l :: l in lines ==> Trim(l) == []
    decreases lines
  {
    if lines == [] {
    } else {
      BlankLines(lines[1..]);
      assert forall l :: l in lines <==> l == lines[0] || l in lines[1..];
    }
  }

  /** The end iterator is dereferenced exactly for a complete request within the limit that has two
      lines or more, all of them blank. */
  lemma BrokenExactly(buf: seq<byte>, limit: nat)
    ensures Judge(buf, limit) == Broken <==>
      var end := Find(buf, TERMINATOR, 0);
      && |buf| <= limit && end != -1
      && 2 <= |Split(buf[..end], EOL)| && forall l :: l in Split(buf[..end], EOL) ==> Trim(l) == []
  {
    var end := Find(buf, TERMINATOR, 0);
    if end != -1 {
      BlankLines(Split(buf[..end], EOL));
    }
  }

  // ---------- how long a key can be ----------

  lemma {:induction false} PiecesShort(s: seq<byte>, d: seq<byte>, pre: nat)
    requires d != [] && pre <= |s|
    ensures forall p :: p in Pieces(s, d, pre) ==> |p| <= |s|
    decreases |s| - pre
  {
    var i := Find(s, d, pre);
    if i == -1 {
    } else {
      PiecesAt(s, d, pre, i);
      PiecesShort(s, d, i + |d|);
      var rest := Pieces(s, d, i + |d|);
      assert forall p :: p in [s[pre..i]] + rest ==> p == s[pre..i] || p in rest;
    }
  }

  lemma TrimShort(s: seq<byte>)
    ensures |Trim(s)| <= |s|
  {
    TrimStartRuns(s);
    TrimEndRuns(TrimStart(s));
  }

  predicate ShortValues(m: Params, n: nat) {
    forall k :: k in m ==> |m[k]| <= n
  }

  lemma {:induction false} FieldsShort(m: Params, lines: seq<seq<byte>>, n: nat)
    requires ShortValues(m, n) && forall l :: l in lines ==> |l| <= n
    ensures ShortValues(AddFields(m, lines), n)
    decreases lines
  {
    if lines == [] {
    } else {
      var line := lines[0];
      var pos := Find(line, [COLON], 0);
      assert line in lines;
      if pos != -1 {
        TrimShort(line[pos + 1..]);
      }
      FieldsShort(AddField(m, line), lines[1..], n);
    }
  }

  /** No value of an accepted request is longer than the request. */
  lemma ValuesShort(buf: seq<byte>, limit: nat)
    requires Judge(buf, limit).Accepted?
    ensures ShortValues(Judge(buf, limit).params, |buf|)
  {
    var end := Find(buf, TERMINATOR, 0);
    var lines := Split(buf[..end], EOL);
    PiecesShort(buf[..end], EOL, 0);
    var k := LeadingBlanks(lines);
    assert forall l :: l in lines[k + 1..] ==> l in lines;
    FieldsShort(map[], lines[k + 1..], |buf|);
  }

  // ---------- the response ----------

  const MAGIC := "258EAFA5-E914-47DA-95CA-C5AB0DC85B11"

  /** The accept value of section 4.2.2 of RFC 6455, with SHA-1 as the code pads it. */
  function AcceptValue(key: seq<byte>): seq<byte> {
    Base64.Encode(Sha1Standard.StateBytes(Sha1Standard.Fold(Sha1.CodePadded(key + Ascii(MAGIC)))))
  }

  /** `pack_handshake_rsp`. */
  function Response(params: Params): seq<byte> {
    Ascii("HTTP/1.1 101 Switching Protocols") + EOL
    + Ascii("Connection: upgrade") + EOL
    + Ascii("Upgrade: websocket") + EOL
    + Ascii("Sec-WebSocket-Accept: ") + AcceptValue(Get(params, "Sec-WebSocket-Key")) + EOL
    + (if Get(params, "Sec-WebSocket-Protocol") != [] then Ascii("Sec-WebSocket-Protocol: chat") + EOL else [])
    + EOL
  }

  lemma ResponseFirstByte(params: Params)
    ensures Response(params) != [] && Response(params)[0] == 72
  {
    assert Ascii("HTTP/1.1 101 Switching Protocols")[0] == ToByte('H' as nat);
    ByteH();
  }

  lemma ByteH()
    ensures ToByte(72) == 72
  {
  }

  lemma AcceptValueStandard(key: seq<byte>)
    requires |key| <= MAX_SIZE
    ensures AcceptValue(key) == Base64.Encode(Sha1Standard.Hash(key + Ascii(MAGIC)))
  {
    Sha1.PaddingAgrees(key + Ascii(MAGIC));
  }

  /** For the key of every accepted request, the accept value is base64 of the standard SHA-1. */
  lemma AcceptedValueStandard(buf: seq<byte>)
    requires Judge(buf, MAX_SIZE).Accepted?
    ensures var key := Get(Judge(buf, MAX_SIZE).params, "Sec-WebSocket-Key");
            AcceptValue(key) == Base64.Encode(Sha1Standard.Hash(key + Ascii(MAGIC)))
  {
    ValuesShort(buf, MAX_SIZE);
    AcceptValueStandard(Get(Judge(buf, MAX_SIZE).params, "Sec-WebSocket-Key"));
  }
}
