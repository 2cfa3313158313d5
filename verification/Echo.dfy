/** What an open connection writes for the frames it receives (`src/ws_endpoint.cpp`). */
module Echo {
  import opened Bytes
  import opened Frames
  import opened Handshake
  import opened Requests
  import opened Connection
  import opened Chunking

  /** A message handed to `process_message_data`. */
  datatype Message = Message(opcode: byte, data: seq<byte>)

  /** A frame the code can read: a payload of at most 65535 bytes, masked as section 5.1 of
      RFC 6455 demands of clients, or at least not empty. */
  predicate Readable(f: Outgoing) {
    FitsFrame(f) && |f.payload| <= 65535 && (f.mask == 1 || f.payload != [])
  }

  predicate AllReadable(fs: seq<Outgoing>) {
    forall f :: f in fs ==> Readable(f)
  }

  function Wire(fs: seq<Outgoing>): seq<byte> {
    if fs == [] then [] else Pack(fs[0]) + Wire(fs[1..])
  }

  function Packs(fs: seq<Outgoing>): seq<seq<byte>> {
    if fs == [] then [] else [Pack(fs[0])] + Packs(fs[1..])
  }

  /** The messages completed by `fs` when `msg` has been put together before. */
  function Messages(msg: seq<byte>, fs: seq<Outgoing>): seq<Message>
    decreases |fs|
  {
    if fs == [] then []
    else
      var m := msg + fs[0].payload;
      if fs[0].fin == 1 then [Message(SevenBits(fs[0]), m)] + Messages([], fs[1..]) else Messages(m, fs[1..])
  }

  /** What is put together after `fs`, not completed yet. */
  function Pending(msg: seq<byte>, fs: seq<Outgoing>): seq<byte>
    decreases |fs|
  {
    if fs == [] then msg else Pending(if fs[0].fin == 1 then [] else msg + fs[0].payload, fs[1..])
  }

  function Replies(ms: seq<Message>): seq<seq<byte>> {
    if ms == [] then [] else Reply(ms[0].opcode, ms[0].data) + Replies(ms[1..])
  }

  /** The connection after `fs`, with `rest` unread. */
  function After(c: Conn, fs: seq<Outgoing>, rest: seq<byte>): Conn {
    c.(buf := rest, msg := Pending(c.msg, fs), log := c.log + Replies(Messages(c.msg, fs)),
       taken := c.taken + Packs(fs))
  }

  // ---------- the messages ----------

  function Payloads(fs: seq<Outgoing>): seq<byte> {
    if fs == [] then [] else fs[0].payload + Payloads(fs[1..])
  }

  function Texts(ms: seq<Message>): seq<byte> {
    if ms == [] then [] else ms[0].data + Texts(ms[1..])
  }

  /** Every payload byte ends up in one message or is still pending, in order. */
  lemma {:induction false} MessagesKeepBytes(msg: seq<byte>, fs: seq<Outgoing>)
    ensures Texts(Messages(msg, fs)) + Pending(msg, fs) == msg + Payloads(fs)
    decreases |fs|
  {
    if fs == [] {
    } else {
      var m, p := msg + fs[0].payload, Payloads(fs[1..]);
      Associates(msg, fs[0].payload, p);
      if fs[0].fin == 1 {
        var ms := Messages([], fs[1..]);
        MessagesKeepBytes([], fs[1..]);
        assert Messages(msg, fs)[1..] == ms;
        assert [] + p == p;
        Associates(m, Texts(ms), Pending([], fs[1..]));
      } else {
        MessagesKeepBytes(m, fs[1..]);
      }
    }
  }

  /** What later frames complete depends on the earlier ones only through what is pending. */
  lemma {:induction false} MessagesAppend(msg: seq<byte>, a: seq<Outgoing>, b: seq<Outgoing>)
    ensures Messages(msg, a + b) == Messages(msg, a) + Messages(Pending(msg, a), b)
    ensures Pending(msg, a + b) == Pending(Pending(msg, a), b)
    decreases |a|
  {
    if a == [] {
      assert a + b == b;
    } else {
      assert (a + b)[1..] == a[1..] + b;
      MessagesAppend(if a[0].fin == 1 then [] else msg + a[0].payload, a[1..], b);
    }
  }

  /** Frames without FIN and one with FIN make one message: all their payloads, under the last
      frame's opcode. */
  lemma {:induction false} OneMessage(msg: seq<byte>, run: seq<Outgoing>, last: Outgoing)
    requires (forall f :: f in run ==> f.fin != 1) && last.fin == 1
    ensures Messages(msg, run + [last]) == [Message(SevenBits(last), msg + Payloads(run) + last.payload)]
    ensures Pending(msg, run + [last]) == []
    decreases |run|
  {
    if run == [] {
      assert run + [last] == [last] && msg + [] == msg;
    } else {
      assert run[0] in run;
      assert (run + [last])[1..] == run[1..] + [last];
      OneMessage(msg + run[0].payload, run[1..], last);
      Associates(msg, run[0].payload, Payloads(run[1..]));
    }
  }

  // ---------- the entries written ----------

  /** The messages that are answered. */
  function Answered(ms: seq<Message>): seq<Message> {
    if ms == [] then []
    else if KnownOpcode(ms[0].opcode) then [ms[0]] + Answered(ms[1..])
    else Answered(ms[1..])
  }

  lemma SmallOpcode(opcode: byte)
    requires KnownOpcode(opcode)
    ensures opcode <= 15 && SevenBits(ReplyFrame(opcode, [])) == opcode
  {
  }

  /** A reply is one unmasked frame with FIN, the opcode and exactly the message. */
  lemma ReplyReads(m: Message, rest: seq<byte>)
    requires KnownOpcode(m.opcode) && |m.data| < Power256(8)
    ensures var r := Pack(ReplyFrame(m.opcode, m.data));
            && Reference(r + rest) == Took(|r|, 1, m.opcode, m.data)
            && 2 <= |r| && !Masked(r[1])
  {
    var f := ReplyFrame(m.opcode, m.data);
    SmallOpcode(m.opcode);
    PackReference(f, rest);
    PackedHeaderReads(f, []);
    assert PackedHeader(f) + [] == PackedHeader(f);
    assert Pack(f)[1] == PackedHeader(f)[1];
  }

  ghost predicate Carries(entry: seq<byte>, m: Message) {
    && (forall rest :: Reference(entry + rest) == Took(|entry|, 1, m.opcode, m.data))
    && 2 <= |entry| && !Masked(entry[1])
  }

  /** One entry per answered message, in order, each carrying its message. */
  lemma {:induction false} RepliesCarry(ms: seq<Message>)
    requires forall m :: m in ms ==> |m.data| < Power256(8)
    ensures |Replies(ms)| == |Answered(ms)|
    ensures forall i :: 0 <= i < |Replies(ms)| ==> Carries(Replies(ms)[i], Answered(ms)[i])
    decreases |ms|
  {
    if ms == [] {
    } else {
      RepliesCarry(ms[1..]);
      var m := ms[0];
      if KnownOpcode(m.opcode) {
        forall rest ensures Reference(Pack(ReplyFrame(m.opcode, m.data)) + rest)
                            == Took(|Pack(ReplyFrame(m.opcode, m.data))|, 1, m.opcode, m.data) {
          ReplyReads(m, rest);
        }
        ReplyReads(m, []);
        assert Carries(Pack(ReplyFrame(m.opcode, m.data)), m);
        assert Replies(ms) == [Pack(ReplyFrame(m.opcode, m.data))] + Replies(ms[1..]);
      } else {
        assert Replies(ms) == Replies(ms[1..]);
      }
    }
  }

  // ---------- the run ----------

  lemma PackTaken(f: Outgoing, rest: seq<byte>, junk: Key)
    requires Readable(f)
    ensures Decode(Pack(f) + rest, junk) == Took(|Pack(f)|, f.fin, SevenBits(f), f.payload)
    ensures HeaderWhole(Pack(f) + rest)
  {
    var data := if f.mask == 1 then Unmask(f.payload, f.key) else f.payload;
    PackDecode(f, rest, junk);
    PackSplit(f, data, rest);
    PackedHeaderReads(f, data + rest);
  }

  lemma OneFrameMessages(msg: seq<byte>, f: Outgoing)
    ensures Messages(msg, [f]) == if f.fin == 1 then [Message(SevenBits(f), msg + f.payload)] else []
    ensures Pending(msg, [f]) == if f.fin == 1 then [] else msg + f.payload
    ensures Replies(Messages(msg, [f])) == if f.fin == 1 then Reply(SevenBits(f), msg + f.payload) else []
    ensures Packs([f]) == [Pack(f)]
  {
    assert [f][1..] == [];
    var m := Message(SevenBits(f), msg + f.payload);
    assert [m][1..] == [] && Replies([m]) == Reply(m.opcode, m.data) + Replies([m][1..]);
  }

  /** One frame is taken. */
  lemma OneFrame(c: Conn, f: Outgoing, rest: seq<byte>, e: Env)
    requires c.open && Readable(f) && c.buf == Pack(f) + rest
    ensures HeaderWhole(c.buf) && Parse(c, e).Go? && Parse(c, e).next == After(c, [f], rest)
  {
    PackTaken(f, rest, e.junk);
    assert c.buf[..|Pack(f)|] == Pack(f) && c.buf[|Pack(f)|..] == rest;
    OneFrameMessages(c.msg, f);
  }

  lemma {:induction false} RepliesAppend(a: seq<Message>, b: seq<Message>)
    ensures Replies(a + b) == Replies(a) + Replies(b)
    decreases |a|
  {
    if a == [] {
      assert a + b == b;
    } else {
      assert (a + b)[1..] == a[1..] + b;
      RepliesAppend(a[1..], b);
    }
  }

  lemma AfterFirst(c: Conn, fs: seq<Outgoing>, mid: seq<byte>, rest: seq<byte>)
    requires fs != []
    ensures After(After(c, [fs[0]], mid), fs[1..], rest) == After(c, fs, rest)
  {
    var f, tail := fs[0], fs[1..];
    assert [f] + tail == fs;
    MessagesAppend(c.msg, [f], tail);
    var a, b := Messages(c.msg, [f]), Messages(Pending(c.msg, [f]), tail);
    RepliesAppend(a, b);
    Associates(c.log, Replies(a), Replies(b));
    OneFrameMessages(c.msg, f);
    Associates(c.taken, [Pack(f)], Packs(tail));
  }

  lemma EchoStep(c: Conn, fs: seq<Outgoing>, rest: seq<byte>, e: Env)
    requires c.open && AllReadable(fs) && fs != [] && c.buf == Wire(fs) + rest
    ensures var mid := Wire(fs[1..]) + rest;
            && HeaderWhole(c.buf) && Parse(c, e).Go? && Parse(c, e).next == After(c, [fs[0]], mid)
            && After(After(c, [fs[0]], mid), fs[1..], rest) == After(c, fs, rest)
  {
    var f, mid := fs[0], Wire(fs[1..]) + rest;
    Associates(Pack(f), Wire(fs[1..]), rest);
    assert f in fs;
    OneFrame(c, f, mid, e);
    AfterFirst(c, fs, mid, rest);
  }

  /** `entry` is one frame with FIN, that opcode and that payload. */
  predicate ReadsAs(entry: seq<byte>, opcode: byte, data: seq<byte>) {
    Reference(entry) == Took(|entry|, 1, opcode, data)
  }

  predicate SixOpcodes(opcode: byte) {
    opcode as nat == 0 || opcode as nat == 1 || opcode as nat == 2
    || opcode as nat == 8 || opcode as nat == 9 || opcode as nat == 10
  }

  lemma SixKnown(f: Outgoing)
    requires FitsFrame(f) && f.rsv1 == 0 && f.rsv2 == 0 && f.rsv3 == 0
    ensures SevenBits(f) == f.opcode && (KnownOpcode(f.opcode) <==> SixOpcodes(f.opcode))
  {
  }

  lemma OneFrameLog(c: Conn, f: Outgoing, e: Env)
    requires c.open && c.msg == [] && c.buf == Pack(f) && Readable(f) && f.fin == 1
    ensures Drain(c, e).log == c.log + Reply(SevenBits(f), f.payload)
  {
    assert [f][1..] == [] && Wire([f]) == Pack(f) + [] == Pack(f) && [] + f.payload == f.payload;
    FramesTaken(c, [f], e);
    OneFrameMessages([], f);
  }

  /** A message in one frame is answered by one frame with FIN, its opcode and its payload exactly
      for six opcodes, and not at all for the others. */
  lemma OneFrameAnswer(c: Conn, f: Outgoing, e: Env)
    requires c.open && c.msg == [] && c.buf == Pack(f) && Readable(f) && f.fin == 1
    requires f.rsv1 == 0 && f.rsv2 == 0 && f.rsv3 == 0
    ensures (exists entry :: Drain(c, e).log == c.log + [entry] && ReadsAs(entry, f.opcode, f.payload))
            <==> SixOpcodes(f.opcode)
    ensures !SixOpcodes(f.opcode) ==> Drain(c, e).log == c.log
  {
    SixKnown(f);
    OneFrameLog(c, f, e);
    if SixOpcodes(f.opcode) {
      var entry := Pack(ReplyFrame(f.opcode, f.payload));
      assert Power256(2) == 65536 && Power256(2) <= Power256(8);
      ReplyReads(Message(f.opcode, f.payload), []);
      assert entry + [] == entry && ReadsAs(entry, f.opcode, f.payload);
    }
  }

  /** All the frames are taken, and the messages they complete answered; then the run goes on
      with the rest. */
  lemma {:induction false} EchoTrace(c: Conn, fs: seq<Outgoing>, rest: seq<byte>, e: Env)
    requires c.open && AllReadable(fs) && c.buf == Wire(fs) + rest
    ensures Drain(c, e) == Drain(After(c, fs, rest), e)
    ensures Steady(c, e) <==> Steady(After(c, fs, rest), e)
    decreases |fs|
  {
    if fs == [] {
      assert After(c, fs, rest) == c;
    } else {
      EchoStep(c, fs, rest, e);
      EchoTrace(Parse(c, e).next, fs[1..], rest, e);
    }
  }

  // ---------- frames cut into calls ----------

  /** `s` ends between two frames, or inside the payload of frame `i`. */
  predicate WellCutAt(s: seq<byte>, fs: seq<Outgoing>, i: nat, n: nat) {
    && i <= |fs|
    && (n != 0 ==> i < |fs| && |PackedHeader(fs[i])| <= n < |Pack(fs[i])|)
    && s == Wire(fs[..i]) + if n == 0 then [] else Pack(fs[i])[..n]
  }

  ghost predicate WellCut(s: seq<byte>, fs: seq<Outgoing>) {
    exists i: nat, n: nat :: WellCutAt(s, fs, i, n)
  }

  /** No call but the last ends inside a frame header. */
  ghost predicate CallsWellCut(chunks: seq<seq<byte>>, fs: seq<Outgoing>) {
    forall k :: 1 <= k < |chunks| ==> WellCut(Flatten(chunks[..k]), fs)
  }

  /** A frame whose payload is not all there is waited for. */
  lemma PackedPartWaits(f: Outgoing, n: nat, junk: Key)
    requires Readable(f) && |PackedHeader(f)| <= n < |Pack(f)|
    ensures Decode(Pack(f)[..n], junk) == Wait
  {
    assert Pack(f) + [] == Pack(f);
    PackTaken(f, [], junk);
    PackedHeaderReads(f, []);
    assert PackedHeader(f) + [] == PackedHeader(f);
    assert Pack(f)[..n][1] == PackedHeader(f)[1];
    PartWaits(Pack(f), n, junk);
  }

  lemma WellCutSteady(c: Conn, s: seq<byte>, fs: seq<Outgoing>, e: Env)
    requires c.open && c.buf == s && AllReadable(fs) && WellCut(s, fs)
    ensures Steady(c, e)
  {
    var i: nat, n: nat :| WellCutAt(s, fs, i, n);
    var rest := if n == 0 then [] else Pack(fs[i])[..n];
    if n != 0 {
      assert fs[i] in fs;
      PackedPartWaits(fs[i], n, e.junk);
    }
    EchoTrace(c, fs[..i], rest, e);
    WaitingSteady(After(c, fs[..i], rest), e);
  }

  lemma WaitingSteady(c: Conn, e: Env)
    requires c.open && Decode(c.buf, e.junk) == Wait
    ensures Steady(c, e)
  {
  }

  /** However readable frames are cut into calls, not inside a header, exactly the messages they
      complete are answered, and nothing is left unread. */
  lemma EchoOfRun(c: Conn, chunks: seq<seq<byte>>, fs: seq<Outgoing>, e: Env)
    requires c.open && c.buf == [] && !c.dead && AllReadable(fs)
    requires chunks != [] && Flatten(chunks) == Wire(fs) && CallsWellCut(chunks, fs)
    ensures FeedAll(c, chunks, e) == After(c, fs, [])
  {
    forall k | 1 <= k < |chunks| ensures Steady(Plus(c, Flatten(chunks[..k])), e) {
      var s := Flatten(chunks[..k]);
      assert [] + s == s;
      WellCutSteady(Plus(c, s), s, fs, e);
    }
    PrefixesAsOne(c, chunks, e);
    var d := Plus(c, Wire(fs));
    assert d.buf == Wire(fs) + [];
    EchoTrace(d, fs, [], e);
  }

  lemma RequestTaken(c: Conn, n: nat, params: Params, e: Env)
    requires !c.open && Judge(c.buf, e.limit) == Accepted(n, params) && n <= |c.buf|
    ensures Parse(c, e) == Go(Conn(true, c.buf[n..], c.msg, c.log + [Response(params)], c.taken + [c.buf[..n]], c.dead), n)
  {
  }

  lemma SplitOff(a: seq<byte>, b: seq<byte>)
    ensures [] + (a + b) == a + b && (a + b)[..|a|] == a && (a + b)[|a|..] == b
  {
  }

  function OpenedBy(request: seq<byte>, params: Params, more: seq<byte>): Conn {
    Conn(true, more, [], [Response(params)], [request], false)
  }

  lemma FirstState(request: seq<byte>, params: Params, more: seq<byte>)
    ensures Conn(true, more, START.msg, START.log + [Response(params)], START.taken + [request], START.dead)
            == OpenedBy(request, params, more)
  {
  }

  lemma Opens(request: seq<byte>, more: seq<byte>, params: Params, e: Env)
    requires Judge(request + more, e.limit) == Accepted(|request|, params)
    ensures Parse(Plus(START, request + more), e) == Go(OpenedBy(request, params, more), |request|)
  {
    SplitOff(request, more);
    FirstState(request, params, more);
    RequestTaken(Plus(START, request + more), |request|, params, e);
  }

  lemma FramesTaken(c: Conn, fs: seq<Outgoing>, e: Env)
    requires c.open && AllReadable(fs) && c.buf == Wire(fs)
    ensures Drain(c, e) == After(c, fs, [])
  {
    assert c.buf == Wire(fs) + [];
    EchoTrace(c, fs, [], e);
  }

  // ---------- whole sessions ----------

  /** A request that is accepted by itself, whatever comes after it. */
  ghost predicate Request(request: seq<byte>, params: Params) {
    forall more, limit: nat :: |request| + |more| <= limit ==> Judge(request + more, limit) == Accepted(|request|, params)
  }

  /** A printed request that says what is wanted is one. */
  lemma PrintedRequest(r: RequestText)
    requires PlainRequest(r) && Complete(r) && Wanted(r.headers)
    ensures Request(Print(r), FieldMap(map[], r.headers))
  {
    forall more, limit: nat | |Print(r)| + |more| <= limit
      ensures Judge(Print(r) + more, limit) == Accepted(|Print(r)|, FieldMap(map[], r.headers)) {
      PrintedJudged(r, more, limit);
    }
  }

  /** `x` ends inside the request, between two frames, or inside the payload of a frame. */
  ghost predicate SessionCut(x: seq<byte>, request: seq<byte>, fs: seq<Outgoing>) {
    |x| < |request| || (request <= x && WellCut(x[|request|..], fs))
  }

  lemma InsideRequest(request: seq<byte>, params: Params, x: seq<byte>, e: Env)
    requires Request(request, params) && x <= request && x != request && |request| <= e.limit
    ensures Steady(Plus(START, x), e)
  {
    assert request + [] == request && [] + x == x && request[..|x|] == x;
    JudgedEarlier(request, |x|, e.limit);
    assert Parse(Plus(START, x), e) == Stay;
  }

  lemma BehindRequest(request: seq<byte>, params: Params, s: seq<byte>, fs: seq<Outgoing>, e: Env)
    requires Request(request, params) && AllReadable(fs) && WellCut(s, fs) && |request| + |s| <= e.limit
    ensures Steady(Plus(START, request + s), e)
  {
    Opens(request, s, params, e);
    WellCutSteady(OpenedBy(request, params, s), s, fs, e);
  }

  lemma SessionCutSteady(request: seq<byte>, params: Params, stream: seq<byte>, x: seq<byte>,
                         fs: seq<Outgoing>, e: Env)
    requires Request(request, params) && AllReadable(fs) && stream == request + Wire(fs)
    requires x <= stream && SessionCut(x, request, fs) && |stream| <= e.limit
    ensures Steady(Plus(START, x), e)
  {
    if |x| < |request| {
      assert x == stream[..|x|] == request[..|x|];
      InsideRequest(request, params, x, e);
    } else {
      assert x == request + x[|request|..];
      BehindRequest(request, params, x[|request|..], fs, e);
    }
  }

  lemma WholeSession(request: seq<byte>, params: Params, fs: seq<Outgoing>, e: Env)
    requires Request(request, params) && AllReadable(fs) && |request| + |Wire(fs)| <= e.limit
    ensures Feed(START, request + Wire(fs), e) == After(OpenedBy(request, params, Wire(fs)), fs, [])
  {
    Opens(request, Wire(fs), params, e);
    FramesTaken(OpenedBy(request, params, Wire(fs)), fs, e);
  }

  /** However an acceptable request and readable frames are cut into calls, anywhere in the request
      and outside frame headers, they are answered by the handshake response and then the messages'
      replies, and nothing is left unread. */
  lemma Session(request: seq<byte>, params: Params, fs: seq<Outgoing>, chunks: seq<seq<byte>>, e: Env)
    requires Request(request, params) && AllReadable(fs)
    requires chunks != [] && Flatten(chunks) == request + Wire(fs) && AllWithin(START, chunks, e)
    requires forall k :: 1 <= k < |chunks| ==> SessionCut(Flatten(chunks[..k]), request, fs)
    ensures FeedAll(START, chunks, e)
            == Conn(true, [], Pending([], fs), [Response(params)] + Replies(Messages([], fs)), [request] + Packs(fs), false)
  {
    var stream := request + Wire(fs);
    var e' := e.(limit := e.limit + |stream|);
    forall k | 1 <= k < |chunks| ensures Steady(Plus(START, Flatten(chunks[..k])), e') {
      FlattenPrefix(chunks, k);
      SessionCutSteady(request, params, stream, Flatten(chunks[..k]), fs, e');
    }
    PrefixesAsOne(START, chunks, e');
    AnyLimit(START, chunks, e, e'.limit);
    WholeSession(request, params, fs, e');
  }
}
