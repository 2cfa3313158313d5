/** When it does not matter how a byte stream is cut into calls of `from_wire`, and when it does. */
module Chunking {
  import opened Bytes
  import opened Frames
  import opened Handshake
  import opened Connection

  /** The run of the loop from `c` meets no failing access and takes no frame whose header is not
      wholly there. */
  predicate Steady(c: Conn, e: Env)
    decreases |c.buf|
  {
    match Parse(c, e)
    case Stay => true
    case Refuse => true
    case Crash => false
    case Go(next, _) => (c.open ==> HeaderWhole(c.buf)) && Steady(next, e)
  }

  /** `n` bytes more are still looked at. */
  predicate Room(c: Conn, n: nat, e: Env) {
    c.open || |c.buf| + n <= e.limit
  }

  /** A packet taken is taken the same way when more bytes follow it. */
  lemma StepStable(c: Conn, y: seq<byte>, e: Env)
    requires Parse(c, e).Go? && (c.open ==> HeaderWhole(c.buf)) && Room(c, |y|, e)
    ensures var s := Parse(c, e); Parse(Plus(c, y), e) == Go(Plus(s.next, y), s.size)
  {
    var n := Parse(c, e).size;
    CutFront(c.buf, y, n);
    if c.open {
      DecisionStable(c.buf, y, e.junk);
    } else {
      AcceptedStable(c.buf, y, e.limit);
    }
  }

  lemma CutFront(buf: seq<byte>, y: seq<byte>, n: nat)
    requires n <= |buf|
    ensures (buf + y)[..n] == buf[..n] && (buf + y)[n..] == buf[n..] + y
  {
  }

  /** Stopping between two calls leaves no trace. */
  lemma {:induction false} DrainPlus(c: Conn, y: seq<byte>, e: Env)
    requires Steady(c, e) && Room(c, |y|, e)
    ensures Drain(Plus(Drain(c, e), y), e) == Drain(Plus(c, y), e) && Drain(c, e).dead == c.dead
    ensures Steady(Plus(Drain(c, e), y), e) <==> Steady(Plus(c, y), e)
    decreases |c.buf|
  {
    var s := Parse(c, e);
    if s.Go? {
      StepStable(c, y, e);
      HeaderStays(c, y);
      DrainPlus(s.next, y, e);
    } else {
      assert Drain(c, e) == c;
    }
  }

  lemma HeaderStays(c: Conn, y: seq<byte>)
    ensures HeaderWhole(c.buf) ==> HeaderWhole(c.buf + y)
  {
  }

  lemma {:induction false} OpenStays(c: Conn, e: Env)
    requires c.open
    ensures Drain(c, e).open
    decreases |c.buf|
  {
    var s := Parse(c, e);
    if !s.Go? {
    } else {
      OpenStays(s.next, e);
    }
  }

  /** The request is still within the size limit when all bytes are handed over at once, or was
      not complete before. */
  predicate Fits(c: Conn, x: seq<byte>, y: seq<byte>, e: Env) {
    Room(c, |x| + |y|, e) || !Judge(c.buf + x, e.limit).Accepted?
  }

  /** Two calls do what one call does, exactly when the size limit does not come in between. */
  lemma TwoCalls(c: Conn, x: seq<byte>, y: seq<byte>, e: Env)
    requires !c.dead && Steady(Plus(c, x), e)
    ensures Feed(Feed(c, x, e), y, e) == Feed(c, x + y, e) <==> Fits(c, x, y, e)
  {
    var d := Plus(c, x);
    Associates(c.buf, x, y);
    assert Plus(d, y) == Plus(c, x + y);
    if Room(c, |x| + |y|, e) {
      DrainPlus(d, y, e);
    } else {
      LimitBites(d, y, e);
    }
  }

  lemma LimitBites(d: Conn, y: seq<byte>, e: Env)
    requires !d.dead && !d.open && Steady(d, e) && |d.buf| + |y| > e.limit
    ensures Feed(Drain(d, e), y, e) == Drain(Plus(d, y), e) <==> !Judge(d.buf, e.limit).Accepted?
  {
    assert Parse(Plus(d, y), e) == Refuse;
    if Judge(d.buf, e.limit).Accepted? {
      FedOpen(d, y, e);
    } else {
      assert !Parse(d, e).Go?;
    }
  }

  lemma FedOpen(d: Conn, y: seq<byte>, e: Env)
    requires Parse(d, e).Go?
    ensures Feed(Drain(d, e), y, e).open
  {
    var s := Parse(d, e);
    OpenStays(s.next, e);
    if !Drain(d, e).dead {
      OpenStays(Plus(Drain(d, e), y), e);
    }
  }

  // ---------- the other half: an unsteady run can be told from one call ----------

  const ZEROS: seq<byte> := seq(14, i => 0)

  /** A frame taken before its header was whole would have had another size. */
  lemma PrematureSize(buf: seq<byte>, y: seq<byte>, junk: Key)
    requires !HeaderWhole(buf) && HeaderWhole(buf + y)
    requires Decode(buf, junk).Took? && Decode(buf + y, junk).Took?
    ensures Decode(buf, junk).size < Decode(buf + y, junk).size
  {
    WholeHeader(buf + y, junk);
    if |buf| > 1 {
      CutHeader(buf, junk);
      var x := 2 + ExtendedBytes(LengthType(buf[1]));
      if x <= |buf| {
        SliceStable(buf, y, 2, x);
      }
    }
  }

  /** Fourteen bytes complete any header. */
  lemma ZerosComplete(buf: seq<byte>)
    ensures HeaderWhole(buf + ZEROS)
  {
  }

  /** The next packet taken, if any, is not the one taken too early. */
  lemma PrematureTold(c: Conn, e: Env)
    requires c.open && !HeaderWhole(c.buf) && Parse(c, e).Go?
    ensures var t := Drain(Plus(c, ZEROS), e).taken;
            |t| > |c.taken| ==> |t[|c.taken|]| > Parse(c, e).size
  {
    var d := Plus(c, ZEROS);
    var s := Parse(d, e);
    if s.Go? {
      ZerosComplete(c.buf);
      PrematureSize(c.buf, ZEROS, e.junk);
      DrainTakes(d, e);
      assert s.next.taken[|c.taken|] == d.buf[..s.size];
    } else {
      assert Drain(d, e).taken == c.taken;
    }
  }

  /** A run that ended early has received nothing more. */
  lemma DeadTold(c: Conn, e: Env)
    requires !c.dead && Drain(c, e).dead
    ensures Feed(Drain(c, e), ZEROS, e) != Drain(Plus(c, ZEROS), e)
  {
    DrainConserves(c, e);
    DrainConserves(Plus(c, ZEROS), e);
    Associates(Flatten(c.taken), c.buf, ZEROS);
    assert |Received(Drain(c, e))| < |Received(Drain(Plus(c, ZEROS), e))|;
  }

  lemma TooEarlyTold(c: Conn, e: Env)
    requires c.open && !HeaderWhole(c.buf) && Parse(c, e).Go?
    ensures Feed(Drain(c, e), ZEROS, e) != Drain(Plus(c, ZEROS), e)
  {
    var s := Parse(c, e);
    DrainTakes(c, e);
    DrainTakes(Plus(Drain(c, e), ZEROS), e);
    PrematureTold(c, e);
    assert s.next.taken[|c.taken|] == c.buf[..s.size];
  }

  /** What stopping after an unsteady run and then adding bytes leads to is not what one call
      leads to. */
  lemma {:induction false} UnsteadyTold(c: Conn, e: Env)
    requires !c.dead && !Steady(c, e) && Room(c, |ZEROS|, e)
    ensures Feed(Drain(c, e), ZEROS, e) != Drain(Plus(c, ZEROS), e)
    decreases |c.buf|
  {
    var s := Parse(c, e);
    if s.Crash? {
      DeadTold(c, e);
    } else if c.open && !HeaderWhole(c.buf) {
      TooEarlyTold(c, e);
    } else {
      StepStable(c, ZEROS, e);
      UnsteadyTold(s.next, e);
    }
  }

  /** A run on `x` can be continued by any bytes as if there had been one call, exactly when it is
      steady. */
  lemma SteadyExactly(c: Conn, x: seq<byte>, e: Env)
    requires !c.dead && Room(c, |x| + |ZEROS|, e)
    ensures (forall y :: Room(c, |x| + |y|, e) ==> Feed(Feed(c, x, e), y, e) == Feed(c, x + y, e))
            <==> Steady(Plus(c, x), e)
  {
    if Steady(Plus(c, x), e) {
      forall y | Room(c, |x| + |y|, e) ensures Feed(Feed(c, x, e), y, e) == Feed(c, x + y, e) {
        TwoCalls(c, x, y, e);
      }
    } else {
      UnsteadyTold(Plus(c, x), e);
      Associates(c.buf, x, ZEROS);
    }
  }

  lemma FirstTaken(c: Conn, e: Env)
    requires Parse(c, e).Go? && c.taken == []
    ensures Drain(c, e).taken != [] && Drain(c, e).taken[0] == c.buf[..Parse(c, e).size]
  {
    DrainTakes(c, e);
    assert Parse(c, e).next.taken[0] == c.buf[..Parse(c, e).size];
  }

  const CUT: seq<byte> := [0x81, 0x80]
  const KEY: seq<byte> := [0x11, 0x22, 0x33, 0x44]

  lemma CutFrame(junk: Key)
    ensures Decode(CUT, junk).Took? && Decode(CUT, junk).size == 2
    ensures Decode(CUT + KEY, junk).Took? && Decode(CUT + KEY, junk).size == 6
  {
    assert LengthType(0x80) == 0 && ((0x80 as byte >> 7) & 0x01) == 1;
    assert CUT + KEY == [0x81, 0x80, 0x11, 0x22, 0x33, 0x44];
  }

  /** A masked frame cut after its second byte: the code takes those two bytes for a whole frame,
      answers them, and then takes the masking key for the next frame. */
  lemma CutHeaderMatters(e: Env)
    ensures var c := START.(open := true);
            Feed(Feed(c, CUT, e), KEY, e) != Feed(c, CUT + KEY, e)
  {
    var c := START.(open := true);
    var d, w := Plus(c, CUT), Plus(c, CUT + KEY);
    assert d.buf == CUT && w.buf == CUT + KEY;
    CutFrame(e.junk);
    FirstTaken(d, e);
    FirstTaken(w, e);
    DrainTakes(Plus(Drain(d, e), KEY), e);
  }

  // ---------- any number of calls ----------

  /** Every call of the run is steady. */
  predicate AllSteady(c: Conn, chunks: seq<seq<byte>>, e: Env) {
    chunks == []
    || (AllSteady(c, chunks[..|chunks| - 1], e)
        && Steady(Plus(FeedAll(c, chunks[..|chunks| - 1], e), chunks[|chunks| - 1]), e))
  }

  lemma {:induction false} SteadyCalls(c: Conn, chunks: seq<seq<byte>>, e: Env)
    requires !c.dead && chunks != [] && AllSteady(c, chunks, e) && Room(c, |Flatten(chunks)|, e)
    ensures FeedAll(c, chunks, e) == Feed(c, Flatten(chunks), e) && !FeedAll(c, chunks, e).dead
    ensures Steady(Plus(c, Flatten(chunks)), e)
    decreases |chunks|
  {
    var front, last := chunks[..|chunks| - 1], chunks[|chunks| - 1];
    if front == [] {
      assert Flatten(chunks) == last;
      DrainPlus(Plus(c, last), [], e);
    } else {
      SteadyCalls(c, front, e);
      var x := Flatten(front);
      DrainPlus(Plus(c, x), last, e);
      Associates(c.buf, x, last);
      assert Plus(Plus(c, x), last) == Plus(c, x + last);
      DrainPlus(Plus(c, x + last), [], e);
    }
  }

  /** Calls of which all but the last are steady are one call; the last one may end anywhere, also
      in a failing access. */
  lemma AsOneCall(c: Conn, chunks: seq<seq<byte>>, e: Env)
    requires !c.dead && chunks != [] && AllSteady(c, chunks[..|chunks| - 1], e) && Room(c, |Flatten(chunks)|, e)
    ensures FeedAll(c, chunks, e) == Feed(c, Flatten(chunks), e)
  {
    var front, last := chunks[..|chunks| - 1], chunks[|chunks| - 1];
    if front == [] {
      assert Flatten(chunks) == last;
    } else {
      SteadyCalls(c, front, e);
      var x := Flatten(front);
      DrainPlus(Plus(c, x), last, e);
      Associates(c.buf, x, last);
      assert Plus(Plus(c, x), last) == Plus(c, x + last);
    }
  }

  /** No call finds more bytes than the limit before the handshake is done. */
  predicate AllWithin(c: Conn, chunks: seq<seq<byte>>, e: Env) {
    chunks == []
    || (AllWithin(c, chunks[..|chunks| - 1], e)
        && Room(FeedAll(c, chunks[..|chunks| - 1], e), |chunks[|chunks| - 1]|, e))
  }

  lemma {:induction false} LimitUnseen(c: Conn, e: Env, limit: nat)
    requires Room(c, 0, e) && e.limit <= limit
    ensures Drain(c, e.(limit := limit)) == Drain(c, e)
    ensures Steady(c, e.(limit := limit)) == Steady(c, e)
    decreases |c.buf|
  {
    var s := Parse(c, e);
    assert Parse(c, e.(limit := limit)) == s;
    if !s.Go? {
    } else {
      LimitUnseen(s.next, e, limit);
    }
  }

  /** A limit that no call reaches might as well be a larger one. */
  lemma {:induction false} AnyLimit(c: Conn, chunks: seq<seq<byte>>, e: Env, limit: nat)
    requires AllWithin(c, chunks, e) && e.limit <= limit
    ensures FeedAll(c, chunks, e.(limit := limit)) == FeedAll(c, chunks, e)
    ensures AllSteady(c, chunks, e.(limit := limit)) == AllSteady(c, chunks, e)
    decreases |chunks|
  {
    if chunks == [] {
    } else {
      var front, last := chunks[..|chunks| - 1], chunks[|chunks| - 1];
      AnyLimit(c, front, e, limit);
      LimitUnseen(Plus(FeedAll(c, front, e), last), e, limit);
    }
  }

  /** However the same stream is cut into calls, the handshake flag, the unread bytes, the partial
      message, the packets taken and everything written come out the same. */
  lemma ChunkIndependence(c: Conn, a: seq<seq<byte>>, b: seq<seq<byte>>, e: Env)
    requires !c.dead && a != [] && b != [] && Flatten(a) == Flatten(b)
    requires AllSteady(c, a[..|a| - 1], e) && AllWithin(c, a, e)
    requires AllSteady(c, b[..|b| - 1], e) && AllWithin(c, b, e)
    ensures FeedAll(c, a, e) == FeedAll(c, b, e)
  {
    var limit := e.limit + |c.buf| + |Flatten(a)|;
    AnyLimit(c, a, e, limit);
    AnyLimit(c, a[..|a| - 1], e, limit);
    AnyLimit(c, b, e, limit);
    AnyLimit(c, b[..|b| - 1], e, limit);
    AsOneCall(c, a, e.(limit := limit));
    AsOneCall(c, b, e.(limit := limit));
  }

  // ---------- cuts that are known beforehand ----------

  lemma NextSteady(c: Conn, front: seq<seq<byte>>, last: seq<byte>, e: Env)
    requires !c.dead && AllSteady(c, front, e) && Steady(Plus(c, Flatten(front) + last), e)
    requires Room(c, |Flatten(front)| + |last|, e)
    ensures Steady(Plus(FeedAll(c, front, e), last), e)
  {
    var x := Flatten(front);
    if front == [] {
      assert x + last == last;
    } else {
      SteadyCalls(c, front, e);
      Associates(c.buf, x, last);
      assert Plus(Plus(c, x), last) == Plus(c, x + last);
      DrainPlus(Plus(c, x), last, e);
    }
  }

  /** If every beginning of the stream would be steady as one call, every call is. */
  lemma {:induction false} PrefixesSteady(c: Conn, chunks: seq<seq<byte>>, e: Env)
    requires !c.dead && Room(c, |Flatten(chunks)|, e)
    requires forall k :: 1 <= k <= |chunks| ==> Steady(Plus(c, Flatten(chunks[..k])), e)
    ensures AllSteady(c, chunks, e)
    decreases |chunks|
  {
    if chunks == [] {
    } else {
      var front, last := chunks[..|chunks| - 1], chunks[|chunks| - 1];
      forall k | 1 <= k <= |front| ensures Steady(Plus(c, Flatten(front[..k])), e) {
        assert front[..k] == chunks[..k];
      }
      PrefixesSteady(c, front, e);
      assert chunks[..|chunks|] == chunks;
      NextSteady(c, front, last, e);
    }
  }

  /** If every proper beginning of the stream would be steady as one call, the calls are one. */
  lemma PrefixesAsOne(c: Conn, chunks: seq<seq<byte>>, e: Env)
    requires !c.dead && chunks != [] && Room(c, |Flatten(chunks)|, e)
    requires forall k :: 1 <= k < |chunks| ==> Steady(Plus(c, Flatten(chunks[..k])), e)
    ensures FeedAll(c, chunks, e) == Feed(c, Flatten(chunks), e)
  {
    var front := chunks[..|chunks| - 1];
    forall k | 1 <= k <= |front| ensures Steady(Plus(c, Flatten(front[..k])), e) {
      assert front[..k] == chunks[..k];
    }
    PrefixesSteady(c, front, e);
    AsOneCall(c, chunks, e);
  }

  /** `n` bytes of the next frame are none of it, or at least its header. */
  predicate OutsideHeader(c: Conn, n: nat)
    requires n <= |c.buf|
  {
    c.open && n != 0 ==> HeaderWhole(c.buf[..n])
  }

  /** Following the packets of the whole buffer, a cut after `n` bytes is not inside a frame header,
      not right behind an empty unmasked frame, and not inside a packet that fails. */
  predicate CleanCut(c: Conn, n: nat, e: Env)
    requires n <= |c.buf|
    decreases |c.buf|
  {
    match Parse(c, e)
    case Stay => OutsideHeader(c, n)
    case Refuse => OutsideHeader(c, n)
    case Crash => if c.open then n == 0 else Judge(c.buf[..n], e.limit) == More
    case Go(next, size) =>
      if n < size then OutsideHeader(c, n)
      else
        && (c.open ==> HeaderWhole(c.buf) && !(n == size && Bare(c.buf, size)))
        && CleanCut(next, n - size, e)
  }

  function Cut(c: Conn, n: nat): Conn
    requires n <= |c.buf|
  {
    c.(buf := c.buf[..n])
  }

  lemma SliceTwice(s: seq<byte>, i: nat, n: nat)
    requires i <= n <= |s|
    ensures s[..n][..i] == s[..i] && s[..n][i..] == s[i..][..n - i]
  {
  }

  /** A packet that ends before the cut is taken as well without the bytes behind the cut. */
  lemma StepCut(c: Conn, n: nat, e: Env)
    requires Parse(c, e).Go? && Room(c, 0, e) && Parse(c, e).size <= n <= |c.buf|
    requires c.open ==> HeaderWhole(c.buf) && !(n == Parse(c, e).size && Bare(c.buf, n))
    ensures var s := Parse(c, e); Parse(Cut(c, n), e) == Go(Cut(s.next, n - s.size), s.size)
    ensures c.open ==> HeaderWhole(c.buf[..n])
  {
    var size := Parse(c, e).size;
    SliceTwice(c.buf, size, n);
    if c.open {
      DecisionEarlier(c.buf, n, e.junk);
    } else {
      AcceptedEarlier(c.buf, n, e.limit);
    }
  }

  lemma StopCut(c: Conn, n: nat, e: Env)
    requires n <= |c.buf| && Room(c, 0, e) && OutsideHeader(c, n)
    requires match Parse(c, e) case Stay => true case Refuse => true case Crash => false case Go(_, size) => n < size
    ensures Steady(Cut(c, n), e)
  {
    if !c.open {
      JudgedEarlier(c.buf, n, e.limit);
      if Judge(c.buf, e.limit).Accepted? {
        assert Parse(Cut(c, n), e) == Stay;
      }
    } else if n != 0 {
      PartWaits(c.buf, n, e.junk);
    }
  }

  /** The beginning up to a clean cut is a steady run of its own. */
  lemma {:induction false} CleanCutSteady(c: Conn, n: nat, e: Env)
    requires n <= |c.buf| && Room(c, 0, e) && CleanCut(c, n, e)
    ensures Steady(Cut(c, n), e)
    decreases |c.buf|
  {
    var s := Parse(c, e);
    if s.Go? && s.size <= n {
      StepCut(c, n, e);
      CleanCutSteady(s.next, n - s.size, e);
    } else if s.Crash? {
      assert Parse(Cut(c, n), e) == Stay;
    } else {
      StopCut(c, n, e);
    }
  }

  lemma CutOf(c: Conn, s: seq<byte>, x: seq<byte>)
    requires x <= s
    ensures |c.buf| + |x| <= |Plus(c, s).buf| && Cut(Plus(c, s), |c.buf| + |x|) == Plus(c, x)
  {
  }

  /** The beginning `x` of the stream `s` ends with a clean cut. */
  predicate EndsClean(c: Conn, s: seq<byte>, x: seq<byte>, e: Env) {
    |x| <= |s| && CleanCut(Plus(c, s), |c.buf| + |x|, e)
  }

  lemma EndsCleanSteady(c: Conn, s: seq<byte>, x: seq<byte>, e: Env)
    requires x <= s && EndsClean(c, s, x, e) && Room(c, |s|, e)
    ensures Steady(Plus(c, x), e)
  {
    CutOf(c, s, x);
    var d, n := Plus(c, s), |c.buf| + |x|;
    assert Cut(d, n) == Plus(c, x);
    CleanCutSteady(d, n, e);
  }

  /** For every byte stream of any length: calls between which there are only clean cuts do what one
      call does whose size limit the whole stream would meet. */
  lemma NoCutInHeader(c: Conn, chunks: seq<seq<byte>>, e: Env, limit: nat)
    requires !c.dead && chunks != [] && AllWithin(c, chunks, e)
    requires e.limit <= limit && Room(c, |Flatten(chunks)|, e.(limit := limit))
    requires forall k :: 1 <= k < |chunks| ==>
      EndsClean(c, Flatten(chunks), Flatten(chunks[..k]), e.(limit := limit))
    ensures FeedAll(c, chunks, e) == Feed(c, Flatten(chunks), e.(limit := limit))
  {
    forall k | 1 <= k < |chunks| ensures Steady(Plus(c, Flatten(chunks[..k])), e.(limit := limit)) {
      FlattenPrefix(chunks, k);
      EndsCleanSteady(c, Flatten(chunks), Flatten(chunks[..k]), e.(limit := limit));
    }
    PrefixesAsOne(c, chunks, e.(limit := limit));
    AnyLimit(c, chunks, e, limit);
  }

  /** Two ways of cutting the same stream, both clean, lead to the same state. */
  lemma AnyCleanCuts(c: Conn, a: seq<seq<byte>>, b: seq<seq<byte>>, e: Env, limit: nat)
    requires !c.dead && a != [] && b != [] && Flatten(a) == Flatten(b) && AllWithin(c, a, e) && AllWithin(c, b, e)
    requires e.limit <= limit && Room(c, |Flatten(a)|, e.(limit := limit))
    requires forall k :: 1 <= k < |a| ==> EndsClean(c, Flatten(a), Flatten(a[..k]), e.(limit := limit))
    requires forall k :: 1 <= k < |b| ==> EndsClean(c, Flatten(b), Flatten(b[..k]), e.(limit := limit))
    ensures FeedAll(c, a, e) == FeedAll(c, b, e)
  {
    NoCutInHeader(c, a, e, limit);
    NoCutInHeader(c, b, e, limit);
  }
}
