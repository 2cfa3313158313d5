/** When an open connection treats its bytes as section 5.2 of RFC 6455 does. */
module Conformance {
  import opened Frames
  import opened Connection

  /** The loop of `from_wire` on an open connection with the frames the standard finds; what becomes
      of their payloads is as in the code. */
  function StandardDrain(c: Conn): Conn
    decreases |c.buf|
  {
    match OnDecision(c, Reference(c.buf))
    case Stay => c
    case Refuse => c
    case Crash => c
    case Go(next, _) => StandardDrain(next)
  }

  /** At every frame the standard finds, the buffer is one the code reads right. */
  predicate TrustedRun(c: Conn)
    decreases |c.buf|
  {
    Trusted(c.buf)
    && match OnDecision(c, Reference(c.buf))
       case Stay => true
       case Refuse => true
       case Crash => true
       case Go(next, _) => TrustedRun(next)
  }

  lemma {:induction false} StandardTakes(c: Conn)
    ensures c.taken <= StandardDrain(c).taken && StandardDrain(c).dead == c.dead
    ensures var d := Reference(c.buf);
            d.Took? ==> c.taken + [c.buf[..d.size]] <= StandardDrain(c).taken
    decreases |c.buf|
  {
    var s := OnDecision(c, Reference(c.buf));
    if !s.Go? {
    } else {
      StandardTakes(s.next);
    }
  }

  /** Decisions that differ leave traces that differ. */
  lemma DifferentDecision(c: Conn, e: Env)
    requires c.open && !c.dead && Decode(c.buf, e.junk) != Reference(c.buf)
    ensures Drain(c, e) != StandardDrain(c)
  {
    var d, r := Decode(c.buf, e.junk), Reference(c.buf);
    StandardTakes(c);
    DrainTakes(c, e);
    if d.Took? && r.Took? {
      if d.size == r.size {
        SameSizeSameFrame(c.buf, e.junk);
      }
      assert Drain(c, e).taken[|c.taken|] == c.buf[..d.size];
      assert StandardDrain(c).taken[|c.taken|] == c.buf[..r.size];
    }
  }

  /** The code takes the frames of the standard, and so writes what they call for, exactly on
      trusted runs. */
  lemma {:induction false} RunAgrees(c: Conn, e: Env)
    requires c.open && !c.dead
    ensures Drain(c, e) == StandardDrain(c) <==> TrustedRun(c)
    decreases |c.buf|
  {
    DecodeAgrees(c.buf, e.junk);
    if Trusted(c.buf) {
      var s := Parse(c, e);
      assert s == OnDecision(c, Reference(c.buf));
      if s.Go? {
        RunAgrees(s.next, e);
      }
    } else {
      DifferentDecision(c, e);
    }
  }
}
