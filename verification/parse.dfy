/**
 * `YYPARSEFROM`: one top-level parse. It resets the marks, the log and the
 * frame pointer, runs the start rule, flushes the log only if the rule
 * returned 1, and commits either way.
 */
module Parse {
  import opened Support
  import opened Grammar
  import opened Runtime
  import opened Matcher
  import MatcherFacts

  datatype Parsed<V> = Parsed(ok: bool, ctx: Context<V>, calls: seq<Call>) | Unfinished

  /** The matching state a top-level parse starts from: `yybegin = yyend = yypos`, `yythunkpos = 0`. */
  function Start<V>(c: Context<V>): (st: State)
    requires c.pos <= |c.buf|
    ensures Valid(c.buf, st) && st.pos == c.pos && st.thunks == []
  {
    State(c.pos, [], c.pos, c.pos, c.text)
  }

  function ParseFrom<V>(g: Grammar, p: Oracle, act: (Call, Values<V>) -> Values<V>, start: string, c: Context<V>, fuel: nat): (r: Parsed<V>)
    requires Runnable(g) && Defined(g, start) && c.pos <= |c.buf|
    ensures r.Parsed? ==> r.ctx.pos == 0 && r.ctx.log == []
  {
    var st := Start(c);
    var base := c.stack.(frame := 0);
    match RuleCall(g, p, start, c.buf, st, fuel)
    case OutOfFuel => Unfinished
    case Ok(s) =>
      var f := Done(c.buf, s.thunks, Flush(s.text, base, []), act);
      var after := Context(c.buf, s.pos, s.begin, s.end, [], f.text, f.stack);
      Parsed(true, Commit(after), f.calls)
    case Fail(s) =>
      var after := Context(c.buf, s.pos, s.begin, s.end, [], s.text, base);
      Parsed(false, Commit(after), [])
  }

  /**
   * A parse that returns 1 runs every action its successful match logged,
   * in log order, once each, returns the frame pointer to the base of the
   * value stack, and drops exactly the consumed input.
   */
  lemma AcceptedParse<V>(g: Grammar, p: Oracle, act: (Call, Values<V>) -> Values<V>, start: string, c: Context<V>, fuel: nat)
    requires Runnable(g) && Defined(g, start) && c.pos <= |c.buf|
    requires ParseFrom(g, p, act, start, c, fuel).Parsed? && ParseFrom(g, p, act, start, c, fuel).ok
    ensures var s := RuleCall(g, p, start, c.buf, Start(c), fuel).st;
      var r := ParseFrom(g, p, act, start, c, fuel);
      && LogIn(c.buf, s.thunks)
      && |r.calls| == |UserThunks(s.thunks)|
      && (forall i :: 0 <= i < |r.calls| ==> ThunkIn(c.buf, UserThunks(s.thunks)[i]) && CallFor(c.buf, r.calls[i], UserThunks(s.thunks)[i]))
      && r.ctx.stack.frame == 0
      && c.pos <= s.pos && r.ctx.buf == c.buf[s.pos..]
  {
    var st := Start(c);
    var s := RuleCall(g, p, start, c.buf, st, fuel).st;
    var base := c.stack.(frame := 0);
    DoneRunsLog(c.buf, s.thunks, Flush(s.text, base, []), act);
    DoneFrame(c.buf, s.thunks, Flush(s.text, base, []), act);
    MatcherFacts.CallBalanced(g, p, start, c.buf, st, fuel);
    assert s.thunks[0..] == s.thunks;
  }

  /** A parse that returns 0 runs no action and consumes nothing: the buffer keeps all of its input. */
  lemma RejectedParse<V>(g: Grammar, p: Oracle, act: (Call, Values<V>) -> Values<V>, start: string, c: Context<V>, fuel: nat)
    requires Runnable(g) && Defined(g, start) && c.pos <= |c.buf|
    requires ParseFrom(g, p, act, start, c, fuel).Parsed? && !ParseFrom(g, p, act, start, c, fuel).ok
    ensures ParseFrom(g, p, act, start, c, fuel).calls == []
    ensures ParseFrom(g, p, act, start, c, fuel).ctx.buf == c.buf[c.pos..]
  {
    MatcherFacts.FailedRuleRestores(g, p, start, c.buf, Start(c), fuel);
  }
}
