/** Properties of the generated code's behaviour, one group per combinator, then the rule wrapper and the value stack. */
module MatcherFacts {
  import opened Support
  import opened Grammar
  import opened Runtime
  import opened Matcher

  // ---------------------------------------------------------------------
  // Ordered choice and sequencing

  /** The first succeeding arm decides: no later arm is tried. */
  lemma AlternateFirstWins(g: Grammar, p: Oracle, arms: seq<Expr>, buf: seq<Byte>, st: State, fuel: nat)
    requires AllReady(g, arms) && Valid(buf, st) && |arms| > 0
    requires Match(g, p, arms[0], buf, st, fuel).Ok?
    ensures Match(g, p, Alternate(arms), buf, st, fuel + 2) == Match(g, p, arms[0], buf, st, fuel)
  {
  }

  /** A failed arm that is not the last one is rolled back to the entry position and log before the next arm. */
  lemma AlternateRollsBack(g: Grammar, p: Oracle, arms: seq<Expr>, buf: seq<Byte>, st: State, fuel: nat)
    requires AllReady(g, arms) && Valid(buf, st) && |arms| > 1
    requires Match(g, p, arms[0], buf, st, fuel).Fail?
    ensures var s := Match(g, p, arms[0], buf, st, fuel).st;
      Match(g, p, Alternate(arms), buf, st, fuel + 2) ==
      MatchAlt(g, p, arms[1..], buf, st, s.(pos := st.pos, thunks := st.thunks), fuel)
  {
  }

  /** A Sequence fails at its first failing member, leaving the rollback to whoever catches the failure. */
  lemma SequenceStopsAtFailure(g: Grammar, p: Oracle, items: seq<Expr>, buf: seq<Byte>, st: State, fuel: nat)
    requires AllReady(g, items) && Valid(buf, st) && |items| > 0
    requires Match(g, p, items[0], buf, st, fuel).Fail?
    ensures Match(g, p, Sequence(items), buf, st, fuel + 2) == Match(g, p, items[0], buf, st, fuel)
  {
  }

  // ---------------------------------------------------------------------
  // Lookahead

  /** PeekFor succeeds exactly when its element does, and then with position and log as on entry. */
  lemma PeekForZeroWidth(g: Grammar, p: Oracle, x: Expr, buf: seq<Byte>, st: State, fuel: nat)
    requires Ready(g, x) && Valid(buf, st)
    requires Match(g, p, x, buf, st, fuel) != OutOfFuel
    ensures Match(g, p, PeekFor(x), buf, st, fuel + 1).Ok? <==> Match(g, p, x, buf, st, fuel).Ok?
    ensures Match(g, p, PeekFor(x), buf, st, fuel + 1).Ok? ==>
      Match(g, p, PeekFor(x), buf, st, fuel + 1).st.pos == st.pos &&
      Match(g, p, PeekFor(x), buf, st, fuel + 1).st.thunks == st.thunks
  {
  }

  /** PeekNot succeeds exactly when its element fails, and then with position and log as on entry. */
  lemma PeekNotZeroWidth(g: Grammar, p: Oracle, x: Expr, buf: seq<Byte>, st: State, fuel: nat)
    requires Ready(g, x) && Valid(buf, st)
    requires Match(g, p, x, buf, st, fuel) != OutOfFuel
    ensures Match(g, p, PeekNot(x), buf, st, fuel + 1).Ok? <==> Match(g, p, x, buf, st, fuel).Fail?
    ensures Match(g, p, PeekNot(x), buf, st, fuel + 1).Ok? ==>
      Match(g, p, PeekNot(x), buf, st, fuel + 1).st.pos == st.pos &&
      Match(g, p, PeekNot(x), buf, st, fuel + 1).st.thunks == st.thunks
  {
  }

  // ---------------------------------------------------------------------
  // Marks

  /**
   * `YY_BEGIN` and `YY_END` are predicates, so `yyText(yybegin, yyend)` runs
   * first: `yytext` becomes the span of the marks as they were, then one mark
   * moves to `yypos`. They never fail and touch neither position nor log.
   */
  lemma MarksRefreshText(g: Grammar, p: Oracle, mark: string, buf: seq<Byte>, st: State, fuel: nat)
    requires Runnable(g) && Valid(buf, st) && fuel > 0
    requires mark == BeginMark || mark == EndMark
    ensures var r := Match(g, p, Predicate(mark), buf, st, fuel);
      && r.Ok? && r.st.pos == st.pos && r.st.thunks == st.thunks
      && r.st.text == Text(buf, st.begin, st.end)
      && (if mark == BeginMark then r.st.begin == st.pos && r.st.end == st.end
          else r.st.end == st.pos && r.st.begin == st.begin)
  {
  }

  // ---------------------------------------------------------------------
  // Repetition

  /** Star never fails: it ends with the state of its last successful attempt, rolled back past the failed one. */
  lemma {:induction false} StarNeverFails(g: Grammar, p: Oracle, x: Expr, buf: seq<Byte>, st: State, fuel: nat)
    requires Ready(g, x) && Valid(buf, st)
    ensures !StarLoop(g, p, x, buf, st, fuel).Fail?
    decreases fuel
  {
    if fuel > 0 {
      match Match(g, p, x, buf, st, fuel - 1)
      case Ok(s) => StarNeverFails(g, p, x, buf, s, fuel - 1);
      case Fail(s) =>
      case OutOfFuel =>
    }
  }

  /**
   * Query and Star never fail. Query keeps its element's state when the
   * element matches, and otherwise succeeds at the entry position and log.
   * Star goes on from each successful attempt's state, and an attempt that
   * fails leaves it at the position and log it had before that attempt.
   */
  lemma OptionalNeverFails(g: Grammar, p: Oracle, x: Expr, buf: seq<Byte>, st: State, fuel: nat)
    requires Ready(g, x) && Valid(buf, st)
    ensures !Match(g, p, Query(x), buf, st, fuel).Fail?
    ensures !Match(g, p, Star(x), buf, st, fuel).Fail?
    ensures fuel > 0 && Match(g, p, x, buf, st, fuel - 1).Ok? ==>
      Match(g, p, Query(x), buf, st, fuel) == Match(g, p, x, buf, st, fuel - 1)
    ensures fuel > 0 && Match(g, p, x, buf, st, fuel - 1).Fail? ==>
      Match(g, p, Query(x), buf, st, fuel).Ok? &&
      Match(g, p, Query(x), buf, st, fuel).st.pos == st.pos &&
      Match(g, p, Query(x), buf, st, fuel).st.thunks == st.thunks
    ensures fuel > 1 && Match(g, p, x, buf, st, fuel - 2).Ok? ==>
      Match(g, p, Star(x), buf, st, fuel) == StarLoop(g, p, x, buf, Match(g, p, x, buf, st, fuel - 2).st, fuel - 2)
    ensures fuel > 1 && Match(g, p, x, buf, st, fuel - 2).Fail? ==>
      Match(g, p, Star(x), buf, st, fuel).Ok? &&
      Match(g, p, Star(x), buf, st, fuel).st.pos == st.pos &&
      Match(g, p, Star(x), buf, st, fuel).st.thunks == st.thunks
  {
    if fuel > 0 {
      QueryStep(g, p, x, buf, st, fuel);
      StarIsLoop(g, p, x, buf, st, fuel);
      StarNeverFails(g, p, x, buf, st, fuel - 1);
      if fuel > 1 {
        StarStep(g, p, x, buf, st, fuel - 1);
      }
    }
  }

  /** One step of Query: its element's outcome, a failure rolled back to the entry state. */
  lemma QueryStep(g: Grammar, p: Oracle, x: Expr, buf: seq<Byte>, st: State, fuel: nat)
    requires Ready(g, x) && Valid(buf, st) && fuel > 0
    ensures var m := Match(g, p, x, buf, st, fuel - 1);
      var r := Match(g, p, Query(x), buf, st, fuel);
      && (m.Ok? ==> r == m)
      && (m.Fail? ==> r == Ok(Restore(m.st, st)))
      && (m.OutOfFuel? ==> r.OutOfFuel?)
  {
  }

  /** Star hands the remaining fuel to its loop. */
  lemma StarIsLoop(g: Grammar, p: Oracle, x: Expr, buf: seq<Byte>, st: State, fuel: nat)
    requires Ready(g, x) && Valid(buf, st) && fuel > 0
    ensures Match(g, p, Star(x), buf, st, fuel) == StarLoop(g, p, x, buf, st, fuel - 1)
  {
  }

  /** Plus fails exactly when its first attempt fails. */
  lemma PlusFailsOnFirst(g: Grammar, p: Oracle, x: Expr, buf: seq<Byte>, st: State, fuel: nat)
    requires Ready(g, x) && Valid(buf, st) && fuel > 0
    ensures Match(g, p, Plus(x), buf, st, fuel).Fail? <==> Match(g, p, x, buf, st, fuel - 1).Fail?
  {
    match Match(g, p, x, buf, st, fuel - 1)
    case Ok(s) => StarNeverFails(g, p, x, buf, s, fuel - 1);
    case Fail(s) =>
    case OutOfFuel =>
  }

  // ---------------------------------------------------------------------
  // The rule wrapper

  /** A rule rooted at Query or Star always returns 1. */
  lemma SafeRuleNeverFails(g: Grammar, p: Oracle, name: string, buf: seq<Byte>, st: State, fuel: nat)
    requires Runnable(g) && Defined(g, name) && Valid(buf, st)
    requires Safe(g[name].expression.value)
    ensures !RuleCall(g, p, name, buf, st, fuel).Fail?
  {
    if fuel > 0 {
      var n := |g[name].variables|;
      var entry := if n > 0 then Do(st, PushFn, n, 0) else st;
      OptionalNeverFails(g, p, g[name].expression.value.element, buf, entry, fuel - 1);
    }
  }

  /** A failed rule returns 0 with the entry position and log: nothing it consumed or logged survives. */
  lemma FailedRuleRestores(g: Grammar, p: Oracle, name: string, buf: seq<Byte>, st: State, fuel: nat)
    requires Runnable(g) && Defined(g, name) && Valid(buf, st)
    requires RuleCall(g, p, name, buf, st, fuel).Fail?
    ensures RuleCall(g, p, name, buf, st, fuel).st.pos == st.pos
    ensures RuleCall(g, p, name, buf, st, fuel).st.thunks == st.thunks
  {
    if Safe(g[name].expression.value) {
      SafeRuleNeverFails(g, p, name, buf, st, fuel);
    }
  }

  /** A rule with n variables logs `yyPush n` before its body's entries and `yyPop n` after them. */
  lemma RuleFrame(g: Grammar, p: Oracle, name: string, buf: seq<Byte>, st: State, fuel: nat)
    requires Runnable(g) && Defined(g, name) && Valid(buf, st)
    requires |g[name].variables| > 0
    requires RuleCall(g, p, name, buf, st, fuel).Ok?
    ensures var t := RuleCall(g, p, name, buf, st, fuel).st.thunks;
      var n := |g[name].variables|;
      && |t| >= |st.thunks| + 2
      && t[..|st.thunks|] == st.thunks
      && t[|st.thunks|] == Thunk(PushFn, n, 0)
      && t[|t| - 1] == Thunk(PopFn, n, 0)
  {
  }

  /** A Name bound to the variable at position i logs `yySet` with offset -(i+1) after the rule succeeds. */
  lemma NameSetsVariable(g: Grammar, p: Oracle, rule: string, i: nat, buf: seq<Byte>, st: State, fuel: nat)
    requires Ready(g, Name(rule, Some(i))) && Valid(buf, st)
    requires Match(g, p, Name(rule, Some(i)), buf, st, fuel).Ok?
    ensures var t := Match(g, p, Name(rule, Some(i)), buf, st, fuel).st.thunks;
      |t| > |st.thunks| && t[|t| - 1] == Thunk(SetFn, -(i + 1), 0)
  {
  }

  // ---------------------------------------------------------------------
  // The value stack stays balanced

  /** What a successful match adds to the log moves the frame pointer by nothing overall. */
  predicate Balanced(st: State, r: Outcome) {
    r.Ok? ==> |st.thunks| <= |r.st.thunks| && StackEffect(r.st.thunks[|st.thunks|..]) == 0
  }

  lemma SliceChain(a: seq<Thunk>, b: seq<Thunk>, c: seq<Thunk>)
    requires IsPrefix(a, b) && IsPrefix(b, c)
    ensures c[|a|..] == b[|a|..] + c[|b|..]
    ensures StackEffect(c[|a|..]) == StackEffect(b[|a|..]) + StackEffect(c[|b|..])
  {
    assert c[..|b|] == b;
    assert c[|a|..] == c[|a|..|b|] + c[|b|..];
    StackEffectAppend(b[|a|..], c[|b|..]);
  }

  lemma EffectOfEmptySlice(t: seq<Thunk>)
    ensures StackEffect(t[|t|..]) == 0
  {
    assert t[|t|..] == [];
  }

  lemma {:induction false} MatchBalanced(g: Grammar, p: Oracle, e: Expr, buf: seq<Byte>, st: State, fuel: nat)
    requires Ready(g, e) && Valid(buf, st)
    ensures Balanced(st, Match(g, p, e, buf, st, fuel))
    decreases fuel, 2
  {
    if fuel > 0 {
      match e
      case Name(rule, variable) => NameBalanced(g, p, rule, variable, buf, st, fuel);
      case Alternate(arms) => AltBalanced(g, p, arms, buf, st, st, fuel - 1);
      case Sequence(items) => SeqBalanced(g, p, items, buf, st, fuel - 1);
      case Query(x) =>
        MatchBalanced(g, p, x, buf, st, fuel - 1);
        EffectOfEmptySlice(st.thunks);
      case Star(x) => StarBalanced(g, p, x, buf, st, fuel - 1);
      case Plus(x) => PlusBalanced(g, p, x, buf, st, fuel);
      case Action(name) =>
        var r := Match(g, p, e, buf, st, fuel);
        assert r.st.thunks[|st.thunks|..] == [Thunk(User(name), st.begin, st.end)];
      case _ =>
        EffectOfEmptySlice(st.thunks);
    }
  }

  lemma {:induction false} NameBalanced(g: Grammar, p: Oracle, rule: string, variable: Option<nat>, buf: seq<Byte>, st: State, fuel: nat)
    requires Ready(g, Name(rule, variable)) && Valid(buf, st) && fuel > 0
    ensures Balanced(st, Match(g, p, Name(rule, variable), buf, st, fuel))
    decreases fuel, 1
  {
    NameStep(g, p, rule, variable, buf, st, fuel);
    var c := RuleCall(g, p, rule, buf, st, fuel - 1);
    CallBalanced(g, p, rule, buf, st, fuel - 1);
    if c.Ok? && variable.Some? {
      SetKeepsBalance(st, c, Match(g, p, Name(rule, variable), buf, st, fuel), Offset(variable.value));
    }
  }

  /** Logging a `yySet` after a balanced stretch keeps it balanced. */
  lemma SetKeepsBalance(st: State, c: Outcome, r: Outcome, offset: int)
    requires c.Ok? && r.Ok? && Balanced(st, c) && IsPrefix(st.thunks, c.st.thunks)
    requires r.st.thunks == c.st.thunks + [Thunk(SetFn, offset, 0)]
    ensures Balanced(st, r)
  {
    var t := r.st.thunks;
    SliceChain(st.thunks, c.st.thunks, t);
    assert t[|c.st.thunks|..] == [Thunk(SetFn, offset, 0)];
  }

  /** One unfolding of Match on a Name node. */
  lemma NameStep(g: Grammar, p: Oracle, rule: string, variable: Option<nat>, buf: seq<Byte>, st: State, fuel: nat)
    requires Ready(g, Name(rule, variable)) && Valid(buf, st) && fuel > 0
    ensures Defined(g, rule)
    ensures var c := RuleCall(g, p, rule, buf, st, fuel - 1);
      var r := Match(g, p, Name(rule, variable), buf, st, fuel);
      && (c.Ok? && variable.Some? ==> r.Ok? && r.st.thunks == c.st.thunks + [Thunk(SetFn, Offset(variable.value), 0)])
      && (c.Ok? && variable.None? ==> r == c)
      && (!c.Ok? ==> !r.Ok?)
  {
  }

  lemma {:induction false} PlusBalanced(g: Grammar, p: Oracle, x: Expr, buf: seq<Byte>, st: State, fuel: nat)
    requires Ready(g, Plus(x)) && Valid(buf, st) && fuel > 0
    ensures Balanced(st, Match(g, p, Plus(x), buf, st, fuel))
    decreases fuel, 1
  {
    PlusStep(g, p, x, buf, st, fuel);
    MatchBalanced(g, p, x, buf, st, fuel - 1);
    var m := Match(g, p, x, buf, st, fuel - 1);
    if m.Ok? {
      StarBalanced(g, p, x, buf, m.st, fuel - 1);
    }
    BalancedChain(st, m, Match(g, p, Plus(x), buf, st, fuel));
  }

  /** Two balanced stretches of log, one after the other, make a balanced whole. */
  lemma BalancedChain(st: State, m: Outcome, r: Outcome)
    requires Balanced(st, m) && (m.Ok? ==> IsPrefix(st.thunks, m.st.thunks))
    requires m.Ok? ==> Balanced(m.st, r) && (r.Ok? ==> IsPrefix(m.st.thunks, r.st.thunks))
    requires !m.Ok? ==> !r.Ok?
    ensures Balanced(st, r)
  {
    if m.Ok? && r.Ok? {
      SliceChain(st.thunks, m.st.thunks, r.st.thunks);
    }
  }

  /** One unfolding of Match on a Plus node. */
  lemma PlusStep(g: Grammar, p: Oracle, x: Expr, buf: seq<Byte>, st: State, fuel: nat)
    requires Ready(g, Plus(x)) && Valid(buf, st) && fuel > 0
    ensures Ready(g, x)
    ensures var m := Match(g, p, x, buf, st, fuel - 1);
      var r := Match(g, p, Plus(x), buf, st, fuel);
      && (m.Ok? ==> r == StarLoop(g, p, x, buf, m.st, fuel - 1))
      && (!m.Ok? ==> !r.Ok?)
  {
  }

  lemma {:induction false} AltBalanced(g: Grammar, p: Oracle, arms: seq<Expr>, buf: seq<Byte>, saved: State, cur: State, fuel: nat)
    requires AllReady(g, arms) && Valid(buf, cur) && Valid(buf, saved)
    requires cur.pos == saved.pos && cur.thunks == saved.thunks
    ensures Balanced(cur, MatchAlt(g, p, arms, buf, saved, cur, fuel))
    decreases fuel, 0
  {
    if fuel > 0 {
      if |arms| == 0 {
        EffectOfEmptySlice(cur.thunks);
      } else {
        MatchBalanced(g, p, arms[0], buf, cur, fuel - 1);
        if |arms| > 1 {
          match Match(g, p, arms[0], buf, cur, fuel - 1)
          case Fail(s) => AltBalanced(g, p, arms[1..], buf, saved, Restore(s, saved), fuel - 1);
          case Ok(_) =>
          case OutOfFuel =>
        }
      }
    }
  }

  lemma {:induction false} SeqBalanced(g: Grammar, p: Oracle, items: seq<Expr>, buf: seq<Byte>, st: State, fuel: nat)
    requires AllReady(g, items) && Valid(buf, st)
    ensures Balanced(st, MatchSeq(g, p, items, buf, st, fuel))
    decreases fuel, 0
  {
    if fuel > 0 {
      if |items| == 0 {
        EffectOfEmptySlice(st.thunks);
      } else {
        match Match(g, p, items[0], buf, st, fuel - 1)
        case Ok(s) =>
          MatchBalanced(g, p, items[0], buf, st, fuel - 1);
          SeqBalanced(g, p, items[1..], buf, s, fuel - 1);
          var r := MatchSeq(g, p, items[1..], buf, s, fuel - 1);
          if r.Ok? {
            SliceChain(st.thunks, s.thunks, r.st.thunks);
          }
        case Fail(_) =>
        case OutOfFuel =>
      }
    }
  }

  lemma {:induction false} StarBalanced(g: Grammar, p: Oracle, x: Expr, buf: seq<Byte>, st: State, fuel: nat)
    requires Ready(g, x) && Valid(buf, st)
    ensures Balanced(st, StarLoop(g, p, x, buf, st, fuel))
    decreases fuel, 0
  {
    if fuel > 0 {
      StarStep(g, p, x, buf, st, fuel);
      var m := Match(g, p, x, buf, st, fuel - 1);
      if m.Ok? {
        MatchBalanced(g, p, x, buf, st, fuel - 1);
        StarBalanced(g, p, x, buf, m.st, fuel - 1);
        BalancedChain(st, m, StarLoop(g, p, x, buf, st, fuel));
      } else if m.Fail? {
        RestoredBalanced(st, m.st);
      }
    }
  }

  /** Rolling back to a save point leaves a balanced (empty) suffix of the log. */
  lemma RestoredBalanced(st: State, cur: State)
    ensures Balanced(st, Ok(Restore(cur, st)))
  {
    EffectOfEmptySlice(st.thunks);
  }

  /** One turn of the Star loop. */
  lemma StarStep(g: Grammar, p: Oracle, x: Expr, buf: seq<Byte>, st: State, fuel: nat)
    requires Ready(g, x) && Valid(buf, st) && fuel > 0
    ensures var m := Match(g, p, x, buf, st, fuel - 1);
      var r := StarLoop(g, p, x, buf, st, fuel);
      && (m.Ok? ==> r == StarLoop(g, p, x, buf, m.st, fuel - 1))
      && (m.Fail? ==> r == Ok(Restore(m.st, st)))
      && (m.OutOfFuel? ==> r.OutOfFuel?)
  {
  }

  /** A rule's frame: `yyPush n`, a balanced body, `yyPop n`. */
  lemma {:induction false} CallBalanced(g: Grammar, p: Oracle, name: string, buf: seq<Byte>, st: State, fuel: nat)
    requires Runnable(g) && Defined(g, name) && Valid(buf, st)
    ensures Balanced(st, RuleCall(g, p, name, buf, st, fuel))
    decreases fuel, 0
  {
    if fuel > 0 {
      var rule := g[name];
      var body := rule.expression.value;
      var n := |rule.variables|;
      var entry := if n > 0 then Do(st, PushFn, n, 0) else st;
      RuleReady(g, name);
      MatchBalanced(g, p, body, buf, entry, fuel - 1);
      match Match(g, p, body, buf, entry, fuel - 1)
      case Ok(s) =>
        if n > 0 {
          assert entry.thunks == st.thunks + [Thunk(PushFn, n, 0)];
          FrameBalanced(st.thunks, s.thunks, n);
        }
      case Fail(_) =>
      case OutOfFuel =>
    }
  }

  /** `yyPush n`, a balanced stretch, then `yyPop n`: no net effect on the frame. */
  lemma FrameBalanced(a: seq<Thunk>, b: seq<Thunk>, n: nat)
    requires IsPrefix(a + [Thunk(PushFn, n, 0)], b)
    requires StackEffect(b[|a| + 1..]) == 0
    ensures StackEffect((b + [Thunk(PopFn, n, 0)])[|a|..]) == 0
  {
    var push, pop := Thunk(PushFn, n, 0), Thunk(PopFn, n, 0);
    var mid := b[|a| + 1..];
    assert (b + [pop])[|a|..] == [push] + (mid + [pop]);
    StackEffectAppend([push], mid + [pop]);
    StackEffectAppend(mid, [pop]);
    assert StackEffect([push]) == n;
    assert StackEffect([pop]) + n == 0;
  }
}
