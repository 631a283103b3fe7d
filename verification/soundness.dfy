/**
 * `consumesInput` is sound with respect to the generated code: whenever it
 * answers true for an expression, every successful match of that expression
 * moves `yypos` strictly forward. This is what lets the generator rely on it
 * to rule out loops that make no progress.
 */
module Soundness {
  import opened Support
  import opened Grammar
  import opened Runtime
  import opened Matcher
  import opened Analysis

  predicate Says(a: Analysis) {
    a.Done? && a.consumes
  }

  predicate Shaped(g: Grammar, e: Expr) {
    WellShaped(g) && NoEmptyAlternate(e)
  }

  lemma BodyShaped(g: Grammar, n: string)
    requires WellShaped(g) && Defined(g, n)
    ensures Shaped(g, g[n].expression.value)
  {
  }

  /** Successful matches never move backwards; if the analyser says "consumes", they move forwards. */
  lemma {:induction false} MatchSound(g: Grammar, p: Oracle, e: Expr, buf: seq<Byte>, st: State, fuel: nat, reached: set<string>)
    requires Ready(g, e) && Shaped(g, e) && Valid(buf, st)
    requires Says(Consumes(g, e, reached))
    requires Match(g, p, e, buf, st, fuel).Ok?
    ensures Match(g, p, e, buf, st, fuel).st.pos > st.pos
    decreases fuel, 1
  {
    match e
    case Name(rule, variable) =>
      CallSound(g, p, rule, buf, st, fuel - 1, reached);
    case Alternate(arms) =>
      AllConsumeMeaning(g, arms, reached);
      AltSound(g, p, arms, buf, st, st, fuel - 1, reached);
    case Sequence(items) =>
      SomeConsumesMeaning(g, items, reached);
      SeqSound(g, p, items, buf, st, fuel - 1, reached);
    case Plus(x) =>
      var s := Match(g, p, x, buf, st, fuel - 1).st;
      MatchSound(g, p, x, buf, st, fuel - 1, reached);
    case _ =>
  }

  /** A rule whose body is analysed as consuming (with the rule marked) advances when it returns 1. */
  lemma {:induction false} CallSound(g: Grammar, p: Oracle, name: string, buf: seq<Byte>, st: State, fuel: nat, reached: set<string>)
    requires Runnable(g) && WellShaped(g) && Defined(g, name) && Valid(buf, st)
    requires Says(RuleConsumes(g, name, reached))
    requires RuleCall(g, p, name, buf, st, fuel).Ok?
    ensures RuleCall(g, p, name, buf, st, fuel).st.pos > st.pos
    decreases fuel, 0
  {
    var rule := g[name];
    var body := rule.expression.value;
    var n := |rule.variables|;
    var entry := if n > 0 then Do(st, PushFn, n, 0) else st;
    RuleReady(g, name);
    BodyShaped(g, name);
    assert Says(Consumes(g, body, reached + {name}));
    MatchSound(g, p, body, buf, entry, fuel - 1, reached + {name});
  }

  predicate AllSay(g: Grammar, es: seq<Expr>, reached: set<string>) {
    forall i :: 0 <= i < |es| ==> Says(Consumes(g, es[i], reached))
  }

  lemma {:induction false} AltSound(g: Grammar, p: Oracle, arms: seq<Expr>, buf: seq<Byte>, saved: State, cur: State, fuel: nat, reached: set<string>)
    requires AllReady(g, arms) && Valid(buf, cur) && Valid(buf, saved)
    requires WellShaped(g) && |arms| > 0 && forall i :: 0 <= i < |arms| ==> NoEmptyAlternate(arms[i])
    requires cur.pos == saved.pos && cur.thunks == saved.thunks
    requires AllSay(g, arms, reached)
    requires MatchAlt(g, p, arms, buf, saved, cur, fuel).Ok?
    ensures MatchAlt(g, p, arms, buf, saved, cur, fuel).st.pos > cur.pos
    decreases fuel, 0
  {
    assert Says(Consumes(g, arms[0], reached));
    match Match(g, p, arms[0], buf, cur, fuel - 1)
    case Ok(s) => MatchSound(g, p, arms[0], buf, cur, fuel - 1, reached);
    case Fail(s) =>
      if |arms| == 1 {
      } else {
        assert forall i :: 0 <= i < |arms[1..]| ==> arms[1..][i] == arms[i + 1];
        AltSound(g, p, arms[1..], buf, saved, Restore(s, saved), fuel - 1, reached);
      }
    case OutOfFuel =>
  }

  predicate SomeSays(g: Grammar, es: seq<Expr>, reached: set<string>) {
    exists i :: 0 <= i < |es| && Says(Consumes(g, es[i], reached))
  }

  lemma {:induction false} SeqSound(g: Grammar, p: Oracle, items: seq<Expr>, buf: seq<Byte>, st: State, fuel: nat, reached: set<string>)
    requires AllReady(g, items) && Valid(buf, st)
    requires WellShaped(g) && forall i :: 0 <= i < |items| ==> NoEmptyAlternate(items[i])
    requires SomeSays(g, items, reached)
    requires MatchSeq(g, p, items, buf, st, fuel).Ok?
    ensures MatchSeq(g, p, items, buf, st, fuel).st.pos > st.pos
    decreases fuel, 0
  {
    var k :| 0 <= k < |items| && Says(Consumes(g, items[k], reached));
    match Match(g, p, items[0], buf, st, fuel - 1)
    case Ok(s) =>
      if k == 0 {
        MatchSound(g, p, items[0], buf, st, fuel - 1, reached);
      } else {
        assert items[1..][k - 1] == items[k];
        assert forall i :: 0 <= i < |items[1..]| ==> items[1..][i] == items[i + 1];
        SeqSound(g, p, items[1..], buf, s, fuel - 1, reached);
      }
    case Fail(_) =>
    case OutOfFuel =>
  }

  /**
   * The analysis pass's verdict on a rule, as Rule_compile_c computes it
   * (nothing marked): if it says the rule consumes, every call that returns 1
   * has advanced `yypos`.
   */
  lemma RuleAnalysisSound(g: Grammar, p: Oracle, name: string, buf: seq<Byte>, st: State, fuel: nat)
    requires Runnable(g) && WellShaped(g) && Defined(g, name) && Valid(buf, st)
    requires Says(RuleConsumes(g, name, {}))
    requires RuleCall(g, p, name, buf, st, fuel).Ok?
    ensures RuleCall(g, p, name, buf, st, fuel).st.pos > st.pos
  {
    CallSound(g, p, name, buf, st, fuel, {});
  }

  /**
   * The grammar `S <- "\0\0" S` as generated. The literal's raw text has four
   * characters, so it compiles to `yymatchString`, which sees an empty C
   * string and returns 1 without moving `yypos`. `consumesInput` still says
   * the literal consumes, so the rule is analysed as consuming with no
   * left-recursion report, while `yy_S` would call itself at the same
   * position. The literal as `Match` runs it compares both bytes and fails.
   */
  lemma NulLiteralAsWritten(p: Oracle)
    ensures var nul := String([0, 0]);
      var g := map["S" := Rule("S", 1, [], Some(Sequence([nul, Name("S", None)])), true)];
      var buf: seq<Byte> := ['a' as Byte];
      var st := State(0, [], 0, 0, []);
      && Says(Consumes(g, nul, {}))
      && RuleConsumes(g, "S", {}) == Done(true, {}, [])
      && LiteralAsWritten(buf, st, [0, 0], false) == Ok(st)
      && Literal(buf, st, [0, 0]).Fail?
  {
    var nul := String([0, 0]);
    var g := map["S" := Rule("S", 1, [], Some(Sequence([nul, Name("S", None)])), true)];
    var body := Sequence([nul, Name("S", None)]);
    assert Consumes(g, nul, {"S"}) == Done(true, {"S"}, []);
    assert SomeConsumes(g, [nul, Name("S", None)], {"S"}) == Done(true, {"S"}, []);
    assert Consumes(g, body, {"S"}) == Done(true, {"S"}, []);
    assert g["S"].expression.value == body;
    assert {} + {"S"} == {"S"};
    assert {"S"} - {"S"} == {};
  }
}
