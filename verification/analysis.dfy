/**
 * `consumesInput`: does an expression necessarily consume input when it
 * succeeds? Rules under analysis carry the RuleReached mark; meeting a marked
 * rule again reports possible infinite left recursion and answers false,
 * which is what makes the analysis terminate on cyclic grammars.
 */
module Analysis {
  import opened Support
  import opened Grammar

  /**
   * The outcome of one call: the answer, the set of rules whose RuleReached
   * bit is on afterwards, and the rules reported as possibly left-recursive,
   * in report order. `Abort` is the exit on a node kind the analyser rejects.
   */
  datatype Analysis =
    | Done(consumes: bool, reached: set<string>, reports: seq<string>)
    | Abort(reports: seq<string>)

  /** A size for expressions, used only to order the recursion. */
  function Size(e: Expr): (n: nat)
    ensures n >= 1
  {
    match e
    case Alternate(arms) => 1 + SizeAll(arms)
    case Sequence(items) => 1 + SizeAll(items)
    case Error(x, _) => 1 + Size(x)
    case PeekFor(x) => 1 + Size(x)
    case PeekNot(x) => 1 + Size(x)
    case Query(x) => 1 + Size(x)
    case Star(x) => 1 + Size(x)
    case Plus(x) => 1 + Size(x)
    case _ => 1
  }

  function SizeAll(es: seq<Expr>): (n: nat)
    ensures |es| > 0 ==> n > Size(es[0]) && n > SizeAll(es[1..])
  {
    if |es| == 0 then 0 else 1 + Size(es[0]) + SizeAll(es[1..])
  }

  /** The rules not yet marked: the measure that shrinks each time a rule is entered. */
  function Unmarked(g: Grammar, reached: set<string>): set<string> {
    g.Keys - reached
  }

  /** consumesInput on a Rule node: the RuleReached test, mark, recurse, unmark. */
  function RuleConsumes(g: Grammar, n: string, reached: set<string>): (r: Analysis)
    ensures r.Done? ==> r.reached == reached
    ensures n in reached ==> r == Done(false, reached, [n])
    decreases |Unmarked(g, reached)|, 0
  {
    if n in reached then Done(false, reached, [n])
    else if n !in g || g[n].expression.None? then Done(false, reached, [])
    else
      assert Unmarked(g, reached + {n}) == Unmarked(g, reached) - {n};
      assert n in Unmarked(g, reached);
      assert |Unmarked(g, reached + {n})| == |Unmarked(g, reached)| - 1;
      var a := Consumes(g, g[n].expression.value, reached + {n});
      match a
      case Abort(_) => a
      case Done(c, marks, reps) => Done(c, marks - {n}, reps)
  }

  /** consumesInput on an expression node. */
  function Consumes(g: Grammar, e: Expr, reached: set<string>): (r: Analysis)
    ensures r.Done? ==> r.reached == reached
    decreases |Unmarked(g, reached)|, Size(e)
  {
    match e
    case Dot => Done(true, reached, [])
    case Name(rule, _) => RuleConsumes(g, rule, reached)
    case Character(v) => Done(|v| > 0, reached, [])
    case String(v) => Done(|v| > 0, reached, [])
    case Class(_) => Done(true, reached, [])
    case Action(_) => Done(false, reached, [])
    case Predicate(_) => Done(false, reached, [])
    case Inline(_) => Abort([])
    case Error(_, _) => Abort([])
    case Alternate(arms) => AllConsume(g, arms, reached)
    case Sequence(items) => SomeConsumes(g, items, reached)
    case PeekFor(_) => Done(false, reached, [])
    case PeekNot(_) => Done(false, reached, [])
    case Query(_) => Done(false, reached, [])
    case Star(_) => Done(false, reached, [])
    case Plus(x) => Consumes(g, x, reached)
  }

  /** Alternate: every arm must consume; the walk stops at the first arm that need not. */
  function AllConsume(g: Grammar, arms: seq<Expr>, reached: set<string>): (r: Analysis)
    ensures r.Done? ==> r.reached == reached
    decreases |Unmarked(g, reached)|, SizeAll(arms)
  {
    if |arms| == 0 then Done(true, reached, [])
    else
      var a := Consumes(g, arms[0], reached);
      match a
      case Abort(_) => a
      case Done(c, marks, reps) =>
        if !c then a
        else match AllConsume(g, arms[1..], marks)
          case Abort(more) => Abort(reps + more)
          case Done(c', marks', more) => Done(c', marks', reps + more)
  }

  /** Sequence: some member must consume; the walk stops at the first member that does. */
  function SomeConsumes(g: Grammar, items: seq<Expr>, reached: set<string>): (r: Analysis)
    ensures r.Done? ==> r.reached == reached
    decreases |Unmarked(g, reached)|, SizeAll(items)
  {
    if |items| == 0 then Done(false, reached, [])
    else
      var a := Consumes(g, items[0], reached);
      match a
      case Abort(_) => a
      case Done(c, marks, reps) =>
        if c then a
        else match SomeConsumes(g, items[1..], marks)
          case Abort(more) => Abort(reps + more)
          case Done(c', marks', more) => Done(c', marks', reps + more)
  }

  /** The analysis pass of Rule_compile_c: consumesInput on every rule of the list, collecting reports. */
  function AnalyseRules(g: Grammar, order: seq<string>): (r: Analysis)
    ensures r.Done? ==> r.reached == {}
  {
    if |order| == 0 then Done(false, {}, [])
    else
      match RuleConsumes(g, order[0], {})
      case Abort(reps) => Abort(reps)
      case Done(_, _, reps) =>
        match AnalyseRules(g, order[1..])
        case Abort(more) => Abort(reps + more)
        case Done(c, m, more) => Done(c, m, reps + more)
  }

  // ---------------------------------------------------------------------
  // Properties

  /** Answers per node kind, for kinds whose answer does not depend on the grammar. */
  lemma PerKind(g: Grammar, e: Expr, reached: set<string>)
    ensures e.Dot? || e.Class? ==> Consumes(g, e, reached).consumes
    ensures e.Character? || e.String? ==> (Consumes(g, e, reached).consumes <==> |e.value| > 0)
    ensures e.Action? || e.Predicate? || e.PeekFor? || e.PeekNot? || e.Query? || e.Star? ==>
      Consumes(g, e, reached) == Done(false, reached, [])
    ensures e.Inline? || e.Error? ==> Consumes(g, e, reached).Abort?
    ensures e.Plus? ==> Consumes(g, e, reached) == Consumes(g, e.element, reached)
  {
  }

  /** Alternate: true exactly when every arm's answer is true (given the walk completes). */
  lemma {:induction false} AllConsumeMeaning(g: Grammar, arms: seq<Expr>, reached: set<string>)
    requires AllConsume(g, arms, reached).Done?
    ensures AllConsume(g, arms, reached).consumes <==>
      forall i :: 0 <= i < |arms| ==> Consumes(g, arms[i], reached).Done? && Consumes(g, arms[i], reached).consumes
    decreases |arms|
  {
    if |arms| > 0 {
      var a := Consumes(g, arms[0], reached);
      if a.consumes {
        AllConsumeMeaning(g, arms[1..], reached);
        assert forall i :: 1 <= i < |arms| ==> arms[i] == arms[1..][i - 1];
      }
    }
  }

  /** Sequence: true exactly when some member answers true with every earlier member answering false. */
  lemma {:induction false} SomeConsumesMeaning(g: Grammar, items: seq<Expr>, reached: set<string>)
    requires SomeConsumes(g, items, reached).Done?
    ensures SomeConsumes(g, items, reached).consumes <==>
      exists i :: 0 <= i < |items| && Consumes(g, items[i], reached).Done? && Consumes(g, items[i], reached).consumes
    decreases |items|
  {
    if |items| > 0 {
      var a := Consumes(g, items[0], reached);
      if !a.consumes {
        SomeConsumesMeaning(g, items[1..], reached);
        assert forall i :: 1 <= i < |items| ==> items[i] == items[1..][i - 1];
        if exists i :: 0 <= i < |items| && Consumes(g, items[i], reached).Done? && Consumes(g, items[i], reached).consumes {
          var i :| 0 <= i < |items| && Consumes(g, items[i], reached).Done? && Consumes(g, items[i], reached).consumes;
          assert i > 0;
          assert Consumes(g, items[1..][i - 1], reached).consumes;
        }
      } else {
        assert Consumes(g, items[0], reached).consumes;
      }
    }
  }

  /** `A <- A 'x' / 'y'`: the analysis terminates, reports A, and still counts the rule as consuming. */
  lemma LeftRecursionReported()
    ensures var body := Alternate([Sequence([Name("A", None), String(['x' as Byte])]), String(['y' as Byte])]);
            var g := map["A" := Rule("A", 1, [], Some(body), true)];
            RuleConsumes(g, "A", {}) == Done(true, {}, ["A"])
  {
    var x := String(['x' as Byte]);
    var y := String(['y' as Byte]);
    var arm := Sequence([Name("A", None), x]);
    var body := Alternate([arm, y]);
    var g := map["A" := Rule("A", 1, [], Some(body), true)];
    assert RuleConsumes(g, "A", {"A"}) == Done(false, {"A"}, ["A"]);
    assert Consumes(g, Name("A", None), {"A"}) == Done(false, {"A"}, ["A"]);
    assert [Name("A", None), x][1..] == [x];
    assert SomeConsumes(g, [x], {"A"}) == Done(true, {"A"}, []);
    assert SomeConsumes(g, [Name("A", None), x], {"A"}) == Done(true, {"A"}, ["A"]);
    assert [arm, y][1..] == [y];
    assert AllConsume(g, [y], {"A"}) == Done(true, {"A"}, []);
    assert AllConsume(g, [arm, y], {"A"}) == Done(true, {"A"}, ["A"]);
    assert Consumes(g, body, {"A"}) == Done(true, {"A"}, ["A"]);
    assert {"A"} - {"A"} == {};
    assert {} + {"A"} == {"A"};
    assert g["A"].expression.value == body;
  }
}
