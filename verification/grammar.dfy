/**
 * The grammar tree peg builds from a grammar file: one variant per node kind
 * of `Node` (Rule and Variable become the `Rule` record and its variable list).
 * A Name refers to its rule by name and to its bound variable by position in
 * the enclosing rule's variable list; literals are already-decoded bytes.
 */
module Grammar {
  import opened Support

  datatype Expr =
    | Name(rule: string, variable: Option<nat>)
    | Dot
    | Character(value: seq<Byte>)
    | String(value: seq<Byte>)
    | Class(text: seq<Byte>)
    | Action(name: string)
    | Inline(code: string)
    | Predicate(code: string)
    | Error(element: Expr, code: string)
    | Alternate(arms: seq<Expr>)
    | Sequence(items: seq<Expr>)
    | PeekFor(element: Expr)
    | PeekNot(element: Expr)
    | Query(element: Expr)
    | Star(element: Expr)
    | Plus(element: Expr)

  /** A rule: its variables in list order, its expression (None while only referenced), and the RuleUsed flag. */
  datatype Rule = Rule(name: string, id: nat, variables: seq<string>, expression: Option<Expr>, used: bool)

  /** The rule table; a name with no entry behaves like a rule that was referenced but never defined. */
  type Grammar = map<string, Rule>

  predicate Defined(g: Grammar, n: string) {
    n in g && g[n].expression.Some?
  }

  /** The node kinds the 0.1.4 generator knows (Inline and Error reach its default branch). */
  predicate Compilable(e: Expr) {
    match e
    case Inline(_) => false
    case Error(_, _) => false
    case Alternate(arms) => forall i :: 0 <= i < |arms| ==> Compilable(arms[i])
    case Sequence(items) => forall i :: 0 <= i < |items| ==> Compilable(items[i])
    case PeekFor(x) => Compilable(x)
    case PeekNot(x) => Compilable(x)
    case Query(x) => Compilable(x)
    case Star(x) => Compilable(x)
    case Plus(x) => Compilable(x)
    case _ => true
  }

  /** Every Name refers to a defined rule (the generated `yy_<name>` exists). */
  predicate Closed(g: Grammar, e: Expr) {
    match e
    case Name(r, _) => Defined(g, r)
    case Error(x, _) => Closed(g, x)
    case Alternate(arms) => forall i :: 0 <= i < |arms| ==> Closed(g, arms[i])
    case Sequence(items) => forall i :: 0 <= i < |items| ==> Closed(g, items[i])
    case PeekFor(x) => Closed(g, x)
    case PeekNot(x) => Closed(g, x)
    case Query(x) => Closed(g, x)
    case Star(x) => Closed(g, x)
    case Plus(x) => Closed(g, x)
    case _ => true
  }

  /**
   * A grammar whose generated parser exists and links: every defined rule
   * compiles, and every name it uses is a defined rule.
   */
  predicate Runnable(g: Grammar) {
    forall n :: n in g && g[n].expression.Some? ==>
      Compilable(g[n].expression.value) && Closed(g, g[n].expression.value)
  }

  /** The builder's shape guarantee: an Alternate is made from its first arm, so it is never empty. */
  predicate NoEmptyAlternate(e: Expr) {
    match e
    case Alternate(arms) => |arms| > 0 && forall i :: 0 <= i < |arms| ==> NoEmptyAlternate(arms[i])
    case Sequence(items) => forall i :: 0 <= i < |items| ==> NoEmptyAlternate(items[i])
    case Error(x, _) => NoEmptyAlternate(x)
    case PeekFor(x) => NoEmptyAlternate(x)
    case PeekNot(x) => NoEmptyAlternate(x)
    case Query(x) => NoEmptyAlternate(x)
    case Star(x) => NoEmptyAlternate(x)
    case Plus(x) => NoEmptyAlternate(x)
    case _ => true
  }

  predicate WellShaped(g: Grammar) {
    forall n :: n in g && g[n].expression.Some? ==> NoEmptyAlternate(g[n].expression.value)
  }

  // ---------------------------------------------------------------------
  // Variables

  /** `countVariables`: walks the variable list and counts it. */
  method CountVariables(vars: seq<string>) returns (count: nat)
    ensures count == |vars|
  {
    count := 0;
    var rest := vars;
    while rest != []
      invariant count + |rest| == |vars|
      decreases |rest|
    {
      count := count + 1;
      rest := rest[1..];
    }
  }

  /** The value-stack offset of the variable at position `i` of its rule's list. */
  function Offset(i: nat): int {
    -(i + 1)
  }

  /** `defineVariables`: hands out offsets -1, -2, ... in list order. */
  method DefineVariables(vars: seq<string>) returns (offsets: seq<int>)
    ensures |offsets| == |vars|
    ensures forall i :: 0 <= i < |vars| ==> offsets[i] == -(i + 1)
    ensures forall i :: 0 <= i < |vars| ==> -|vars| <= offsets[i] <= -1
    ensures forall i, j :: 0 <= i < j < |vars| ==> offsets[i] != offsets[j]
  {
    var count := 0;
    offsets := [];
    while count < |vars|
      invariant 0 <= count <= |vars|
      invariant |offsets| == count
      invariant forall i :: 0 <= i < count ==> offsets[i] == -(i + 1)
    {
      count := count + 1;
      offsets := offsets + [-count];
    }
  }

  lemma OffsetAgrees(vars: seq<string>, offsets: seq<int>, i: nat)
    requires |offsets| == |vars| && forall k :: 0 <= k < |vars| ==> offsets[k] == -(k + 1)
    requires i < |vars|
    ensures Offset(i) == offsets[i]
  {
  }

  // ---------------------------------------------------------------------
  // Generator diagnostics (Rule_compile_c2)

  datatype Diagnostic = UsedNotDefined(rule: string) | DefinedNotUsed(rule: string)

  /** The diagnostics for one rule of the rule list. */
  function RuleDiagnostics(g: Grammar, n: string, start: string): seq<Diagnostic> {
    if !Defined(g, n) then [UsedNotDefined(n)]
    else if !g[n].used && n != start then [DefinedNotUsed(n)]
    else []
  }

  /** Walks the rule list `order`, reporting undefined and unused rules; neither stops generation. */
  function Diagnose(g: Grammar, order: seq<string>, start: string): (r: seq<Diagnostic>)
    ensures forall n :: UsedNotDefined(n) in r <==> n in order && !Defined(g, n)
    ensures forall n :: DefinedNotUsed(n) in r <==> n in order && Defined(g, n) && !g[n].used && n != start
  {
    if |order| == 0 then []
    else RuleDiagnostics(g, order[0], start) + Diagnose(g, order[1..], start)
  }

  /** What generation does with the rule list: the diagnostics, or the fatal stop at an illegal node. */
  datatype Generation = Generated(diagnostics: seq<Diagnostic>) | Fatal(rule: string, before: seq<Diagnostic>)

  function Generate(g: Grammar, order: seq<string>, start: string): (r: Generation)
    ensures r.Generated? <==> forall n :: n in order && Defined(g, n) ==> Compilable(g[n].expression.value)
    ensures r.Generated? ==> r.diagnostics == Diagnose(g, order, start)
    ensures r.Fatal? ==> r.rule in order && Defined(g, r.rule) && !Compilable(g[r.rule].expression.value)
  {
    if |order| == 0 then Generated([])
    else
      var n := order[0];
      var here := RuleDiagnostics(g, n, start);
      if Defined(g, n) && !Compilable(g[n].expression.value) then Fatal(n, here)
      else match Generate(g, order[1..], start)
        case Generated(ds) => Generated(here + ds)
        case Fatal(m, ds) => Fatal(m, here + ds)
  }
}
