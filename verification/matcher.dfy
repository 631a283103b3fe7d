/**
 * What the code peg generates does when it runs, with literals and classes
 * matched by the corrected `Literal` and `MatchClass`. Each node compiles to code
 * that falls through on success and jumps to a failure label `ko` on failure;
 * here a node maps a state to `Ok` (fall through) or `Fail` (the state at the
 * jump). Save points `(yypos, yythunkpos)` are restored exactly where the
 * generated code restores them. `fuel` bounds the depth of the computation:
 * `OutOfFuel` stands for a run that has not finished within that bound.
 */
module Matcher {
  import opened Support
  import opened Grammar
  import opened Runtime
  import CharClass

  datatype Outcome = Ok(st: State) | Fail(st: State) | OutOfFuel

  /**
   * The predicate texts that are the preamble's `YY_BEGIN` and `YY_END`
   * macros. Like every predicate they run after `yyText(yybegin, yyend)`.
   */
  const BeginMark: string := "YY_BEGIN"
  const EndMark: string := "YY_END"

  /** A predicate's C code, evaluated against the current `yytext`; foreign to the model. */
  type Oracle = (string, seq<Byte>) -> bool

  predicate IsPrefix<T(==)>(a: seq<T>, b: seq<T>) {
    |a| <= |b| && b[..|a|] == a
  }

  /** What every outcome keeps: a valid state, no move backwards, and the log below the entry length untouched. */
  predicate Progress(buf: seq<Byte>, st: State, r: Outcome) {
    (r.Ok? || r.Fail?) ==> Valid(buf, r.st) && r.st.pos >= st.pos && IsPrefix(st.thunks, r.st.thunks)
  }

  /** An expression the generated parser can run: its nodes compile and its names link. */
  predicate Ready(g: Grammar, e: Expr) {
    Runnable(g) && Compilable(e) && Closed(g, e)
  }

  predicate AllReady(g: Grammar, es: seq<Expr>) {
    Runnable(g) && forall i :: 0 <= i < |es| ==> Compilable(es[i]) && Closed(g, es[i])
  }

  lemma RuleReady(g: Grammar, name: string)
    requires Runnable(g) && Defined(g, name)
    ensures Ready(g, g[name].expression.value)
  {
  }

  /** `Node_compile_c_ko`: the behaviour of the code generated for `e`. */
  function Match(g: Grammar, p: Oracle, e: Expr, buf: seq<Byte>, st: State, fuel: nat): (r: Outcome)
    requires Ready(g, e) && Valid(buf, st)
    ensures Progress(buf, st, r)
    decreases fuel, 1
  {
    if fuel == 0 then OutOfFuel
    else match e
      case Dot =>
        var m := MatchDot(buf, st.pos);
        if m.ok then Ok(st.(pos := m.pos)) else Fail(st.(pos := m.pos))
      case Name(rule, variable) =>
        (match RuleCall(g, p, rule, buf, st, fuel - 1)
         case Ok(s) => Ok(if variable.Some? then Do(s, SetFn, Offset(variable.value), 0) else s)
         case Fail(s) => Fail(s)
         case OutOfFuel => OutOfFuel)
      case Character(v) => Literal(buf, st, v)
      case String(v) => Literal(buf, st, v)
      case Class(text) =>
        var m := MatchClass(buf, st.pos, CharClass.Make(text));
        if m.ok then Ok(st.(pos := m.pos)) else Fail(st.(pos := m.pos))
      case Action(name) => Ok(Do(st, User(name), st.begin, st.end))
      case Predicate(code) =>
        var st' := st.(text := Text(buf, st.begin, st.end));
        if code == BeginMark then Ok(st'.(begin := st.pos))
        else if code == EndMark then Ok(st'.(end := st.pos))
        else if p(code, st'.text) then Ok(st') else Fail(st')
      case Alternate(arms) => MatchAlt(g, p, arms, buf, st, st, fuel - 1)
      case Sequence(items) => MatchSeq(g, p, items, buf, st, fuel - 1)
      case PeekFor(x) =>
        (match Match(g, p, x, buf, st, fuel - 1)
         case Ok(s) => Ok(Restore(s, st))
         case Fail(s) => Fail(s)
         case OutOfFuel => OutOfFuel)
      case PeekNot(x) =>
        (match Match(g, p, x, buf, st, fuel - 1)
         case Ok(s) => Fail(s)
         case Fail(s) => Ok(Restore(s, st))
         case OutOfFuel => OutOfFuel)
      case Query(x) =>
        (match Match(g, p, x, buf, st, fuel - 1)
         case Ok(s) => Ok(s)
         case Fail(s) => Ok(Restore(s, st))
         case OutOfFuel => OutOfFuel)
      case Star(x) => StarLoop(g, p, x, buf, st, fuel - 1)
      case Plus(x) =>
        (match Match(g, p, x, buf, st, fuel - 1)
         case Ok(s) => StarLoop(g, p, x, buf, s, fuel - 1)
         case Fail(s) => Fail(s)
         case OutOfFuel => OutOfFuel)
      case Inline(_) => assert false; OutOfFuel
      case Error(_, _) => assert false; OutOfFuel
  }

  /** A Character or String node: `yymatchChar` for one byte, `yymatchString` otherwise. */
  function Literal(buf: seq<Byte>, st: State, v: seq<Byte>): (r: Outcome)
    requires Valid(buf, st)
    ensures Progress(buf, st, r)
    ensures r.Ok? <==> st.pos + |v| <= |buf| && buf[st.pos..st.pos + |v|] == v
    ensures r.Ok? ==> r.st == st.(pos := st.pos + |v|)
  {
    var m := if |v| == 1 then MatchChar(buf, st.pos, v[0]) else MatchString(buf, st.pos, v);
    assert |v| == 1 ==> m == MatchString(buf, st.pos, v) by {
      if |v| == 1 {
        assert v == [v[0]];
        CharIsOneByteString(buf, st.pos, v[0]);
      }
    }
    if m.ok then Ok(st.(pos := m.pos)) else Fail(st.(pos := m.pos))
  }

  /**
   * A Character or String node as generated. `single` is the generator's
   * test on the raw text (one character, or a backslash and one more): then
   * `yymatchChar`, otherwise `yymatchString`, which compares the decoded
   * bytes only up to their first NUL. Literals without a NUL behave as `Literal`.
   */
  function LiteralAsWritten(buf: seq<Byte>, st: State, v: seq<Byte>, single: bool): (r: Outcome)
    requires Valid(buf, st) && (single ==> |v| == 1)
    ensures Progress(buf, st, r)
    ensures !single && |v| > 0 && v[0] == 0 ==> r == Ok(st)
    ensures NulFree(v) ==> r == Literal(buf, st, v)
  {
    var m := if single then MatchChar(buf, st.pos, v[0]) else MatchStringAsWritten(buf, st.pos, v);
    assert NulFree(v) && |v| == 1 ==> m == MatchChar(buf, st.pos, v[0]) by {
      if NulFree(v) && |v| == 1 {
        assert v == [v[0]];
        CharIsOneByteString(buf, st.pos, v[0]);
      }
    }
    assert !single && |v| > 0 && v[0] == 0 ==> m == Step(true, st.pos) by {
      if !single && |v| > 0 && v[0] == 0 {
        assert CBytes(v) == [];
      }
    }
    if m.ok then Ok(st.(pos := m.pos)) else Fail(st.(pos := m.pos))
  }

  /**
   * The arms of an Alternate from the one that starts at `cur`: `saved` is the
   * save point taken on entry, restored before every later arm; the last arm
   * fails straight to the Alternate's own `ko`.
   */
  function MatchAlt(g: Grammar, p: Oracle, arms: seq<Expr>, buf: seq<Byte>, saved: State, cur: State, fuel: nat): (r: Outcome)
    requires AllReady(g, arms) && Valid(buf, cur) && Valid(buf, saved)
    requires cur.pos == saved.pos && cur.thunks == saved.thunks
    ensures Progress(buf, cur, r)
    decreases fuel, 0
  {
    if fuel == 0 then OutOfFuel
    else if |arms| == 0 then Ok(cur)
    else if |arms| == 1 then Match(g, p, arms[0], buf, cur, fuel - 1)
    else match Match(g, p, arms[0], buf, cur, fuel - 1)
      case Ok(s) => Ok(s)
      case Fail(s) => MatchAlt(g, p, arms[1..], buf, saved, Restore(s, saved), fuel - 1)
      case OutOfFuel => OutOfFuel
  }

  /** The members of a Sequence: each falls through to the next, the first failure jumps to `ko`. */
  function MatchSeq(g: Grammar, p: Oracle, items: seq<Expr>, buf: seq<Byte>, st: State, fuel: nat): (r: Outcome)
    requires AllReady(g, items) && Valid(buf, st)
    ensures Progress(buf, st, r)
    decreases fuel, 0
  {
    if fuel == 0 then OutOfFuel
    else if |items| == 0 then Ok(st)
    else match Match(g, p, items[0], buf, st, fuel - 1)
      case Ok(s) => MatchSeq(g, p, items[1..], buf, s, fuel - 1)
      case Fail(s) => Fail(s)
      case OutOfFuel => OutOfFuel
  }

  /** The loop `again: save; element; goto again; out: restore` of Star (and of Plus after its first match). */
  function StarLoop(g: Grammar, p: Oracle, x: Expr, buf: seq<Byte>, st: State, fuel: nat): (r: Outcome)
    requires Ready(g, x) && Valid(buf, st)
    ensures Progress(buf, st, r)
    decreases fuel, 0
  {
    if fuel == 0 then OutOfFuel
    else match Match(g, p, x, buf, st, fuel - 1)
      case Ok(s) => StarLoop(g, p, x, buf, s, fuel - 1)
      case Fail(s) => Ok(Restore(s, st))
      case OutOfFuel => OutOfFuel
  }

  /** Whether a rule's root can never fail, so its wrapper has no save point and no failure path. */
  predicate Safe(body: Expr) {
    body.Query? || body.Star?
  }

  /**
   * `Rule_compile_c2`: the function `yy_<name>`. Unless the root is safe it
   * saves `(yypos, yythunkpos)` and restores them on failure; with variables it
   * logs `yyPush n` before the body and `yyPop n` after it.
   */
  function RuleCall(g: Grammar, p: Oracle, name: string, buf: seq<Byte>, st: State, fuel: nat): (r: Outcome)
    requires Runnable(g) && Defined(g, name) && Valid(buf, st)
    ensures Progress(buf, st, r)
    decreases fuel, 0
  {
    if fuel == 0 then OutOfFuel
    else
      var rule := g[name];
      var body := rule.expression.value;
      var n := |rule.variables|;
      var entry := if n > 0 then Do(st, PushFn, n, 0) else st;
      RuleReady(g, name);
      match Match(g, p, body, buf, entry, fuel - 1)
      case Ok(s) => Ok(if n > 0 then Do(s, PopFn, n, 0) else s)
      case Fail(s) => if Safe(body) then Fail(s) else Fail(Restore(s, st))
      case OutOfFuel => OutOfFuel
  }
}
