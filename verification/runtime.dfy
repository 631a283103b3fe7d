/**
 * The run-time support every generated parser carries: the literal matchers,
 * the thunk log (`yyDo`, `yyText`, `yyDone`), `yyCommit`, `yyAccept` and the
 * value-stack thunks `yyPush`, `yyPop`, `yySet`. The input is the complete
 * buffer `yybuf[0..yylimit]`; refilling from a stream is not modelled.
 */
module Runtime {
  import opened Support
  import CharClass

  /** The function a thunk calls at flush time: a grammar action, or one of the value-stack helpers. */
  datatype Fn = User(name: string) | PushFn | PopFn | SetFn

  /** One log entry `{begin, end, action}`. */
  datatype Thunk = Thunk(action: Fn, begin: int, end: int)

  /**
   * The matching state: `yypos`, the live log `yythunks[0..yythunkpos]`, the
   * marks `yybegin`/`yyend` and the last `yytext` (none of which a save point
   * saves or restores).
   */
  datatype State = State(pos: nat, thunks: seq<Thunk>, begin: int, end: int, text: seq<Byte>)

  /** A span `[begin, end)` that `yyText` may copy out of `buf`. */
  predicate SpanIn(buf: seq<Byte>, begin: int, end: int) {
    end - begin > 0 ==> 0 <= begin && end <= |buf|
  }

  /** An entry `yyDone` can run: it only reads the buffer when `end` is non-zero. */
  predicate ThunkIn(buf: seq<Byte>, t: Thunk) {
    t.end != 0 ==> SpanIn(buf, t.begin, t.end)
  }

  predicate LogIn(buf: seq<Byte>, log: seq<Thunk>) {
    forall i :: 0 <= i < |log| ==> ThunkIn(buf, log[i])
  }

  /** Positions, marks and every logged span lie inside the buffer. */
  predicate Valid(buf: seq<Byte>, st: State) {
    && st.pos <= |buf|
    && 0 <= st.begin <= |buf|
    && 0 <= st.end <= |buf|
    && LogIn(buf, st.thunks)
  }

  /** `yyDo`: append one entry at `yythunkpos`. */
  function Do(st: State, f: Fn, begin: int, end: int): (r: State)
    ensures |r.thunks| == |st.thunks| + 1
    ensures r.thunks[..|st.thunks|] == st.thunks
    ensures r.thunks[|st.thunks|] == Thunk(f, begin, end)
    ensures r.pos == st.pos && r.begin == st.begin && r.end == st.end && r.text == st.text
  {
    st.(thunks := st.thunks + [Thunk(f, begin, end)])
  }

  /** A save point `yyposN, yythunkposN` restored onto the current state: the marks are left alone. */
  function Restore(cur: State, saved: State): (r: State)
    ensures r.pos == saved.pos && r.thunks == saved.thunks
    ensures r.begin == cur.begin && r.end == cur.end && r.text == cur.text
  {
    cur.(pos := saved.pos, thunks := saved.thunks)
  }

  /** Restoring a save point taken before a `yyDo` discards the entry it appended. */
  lemma RestoreUndoesDo(st: State, f: Fn, begin: int, end: int)
    ensures Restore(Do(st, f, begin, end), st) == st
  {
  }

  // ---------------------------------------------------------------------
  // Literal matchers

  /** The outcome of a literal matcher: its return value and the resulting `yypos`. */
  datatype Step = Step(ok: bool, pos: nat)

  /** `yymatchDot`: any byte. */
  function MatchDot(buf: seq<Byte>, pos: nat): (r: Step)
    requires pos <= |buf|
    ensures r.ok <==> pos < |buf|
    ensures r.pos == if r.ok then pos + 1 else pos
  {
    if pos >= |buf| then Step(false, pos) else Step(true, pos + 1)
  }

  /** `yymatchChar`: one given byte. */
  function MatchChar(buf: seq<Byte>, pos: nat, c: Byte): (r: Step)
    requires pos <= |buf|
    ensures r.ok <==> pos < |buf| && buf[pos] == c
    ensures r.pos == if r.ok then pos + 1 else pos
  {
    if pos >= |buf| then Step(false, pos)
    else if buf[pos] == c then Step(true, pos + 1)
    else Step(false, pos)
  }

  /** The input from `pos` is a proper prefix of `lit`: the literal could only match with more input. */
  predicate RunsOut(buf: seq<Byte>, pos: nat, lit: seq<Byte>)
    requires pos <= |buf|
  {
    |buf| - pos < |lit| && buf[pos..] == lit[..|buf| - pos]
  }

  /** A byte that differs from the literal before the end of input rules out running out. */
  lemma DifferingByte(buf: seq<Byte>, pos: nat, lit: seq<Byte>, i: nat)
    requires pos + i < |buf| && i < |lit| && buf[pos + i] != lit[i]
    ensures !RunsOut(buf, pos, lit)
  {
    if |buf| - pos < |lit| {
      assert buf[pos..][i] != lit[..|buf| - pos][i];
    }
  }

  /**
   * The loop of `yymatchString` after `i` bytes of `lit` matched from `start`:
   * a differing byte restores `yysav`, running out of input does not.
   */
  function MatchStringFrom(buf: seq<Byte>, start: nat, lit: seq<Byte>, i: nat): (r: Step)
    requires start + i <= |buf| && i <= |lit|
    requires buf[start..start + i] == lit[..i]
    ensures r.ok <==> start + |lit| <= |buf| && buf[start..start + |lit|] == lit
    ensures r.ok ==> r.pos == start + |lit|
    ensures !r.ok ==> r.pos == if RunsOut(buf, start, lit) then |buf| else start
    decreases |lit| - i
  {
    if i == |lit| then Step(true, start + i)
    else if start + i >= |buf| then
      assert buf[start..] == buf[start..start + i];
      Step(false, start + i)
    else if buf[start + i] != lit[i] then
      assert start + |lit| <= |buf| ==> buf[start..start + |lit|][i] == buf[start + i];
      DifferingByte(buf, start, lit, i);
      Step(false, start)
    else
      assert buf[start..start + i + 1] == buf[start..start + i] + [buf[start + i]];
      assert lit[..i + 1] == lit[..i] + [lit[i]];
      MatchStringFrom(buf, start, lit, i + 1)
  }

  /** `yymatchString`: a whole literal; on a byte mismatch `yypos` is restored, at end of input it is not. */
  function MatchString(buf: seq<Byte>, pos: nat, lit: seq<Byte>): (r: Step)
    requires pos <= |buf|
    ensures r.ok <==> pos + |lit| <= |buf| && buf[pos..pos + |lit|] == lit
    ensures r.ok ==> r.pos == pos + |lit|
    ensures !r.ok ==> r.pos == if RunsOut(buf, pos, lit) then |buf| else pos
  {
    MatchStringFrom(buf, pos, lit, 0)
  }

  /**
   * `yymatchString` as written: the literal reaches it as a C string, so the
   * walk `while (*s)` compares only the bytes before the first NUL.
   */
  function MatchStringAsWritten(buf: seq<Byte>, pos: nat, lit: seq<Byte>): (r: Step)
    requires pos <= |buf|
    ensures var k := |CBytes(lit)|;
      && (r.ok <==> pos + k <= |buf| && buf[pos..pos + k] == lit[..k])
      && (r.ok ==> r.pos == pos + k)
    ensures NulFree(lit) ==> r == MatchString(buf, pos, lit)
  {
    assert NulFree(lit) ==> CBytes(lit) == lit by {
      if NulFree(lit) { CBytesOfNulFree(lit); }
    }
    MatchString(buf, pos, CBytes(lit))
  }

  /** For a one-byte literal the two matchers agree, so choosing `yymatchChar` changes nothing. */
  lemma CharIsOneByteString(buf: seq<Byte>, pos: nat, c: Byte)
    requires pos <= |buf|
    ensures MatchString(buf, pos, [c]) == MatchChar(buf, pos, c)
  {
    var r := MatchString(buf, pos, [c]);
    if pos < |buf| && buf[pos] == c {
      assert buf[pos..pos + 1] == [c];
    }
  }

  /** `yymatchClass`, reading the current byte as an unsigned code (see ClassIndexAsWritten). */
  function MatchClass(buf: seq<Byte>, pos: nat, bits: CharClass.Bitmap): (r: Step)
    requires pos <= |buf|
    ensures r.ok <==> pos < |buf| && CharClass.Test(bits, buf[pos])
    ensures r.pos == if r.ok then pos + 1 else pos
  {
    if pos >= |buf| then Step(false, pos)
    else if CharClass.Test(bits, buf[pos]) then Step(true, pos + 1)
    else Step(false, pos)
  }

  /** `yymatchDot` behaves as the class `[^]`, which accepts every byte. */
  lemma DotIsFullClass(buf: seq<Byte>, pos: nat)
    requires pos <= |buf|
    ensures MatchDot(buf, pos) == MatchClass(buf, pos, CharClass.Make([CharClass.Caret]))
  {
    if pos < |buf| {
      CharClass.EmptyBody(buf[pos]);
    }
  }

  /** A class node accepts the current byte exactly when its text denotes it. */
  lemma MatchClassCorrect(buf: seq<Byte>, pos: nat, text: seq<Byte>)
    requires pos <= |buf|
    ensures MatchClass(buf, pos, CharClass.Make(text)).ok <==> pos < |buf| && CharClass.Accepts(text, buf[pos])
  {
    if pos < |buf| {
    }
  }

  /** The value a plain (signed) `char` holds for a byte. */
  function SignedChar(b: Byte): (c: int)
    ensures -128 <= c < 128
    ensures (c + 256) % 256 == b
  {
    if b < 128 then b else b - 256
  }

  /** The bitmap index `c >> 3` that `yymatchClass` computes from `c = yybuf[yypos]` as written. */
  function ClassIndexAsWritten(b: Byte): (i: int)
    ensures b < 128 ==> i == b / 8
    ensures b >= 128 ==> -16 <= i < 0
  {
    SignedChar(b) / 8
  }

  /** A byte such as 0xC3 (the lead byte of UTF-8 `é`) indexes before the 32-byte bitmap. */
  lemma ClassIndexOutOfRange()
    ensures ClassIndexAsWritten(0xC3) == -8
    ensures forall b: Byte :: b >= 128 ==> !(0 <= ClassIndexAsWritten(b) < 32)
  {
  }

  /** With the byte read unsigned, the index always lies inside the bitmap. */
  lemma ClassIndexInRange(b: Byte)
    ensures 0 <= b / 8 < 32
    ensures b < 128 ==> b / 8 == ClassIndexAsWritten(b)
  {
  }

  // ---------------------------------------------------------------------
  // yyText

  /** The text `yyText(begin, end)` leaves in `yytext`: empty when `end - begin <= 0`. */
  function Text(buf: seq<Byte>, begin: int, end: int): (t: seq<Byte>)
    requires SpanIn(buf, begin, end)
    ensures |t| == if end - begin <= 0 then 0 else end - begin
    ensures end - begin > 0 ==> forall k :: 0 <= k < |t| ==> t[k] == buf[begin + k]
  {
    if end - begin <= 0 then [] else buf[begin..end]
  }

  /** The growth loop of `yyText` as written: it stops once `yytextlen >= yyleng - 1`. */
  function GrowAsWritten(cap: nat, leng: int): (r: nat)
    requires cap > 0
    ensures r >= cap && r >= leng - 1
    ensures cap >= leng - 1 ==> r == cap
    decreases leng - cap
  {
    if cap < leng - 1 then GrowAsWritten(cap * 2, leng) else cap
  }

  /**
   * `memcpy(yytext, yybuf + begin, yyleng)` followed by `yytext[yyleng] = 0`
   * needs `yyleng + 1` bytes; with the initial 1024-byte buffer a 1024-byte
   * span leaves it as it is, one byte short.
   */
  lemma GrowAsWrittenTooSmall()
    ensures GrowAsWritten(1024, 1024) == 1024
    ensures GrowAsWritten(1024, 1025) == 1024
    ensures GrowAsWritten(1024, 1024) < 1024 + 1
  {
  }

  /** The growth the copy needs: double until `yyleng` bytes and the NUL fit. */
  function Grow(cap: nat, leng: int): (r: nat)
    requires cap > 0
    ensures r >= cap && r >= leng + 1
    ensures r > leng
    decreases leng + 1 - cap
  {
    if cap < leng + 1 then Grow(cap * 2, leng) else cap
  }

  /**
   * `yyText` with its buffer: returns the text, its length `yyleng`, and the
   * new `yytextlen`, which always leaves room for the terminating NUL.
   */
  method YyText(buf: seq<Byte>, begin: int, end: int, cap: nat) returns (text: seq<Byte>, leng: nat, cap': nat)
    requires cap > 0
    requires SpanIn(buf, begin, end)
    ensures text == Text(buf, begin, end)
    ensures leng == |text|
    ensures cap' >= cap && cap' > leng
  {
    var n := end - begin;
    cap' := cap;
    if n <= 0 {
      leng := 0;
      text := [];
    } else {
      while cap' < n + 1
        invariant cap' >= cap
        decreases n + 1 - cap'
      {
        cap' := cap' * 2;
      }
      leng := n;
      text := buf[begin..end];
    }
  }

  // ---------------------------------------------------------------------
  // Flushing the log

  /** The `yyleng` a thunk's function receives: the span length, or `begin` itself when `end` is 0. */
  function Leng(t: Thunk): int {
    if t.end != 0 then (if t.end - t.begin <= 0 then 0 else t.end - t.begin) else t.begin
  }

  /** One invocation of a grammar action during the flush. */
  datatype Call = Call(name: string, text: seq<Byte>, leng: int)

  /** The value stack: `yy`, the frame pointer `yyval` (an index into `yyvals`), and the slots. */
  datatype Values<V> = Values(yy: V, frame: int, slots: map<int, V>)

  /** What the flush has done so far: the current `yytext`, the value stack, and the actions invoked. */
  datatype Flush<V> = Flush(text: seq<Byte>, stack: Values<V>, calls: seq<Call>)

  /**
   * One step of `yyDone`: `yyText` only when `end` is non-zero, then the call.
   * A grammar action is opaque: `act` gives the `yy` and the slots it leaves.
   * Its rule's variables are `yyval[offset]` inside it, so it may write them.
   * It cannot move the frame pointer `yyval`, which only `yyPush` and `yyPop` move.
   */
  function RunThunk<V>(buf: seq<Byte>, t: Thunk, f: Flush<V>, act: (Call, Values<V>) -> Values<V>): (r: Flush<V>)
    requires ThunkIn(buf, t)
    ensures r.stack.frame == f.stack.frame + StackEffect([t])
    ensures !t.action.User? ==> r.calls == f.calls && r.stack.yy == f.stack.yy
    ensures t.action.User? ==> r.calls == f.calls + [Call(t.action.name, r.text, Leng(t))]
    ensures t.action.User? ==> var after := act(r.calls[|f.calls|], f.stack);
      r.stack.yy == after.yy && r.stack.slots == after.slots
    ensures t.action.SetFn? ==> r.stack.slots == f.stack.slots[f.stack.frame + Leng(t) := f.stack.yy]
    ensures t.action.PushFn? || t.action.PopFn? ==> r.stack.slots == f.stack.slots
  {
    var text := if t.end != 0 then Text(buf, t.begin, t.end) else f.text;
    var leng := Leng(t);
    var s := f.stack;
    match t.action
    case User(n) =>
      var call := Call(n, text, leng);
      var after := act(call, s);
      Flush(text, after.(frame := s.frame), f.calls + [call])
    case PushFn => Flush(text, s.(frame := s.frame + leng), f.calls)
    case PopFn => Flush(text, s.(frame := s.frame - leng), f.calls)
    case SetFn => Flush(text, s.(slots := s.slots[s.frame + leng := s.yy]), f.calls)
  }

  /** `yyDone`: run the entries of the log in order, each once. */
  function Done<V>(buf: seq<Byte>, log: seq<Thunk>, f: Flush<V>, act: (Call, Values<V>) -> Values<V>): (r: Flush<V>)
    requires LogIn(buf, log)
    ensures |r.calls| == |f.calls| + |UserThunks(log)| && r.calls[..|f.calls|] == f.calls
    decreases |log|
  {
    if |log| == 0 then f else Done(buf, log[1..], RunThunk(buf, log[0], f, act), act)
  }

  /** The grammar-action entries of a log, in log order. */
  function UserThunks(log: seq<Thunk>): (u: seq<Thunk>)
    ensures |u| <= |log|
    ensures forall i :: 0 <= i < |u| ==> u[i].action.User? && u[i] in log
  {
    if |log| == 0 then []
    else (if log[0].action.User? then [log[0]] else []) + UserThunks(log[1..])
  }

  /** A call made for entry `t`: its action, its `yyleng`, and the span's text when `end` is non-zero. */
  predicate CallFor(buf: seq<Byte>, c: Call, t: Thunk)
    requires ThunkIn(buf, t)
  {
    && t.action.User?
    && c.name == t.action.name
    && c.leng == Leng(t)
    && (t.end != 0 ==> c.text == Text(buf, t.begin, t.end))
  }

  /** The net change a log makes to the frame pointer when flushed. */
  function StackEffect(log: seq<Thunk>): int {
    if |log| == 0 then 0
    else
      (match log[0].action
       case PushFn => Leng(log[0])
       case PopFn => -Leng(log[0])
       case _ => 0) + StackEffect(log[1..])
  }

  lemma {:induction false} StackEffectAppend(a: seq<Thunk>, b: seq<Thunk>)
    ensures StackEffect(a + b) == StackEffect(a) + StackEffect(b)
  {
    if |a| > 0 {
      assert (a + b)[1..] == a[1..] + b;
      StackEffectAppend(a[1..], b);
    } else {
      assert a + b == b;
    }
  }

  lemma {:induction false} UserThunksAppend(a: seq<Thunk>, b: seq<Thunk>)
    ensures UserThunks(a + b) == UserThunks(a) + UserThunks(b)
  {
    if |a| > 0 {
      var here := if a[0].action.User? then [a[0]] else [];
      assert (a + b)[0] == a[0] && (a + b)[1..] == a[1..] + b;
      assert UserThunks(a + b) == here + UserThunks(a[1..] + b);
      UserThunksAppend(a[1..], b);
      AppendAssoc(here, UserThunks(a[1..]), UserThunks(b));
    } else {
      assert a + b == b;
    }
  }

  lemma LogInTail(buf: seq<Byte>, log: seq<Thunk>)
    requires LogIn(buf, log) && |log| > 0
    ensures ThunkIn(buf, log[0]) && LogIn(buf, log[1..])
  {
    forall i | 0 <= i < |log[1..]| ensures ThunkIn(buf, log[1..][i]) {
      assert log[1..][i] == log[i + 1];
    }
  }

  /** Flushing moves the frame pointer by the log's net push/pop effect. */
  lemma {:induction false} DoneFrame<V>(buf: seq<Byte>, log: seq<Thunk>, f: Flush<V>, act: (Call, Values<V>) -> Values<V>)
    requires LogIn(buf, log)
    ensures Done(buf, log, f, act).stack.frame == f.stack.frame + StackEffect(log)
    decreases |log|
  {
    if |log| > 0 {
      LogInTail(buf, log);
      DoneFrame(buf, log[1..], RunThunk(buf, log[0], f, act), act);
    }
  }

  /**
   * The calls a flush makes, computed from the log alone: the `yytext` each
   * action sees is its own span when `end` is non-zero and otherwise the text
   * the previous `yyText` left behind.
   */
  function CallsOf(buf: seq<Byte>, log: seq<Thunk>, text: seq<Byte>): seq<Call>
    requires LogIn(buf, log)
    decreases |log|
  {
    if |log| == 0 then []
    else
      LogInTail(buf, log);
      var t := log[0];
      var text' := if t.end != 0 then Text(buf, t.begin, t.end) else text;
      (if t.action.User? then [Call(t.action.name, text', Leng(t))] else []) + CallsOf(buf, log[1..], text')
  }

  lemma RunThunkCalls<V>(buf: seq<Byte>, t: Thunk, f: Flush<V>, act: (Call, Values<V>) -> Values<V>)
    requires ThunkIn(buf, t)
    ensures var text' := if t.end != 0 then Text(buf, t.begin, t.end) else f.text;
      && RunThunk(buf, t, f, act).text == text'
      && RunThunk(buf, t, f, act).calls == f.calls + (if t.action.User? then [Call(t.action.name, text', Leng(t))] else [])
  {
  }

  /** One step of `Done`: run the first entry, then the rest. */
  lemma DoneCons<V>(buf: seq<Byte>, log: seq<Thunk>, f: Flush<V>, act: (Call, Values<V>) -> Values<V>)
    requires LogIn(buf, log) && |log| > 0
    ensures ThunkIn(buf, log[0]) && LogIn(buf, log[1..])
    ensures Done(buf, log, f, act).calls == Done(buf, log[1..], RunThunk(buf, log[0], f, act), act).calls
  {
    LogInTail(buf, log);
  }

  lemma AppendAssoc<T>(a: seq<T>, b: seq<T>, c: seq<T>)
    ensures (a + b) + c == a + (b + c)
  {
  }

  /** One step of `CallsOf`: the first entry's call, if it is an action, then the rest with the updated text. */
  lemma CallsOfCons(buf: seq<Byte>, log: seq<Thunk>, text: seq<Byte>)
    requires LogIn(buf, log) && |log| > 0
    ensures ThunkIn(buf, log[0]) && LogIn(buf, log[1..])
    ensures var t := log[0];
      var text' := if t.end != 0 then Text(buf, t.begin, t.end) else text;
      CallsOf(buf, log, text) == (if t.action.User? then [Call(t.action.name, text', Leng(t))] else []) + CallsOf(buf, log[1..], text')
  {
    LogInTail(buf, log);
  }

  /** What the grammar actions compute cannot change which actions are called, or with what. */
  lemma {:induction false} DoneCalls<V>(buf: seq<Byte>, log: seq<Thunk>, f: Flush<V>, act: (Call, Values<V>) -> Values<V>)
    requires LogIn(buf, log)
    ensures Done(buf, log, f, act).calls == f.calls + CallsOf(buf, log, f.text)
    decreases |log|
  {
    if |log| > 0 {
      CallsOfCons(buf, log, f.text);
      var t := log[0];
      var f' := RunThunk(buf, t, f, act);
      DoneCons(buf, log, f, act);
      RunThunkCalls(buf, t, f, act);
      DoneCalls(buf, log[1..], f', act);
      var text' := if t.end != 0 then Text(buf, t.begin, t.end) else f.text;
      var here := if t.action.User? then [Call(t.action.name, text', Leng(t))] else [];
      AppendAssoc(f.calls, here, CallsOf(buf, log[1..], text'));
    }
  }

  /** The calls are the log's action entries, in order, each once, with the right length and text. */
  lemma {:induction false} CallsOfFollowLog(buf: seq<Byte>, log: seq<Thunk>, text: seq<Byte>)
    requires LogIn(buf, log)
    ensures CallsMatch(buf, CallsOf(buf, log, text), UserThunks(log))
    decreases |log|
  {
    if |log| > 0 {
      CallsOfCons(buf, log, text);
      var t := log[0];
      var text' := if t.end != 0 then Text(buf, t.begin, t.end) else text;
      CallsOfFollowLog(buf, log[1..], text');
      var here := if t.action.User? then [t] else [];
      var calls := if t.action.User? then [Call(t.action.name, text', Leng(t))] else [];
      assert CallsMatch(buf, calls, here);
      CallsMatchAppend(buf, calls, here, CallsOf(buf, log[1..], text'), UserThunks(log[1..]));
    }
  }

  /** Calls and entries correspond one to one, in order. */
  predicate CallsMatch(buf: seq<Byte>, calls: seq<Call>, entries: seq<Thunk>) {
    && |calls| == |entries|
    && forall i :: 0 <= i < |entries| ==> ThunkIn(buf, entries[i]) && CallFor(buf, calls[i], entries[i])
  }

  lemma CallsMatchAppend(buf: seq<Byte>, c1: seq<Call>, e1: seq<Thunk>, c2: seq<Call>, e2: seq<Thunk>)
    requires CallsMatch(buf, c1, e1) && CallsMatch(buf, c2, e2)
    ensures CallsMatch(buf, c1 + c2, e1 + e2)
  {
    forall i | 0 <= i < |e1 + e2|
      ensures ThunkIn(buf, (e1 + e2)[i]) && CallFor(buf, (c1 + c2)[i], (e1 + e2)[i])
    {
      if i >= |e1| {
        assert (e1 + e2)[i] == e2[i - |e1|] && (c1 + c2)[i] == c2[i - |e1|];
      }
    }
  }

  /**
   * `yyDone` invokes exactly the grammar actions of the log, in log order,
   * once each, passing `begin` as the length when `end` is 0, and the span's
   * text otherwise.
   */
  lemma DoneRunsLog<V>(buf: seq<Byte>, log: seq<Thunk>, f: Flush<V>, act: (Call, Values<V>) -> Values<V>)
    requires LogIn(buf, log)
    ensures |Done(buf, log, f, act).calls| == |f.calls| + |UserThunks(log)|
    ensures Done(buf, log, f, act).calls[..|f.calls|] == f.calls
    ensures forall i :: 0 <= i < |UserThunks(log)| ==>
      ThunkIn(buf, UserThunks(log)[i]) && CallFor(buf, Done(buf, log, f, act).calls[|f.calls| + i], UserThunks(log)[i])
  {
    DoneCalls(buf, log, f, act);
    CallsOfFollowLog(buf, log, f.text);
  }

  // ---------------------------------------------------------------------
  // Commit and accept

  /** The parser context between top-level parses: buffer, positions, log, `yytext` and value stack. */
  datatype Context<V> = Context(buf: seq<Byte>, pos: nat, begin: int, end: int,
                                log: seq<Thunk>, text: seq<Byte>, stack: Values<V>)

  /** `yyCommit`: drop the consumed bytes, rebase the marks, empty the log. */
  function Commit<V>(c: Context<V>): (r: Context<V>)
    requires c.pos <= |c.buf|
    ensures r.buf == c.buf[c.pos..]
    ensures r.pos == 0 && r.log == []
    ensures r.begin == c.begin - c.pos && r.end == c.end - c.pos
    ensures r.text == c.text && r.stack == c.stack
  {
    Context(c.buf[c.pos..], 0, c.begin - c.pos, c.end - c.pos, [], c.text, c.stack)
  }

  /** A second commit finds nothing consumed and changes nothing. */
  lemma CommitIdempotent<V>(c: Context<V>)
    requires c.pos <= |c.buf|
    ensures Commit(Commit(c)) == Commit(c)
  {
    assert c.buf[c.pos..][0..] == c.buf[c.pos..];
  }

  /**
   * `yyAccept(tp0)`: refused unless the log is empty below the caller's save
   * point; otherwise `yyDone` then `yyCommit`. Returns the verdict, the new
   * context and the action calls the flush made.
   */
  function Accept<V>(c: Context<V>, tp0: int, act: (Call, Values<V>) -> Values<V>): (r: (bool, Context<V>, seq<Call>))
    requires c.pos <= |c.buf| && LogIn(c.buf, c.log)
    ensures r.0 <==> tp0 == 0
    ensures !r.0 ==> r.1 == c && r.2 == []
    ensures r.0 ==> CallsMatch(c.buf, r.2, UserThunks(c.log))
    ensures r.0 ==> r.1.stack.frame == c.stack.frame + StackEffect(c.log)
    ensures r.0 ==> r.1.buf == c.buf[c.pos..] && r.1.pos == 0 && r.1.log == []
  {
    if tp0 != 0 then (false, c, [])
    else
      var f := Done(c.buf, c.log, Flush(c.text, c.stack, []), act);
      DoneRunsLog(c.buf, c.log, Flush(c.text, c.stack, []), act);
      DoneFrame(c.buf, c.log, Flush(c.text, c.stack, []), act);
      (true, Commit(c.(log := [], text := f.text, stack := f.stack)), f.calls)
  }
}
