/**
 * The character-class compiler of peg: class text such as `^a-z\n_` becomes a
 * 256-bit bitmap, 32 bytes of 8 bits, tested at run time by
 * `bits[c >> 3] & (1 << (c & 7))`.
 */
module CharClass {
  import opened Support

  /** The 32-byte bitmap of a compiled class. */
  type Bitmap = b: seq<bv8> | |b| == 32 witness Empty()

  function Empty(): (b: seq<bv8>)
    ensures |b| == 32
  {
    seq(32, _ => 0 as bv8)
  }

  function Full(): (b: seq<bv8>)
    ensures |b| == 32
  {
    seq(32, _ => 0xff as bv8)
  }

  /** The mask `1 << (c & 7)` selecting the bit of code `c` in its byte. */
  function Mask(c: Byte): bv8 {
    Masks[c % 8]
  }

  /** The eight single-bit masks, `Masks[i] == 1 << i`. */
  const Masks: seq<bv8> := [0x01, 0x02, 0x04, 0x08, 0x10, 0x20, 0x40, 0x80]

  lemma MaskIsShift(c: Byte)
    ensures Mask(c) == (1 as bv8) << (c % 8)
  {
    var i := c % 8;
    if i == 0 {} else if i == 1 {} else if i == 2 {} else if i == 3 {}
    else if i == 4 {} else if i == 5 {} else if i == 6 {} else {}
  }

  /** The run-time membership test `bits[c >> 3] & (1 << (c & 7))`. */
  predicate Test(bits: Bitmap, c: Byte) {
    bits[c / 8] & Mask(c) != 0
  }

  /** `charClassSet`: turn on the bit of `c`. */
  function SetBit(bits: Bitmap, c: Byte): (r: Bitmap)
    ensures forall d: Byte :: Test(r, d) <==> d == c || Test(bits, d)
  {
    SetTests(bits, c);
    bits[c / 8 := bits[c / 8] | Mask(c)]
  }

  /** `charClassClear`: turn off the bit of `c`. */
  function ClearBit(bits: Bitmap, c: Byte): (r: Bitmap)
    ensures forall d: Byte :: Test(r, d) <==> d != c && Test(bits, d)
  {
    ClearTests(bits, c);
    bits[c / 8 := bits[c / 8] & !Mask(c)]
  }

  lemma SetTests(bits: Bitmap, c: Byte)
    ensures forall d: Byte :: Test(bits[c / 8 := bits[c / 8] | Mask(c)], d) <==> d == c || Test(bits, d)
  {
    var r := bits[c / 8 := bits[c / 8] | Mask(c)];
    forall d: Byte ensures Test(r, d) <==> d == c || Test(bits, d) {
      if d / 8 == c / 8 {
        if d == c {
          NonZeroMask(c % 8);
          OrSets(bits[c / 8], Mask(c));
        } else {
          DistinctMasks(c % 8, d % 8);
          OrKeeps(bits[c / 8], Mask(c), Mask(d));
        }
      }
    }
  }

  lemma ClearTests(bits: Bitmap, c: Byte)
    ensures forall d: Byte :: Test(bits[c / 8 := bits[c / 8] & !Mask(c)], d) <==> d != c && Test(bits, d)
  {
    var r := bits[c / 8 := bits[c / 8] & !Mask(c)];
    forall d: Byte ensures Test(r, d) <==> d != c && Test(bits, d) {
      ClearTest(bits, c, d);
    }
  }

  lemma ClearTest(bits: Bitmap, c: Byte, d: Byte)
    ensures Test(bits[c / 8 := bits[c / 8] & !Mask(c)], d) <==> d != c && Test(bits, d)
  {
    if d / 8 == c / 8 && d != c {
      SameByteBits(c, d);
      DistinctMasks(c % 8, d % 8);
      AndNotKeeps(bits[c / 8], Mask(c), Mask(d));
    } else if d == c {
      AndNotClears(bits[c / 8], Mask(c));
    }
  }

  /** Two distinct codes stored in the same byte sit at different bit positions. */
  lemma SameByteBits(c: Byte, d: Byte)
    requires c / 8 == d / 8 && c != d
    ensures c % 8 != d % 8
  {
  }

  lemma OrSets(b: bv8, m: bv8)
    requires m != 0
    ensures (b | m) & m != 0
  {
  }

  lemma OrKeeps(b: bv8, m: bv8, n: bv8)
    requires m & n == 0
    ensures (b | m) & n == b & n
  {
  }

  lemma AndNotClears(b: bv8, m: bv8)
    ensures (b & !m) & m == 0
  {
  }

  lemma AndNotKeeps(b: bv8, m: bv8, n: bv8)
    requires m & n == 0
    ensures (b & !m) & n == b & n
  {
  }

  /** Bit-level facts behind SetBit and ClearBit: two codes of one byte share a mask only if equal. */
  lemma MaskFacts()
    ensures forall c: Byte, d: Byte :: c / 8 == d / 8 && c != d ==> Mask(c) & Mask(d) == 0
    ensures forall c: Byte :: Mask(c) != 0
  {
    forall c: Byte, d: Byte | c / 8 == d / 8 && c != d
      ensures Mask(c) & Mask(d) == 0
    {
      assert c % 8 != d % 8;
      DistinctMasks(c % 8, d % 8);
    }
    forall c: Byte
      ensures Mask(c) != 0
    {
      NonZeroMask(c % 8);
    }
  }

  lemma DistinctMasks(i: nat, j: nat)
    requires i < 8 && j < 8 && i != j
    ensures Masks[i] & Masks[j] == 0
  {
    if i == 0 {} else if i == 1 {} else if i == 2 {} else if i == 3 {}
    else if i == 4 {} else if i == 5 {} else if i == 6 {} else {}
  }

  lemma NonZeroMask(i: nat)
    requires i < 8
    ensures Masks[i] != 0
  {
  }

  /** The escape table of a class body: `\a \b \e \f \n \r \t \v`; any other character stands for itself. */
  function Unescape(c: Byte): (r: Byte)
    ensures (c as char) !in "abefnrtv" ==> r == c
    ensures (c as char) in "abefnrtv" ==> r < 32
  {
    if c == 'a' as Byte then 7
    else if c == 'b' as Byte then 8
    else if c == 'e' as Byte then 27
    else if c == 'f' as Byte then 12
    else if c == 'n' as Byte then 10
    else if c == 'r' as Byte then 13
    else if c == 't' as Byte then 9
    else if c == 'v' as Byte then 11
    else c
  }

  const Dash: Byte := '-' as Byte
  const Backslash: Byte := '\\' as Byte
  const Caret: Byte := '^' as Byte

  // ---------------------------------------------------------------------
  // The compiler, following the loop of makeCharClass

  /** The inner `for (c = *cclass++; prev <= c; ++prev) set(bits, prev)` of a range. */
  function ApplyRange(bits: Bitmap, lo: int, hi: Byte, clear: bool): (r: Bitmap)
    requires 0 <= lo
    ensures forall d: Byte :: Test(r, d) <==>
      if clear then Test(bits, d) && !(lo <= d <= hi) else Test(bits, d) || lo <= d <= hi
    decreases hi - lo
  {
    if lo <= hi then
      var b := if clear then ClearBit(bits, lo) else SetBit(bits, lo);
      ApplyRange(b, lo + 1, hi, clear)
    else bits
  }

  /**
   * The body loop: `prev` is the last code set (or -1 at the start and right
   * after a range); `clear` selects charClassClear (negated class).
   */
  function ApplyBody(body: seq<Byte>, prev: int, bits: Bitmap, clear: bool): Bitmap
    requires -1 <= prev < 256
    decreases |body|
  {
    if |body| == 0 then bits
    else if body[0] == Dash && |body| > 1 && prev >= 0 then
      ApplyBody(body[2..], -1, ApplyRange(bits, prev, body[1], clear), clear)
    else if body[0] == Backslash && |body| > 1 then
      var c := Unescape(body[1]);
      ApplyBody(body[2..], c, if clear then ClearBit(bits, c) else SetBit(bits, c), clear)
    else
      ApplyBody(body[1..], body[0], if clear then ClearBit(bits, body[0]) else SetBit(bits, body[0]), clear)
  }

  /**
   * `makeCharClass`: a leading `^` starts from all bits set and clears the
   * listed members. The bitmap accepts exactly the codes the class text denotes.
   */
  function Make(text: seq<Byte>): (r: Bitmap)
    ensures forall c: Byte :: Test(r, c) <==> Accepts(text, c)
  {
    var negated := |text| > 0 && text[0] == Caret;
    var r := if negated then ApplyBody(text[1..], -1, Full(), true) else ApplyBody(text, -1, Empty(), false);
    assert forall c: Byte :: Test(r, c) <==> Accepts(text, c) by {
      forall c: Byte ensures Test(r, c) <==> Accepts(text, c) {
        if negated {
          ApplyBodyDenotes(text[1..], -1, Full(), true, c);
          FullTests(c);
        } else {
          ApplyBodyDenotes(text, -1, Empty(), false, c);
          EmptyTests(c);
        }
      }
    }
    r
  }

  // ---------------------------------------------------------------------
  // The meaning of a class body, independently of bitmaps

  /** One member description: a single code, or an inclusive range. */
  datatype Item = Single(code: Byte) | Span(lo: Byte, hi: Byte)

  /** Splits a class body into items; `prev` is the code a following `-` would start a range from. */
  function Items(body: seq<Byte>, prev: int): seq<Item>
    requires -1 <= prev < 256
    decreases |body|
  {
    if |body| == 0 then []
    else if body[0] == Dash && |body| > 1 && prev >= 0 then [Span(prev, body[1])] + Items(body[2..], -1)
    else if body[0] == Backslash && |body| > 1 then [Single(Unescape(body[1]))] + Items(body[2..], Unescape(body[1]))
    else [Single(body[0])] + Items(body[1..], body[0])
  }

  predicate InItem(it: Item, c: Byte) {
    match it
    case Single(x) => c == x
    case Span(lo, hi) => lo <= c <= hi
  }

  /** The set of codes a list of items denotes. */
  predicate Denotes(items: seq<Item>, c: Byte) {
    exists i :: 0 <= i < |items| && InItem(items[i], c)
  }

  /** The codes a class text accepts: its listed members, or all others after `^`. */
  predicate Accepts(text: seq<Byte>, c: Byte) {
    if |text| > 0 && text[0] == Caret then !Denotes(Items(text[1..], -1), c)
    else Denotes(Items(text, -1), c)
  }

  lemma {:induction false} ApplyBodyDenotes(body: seq<Byte>, prev: int, bits: Bitmap, clear: bool, c: Byte)
    requires -1 <= prev < 256
    ensures Test(ApplyBody(body, prev, bits, clear), c) <==>
      if clear then Test(bits, c) && !Denotes(Items(body, prev), c)
      else Test(bits, c) || Denotes(Items(body, prev), c)
    decreases |body|
  {
    var items := Items(body, prev);
    if |body| == 0 {
    } else if body[0] == Dash && |body| > 1 && prev >= 0 {
      ApplyBodyDenotes(body[2..], -1, ApplyRange(bits, prev, body[1], clear), clear, c);
      DenotesCons(Span(prev, body[1]), Items(body[2..], -1), c);
    } else if body[0] == Backslash && |body| > 1 {
      var u := Unescape(body[1]);
      ApplyBodyDenotes(body[2..], u, if clear then ClearBit(bits, u) else SetBit(bits, u), clear, c);
      DenotesCons(Single(u), Items(body[2..], u), c);
    } else {
      ApplyBodyDenotes(body[1..], body[0], if clear then ClearBit(bits, body[0]) else SetBit(bits, body[0]), clear, c);
      DenotesCons(Single(body[0]), Items(body[1..], body[0]), c);
    }
  }

  lemma DenotesCons(it: Item, rest: seq<Item>, c: Byte)
    ensures Denotes([it] + rest, c) <==> InItem(it, c) || Denotes(rest, c)
  {
    var s := [it] + rest;
    if Denotes(rest, c) {
      var i :| 0 <= i < |rest| && InItem(rest[i], c);
      assert s[i + 1] == rest[i];
    }
    if Denotes(s, c) && !InItem(it, c) {
      var i :| 0 <= i < |s| && InItem(s[i], c);
      assert i > 0 && rest[i - 1] == s[i];
    }
    if InItem(it, c) {
      assert s[0] == it;
    }
  }

  lemma EmptyTests(c: Byte)
    ensures !Test(Empty(), c)
  {
  }

  lemma FullTests(c: Byte)
    ensures Test(Full(), c)
  {
    NonZeroMask(c % 8);
  }

  /** A leading `^` yields the complement of the bitmap the same body compiles to without it. */
  lemma NegationComplements(body: seq<Byte>, c: Byte)
    ensures Test(Make([Caret] + body), c) <==> !Test(ApplyBody(body, -1, Empty(), false), c)
    ensures Test(Make([Caret] + body), c) <==> !Denotes(Items(body, -1), c)
  {
    assert ([Caret] + body)[1..] == body;
    ApplyBodyDenotes(body, -1, Full(), true, c);
    ApplyBodyDenotes(body, -1, Empty(), false, c);
    FullTests(c);
    EmptyTests(c);
  }

  /** An empty body sets no bit; a lone `^` sets all of them. */
  lemma EmptyBody(c: Byte)
    ensures !Test(Make([]), c)
    ensures Test(Make([Caret]), c)
  {
    EmptyTests(c);
    FullTests(c);
    assert [Caret][1..] == [];
  }

  // ---------------------------------------------------------------------
  // Class body syntax

  /** `x-y` denotes x and every code from x to y; nothing beyond x when y < x. */
  lemma RangeSyntax(x: Byte, y: Byte, c: Byte)
    requires x != Backslash
    ensures Items([x, Dash, y], -1) == [Single(x), Span(x, y)]
    ensures Denotes(Items([x, Dash, y], -1), c) <==> c == x || x <= c <= y
    ensures y < x ==> (Denotes(Items([x, Dash, y], -1), c) <==> c == x)
  {
    assert [x, Dash, y][1..] == [Dash, y];
    assert [Dash, y][2..] == [];
    assert Items([Dash, y], x) == [Span(x, y)] + Items([], -1);
    assert Items([x, Dash, y], -1) == [Single(x)] + Items([Dash, y], x);
    assert [Single(x), Span(x, y)] == [Single(x)] + [Span(x, y)];
    assert [Span(x, y)] == [Span(x, y)] + [];
    DenotesCons(Single(x), [Span(x, y)], c);
    DenotesCons(Span(x, y), [], c);
  }

  /** A `-` with nothing before it (start of the body, or right after a range) is literal. */
  lemma DashWithoutStart(rest: seq<Byte>)
    ensures Items([Dash] + rest, -1) == [Single(Dash)] + Items(rest, Dash)
  {
    assert ([Dash] + rest)[1..] == rest;
  }

  /** A range leaves nothing to start another range from. */
  lemma RangeResets(p: Byte, y: Byte, rest: seq<Byte>)
    ensures Items([Dash, y] + rest, p) == [Span(p, y)] + Items(rest, -1)
  {
    assert ([Dash, y] + rest)[2..] == rest;
  }

  /** A `-` at the end of the body is literal, whatever precedes it. */
  lemma TrailingDash(prev: int)
    requires -1 <= prev < 256
    ensures Items([Dash], prev) == [Single(Dash)]
  {
  }

  /** A backslash escapes the next character; a trailing backslash is literal. */
  lemma EscapeSyntax(x: Byte, rest: seq<Byte>, prev: int)
    requires -1 <= prev < 256
    ensures Items([Backslash, x] + rest, prev) == [Single(Unescape(x))] + Items(rest, Unescape(x))
    ensures Items([Backslash], prev) == [Single(Backslash)]
  {
    assert ([Backslash, x] + rest)[2..] == rest;
  }
}
