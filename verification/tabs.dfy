/**
 * `preformat_text`: copy a C string, expanding each tab to the spaces that
 * reach the next tab stop of the output line. Tab stops are every four
 * columns, and a newline starts a new line. Each `char` stands for one byte
 * of the C string, so columns are counted in bytes.
 */
module Tabs {
  import opened Support

  const TabStop: nat := 4

  /** The number of characters after the last newline of `s`. */
  function Col(s: string): (n: nat)
    ensures n <= |s|
  {
    if |s| == 0 then 0
    else if s[|s| - 1] == '\n' then 0
    else Col(s[..|s| - 1]) + 1
  }

  function Spaces(n: nat): (r: string)
    ensures |r| == n && forall i :: 0 <= i < n ==> r[i] == ' '
  {
    if n == 0 then [] else Spaces(n - 1) + [' ']
  }

  /** The spaces a tab expands to after output `out`: 1..4, up to the next stop. */
  function TabWidth(out: string): (w: nat)
    ensures 1 <= w <= TabStop
  {
    TabStop - Col(out) % TabStop
  }

  /** Reference expansion, one input character at a time. */
  function Expand(text: string): string {
    if |text| == 0 then []
    else
      var e := Expand(text[..|text| - 1]);
      if text[|text| - 1] == '\t' then e + Spaces(TabWidth(e)) else e + [text[|text| - 1]]
  }

  /**
   * The loop of `preformat_text`, with its `charstotab` counter and its `len`
   * count of the bytes appended before the closing blank line.
   */
  method PreformatText(text: string) returns (out: string, len: nat)
    ensures out == Expand(CString(text)) + "\n\n"
    ensures len == |Expand(CString(text))| && |out| == len + 2
  {
    var buf: string := [];
    len := 0;
    var charstotab := TabStop;
    var i := 0;
    while i < |text| && text[i] != '\0'
      invariant 0 <= i <= |text|
      invariant NulFreeText(text[..i])
      invariant buf == Expand(text[..i])
      invariant len == |buf|
      invariant 1 <= charstotab <= TabStop
      invariant charstotab == TabWidth(buf)
    {
      var c := text[i];
      ExpandStep(text[..i], c);
      assert text[..i + 1] == text[..i] + [c];
      if c == '\t' {
        ghost var before := buf;
        while charstotab > 0
          invariant 0 <= charstotab <= TabWidth(before)
          invariant buf == before + Spaces(TabWidth(before) - charstotab)
          invariant len == |buf|
        {
          buf := buf + [' '];
          len := len + 1;
          charstotab := charstotab - 1;
        }
        TabReachesStop(before);
      } else {
        WidthStep(buf, c);
        buf := buf + [c];
        len := len + 1;
        if c == '\n' {
          charstotab := TabStop;
        } else {
          charstotab := charstotab - 1;
        }
      }
      if charstotab == 0 {
        charstotab := TabStop;
      }
      i := i + 1;
    }
    CStringOfPrefix(text, i);
    out := buf + "\n\n";
  }

  lemma ExpandStep(t: string, c: char)
    ensures Expand(t + [c]) == Expand(t) + (if c == '\t' then Spaces(TabWidth(Expand(t))) else [c])
  {
    assert (t + [c])[..|t|] == t;
  }

  /** After a newline the next stop is a full tab away; after another character it is one column nearer. */
  lemma WidthStep(s: string, c: char)
    requires c != '\t'
    ensures c == '\n' ==> TabWidth(s + [c]) == TabStop
    ensures c != '\n' ==> TabWidth(s + [c]) == (if TabWidth(s) == 1 then TabStop else TabWidth(s) - 1)
  {
    assert (s + [c])[..|s|] == s;
  }

  /** A tab's spaces end exactly at a tab stop. */
  lemma TabReachesStop(s: string)
    ensures Col(s + Spaces(TabWidth(s))) % TabStop == 0
    ensures TabWidth(s + Spaces(TabWidth(s))) == TabStop
  {
    ColAfterSpaces(s, TabWidth(s));
  }

  lemma {:induction false} ColAfterSpaces(s: string, n: nat)
    ensures Col(s + Spaces(n)) == Col(s) + n
  {
    if n > 0 {
      var a := s + Spaces(n - 1);
      assert s + Spaces(n) == a + [' '];
      ColSnoc(a, ' ');
      ColAfterSpaces(s, n - 1);
    } else {
      assert s + Spaces(0) == s;
    }
  }

  /** Any character but a newline advances the column by one. */
  lemma ColSnoc(s: string, c: char)
    requires c != '\n'
    ensures Col(s + [c]) == Col(s) + 1
  {
    assert (s + [c])[..|s|] == s;
  }

  /** No tab survives expansion. */
  lemma {:induction false} NoTabs(t: string)
    ensures '\t' !in Expand(t)
  {
    if |t| > 0 {
      var init, c := t[..|t| - 1], t[|t| - 1];
      assert t == init + [c];
      NoTabs(init);
      ExpandStep(init, c);
    }
  }

  /** The width each tab of `t` expands to, in order. */
  function Widths(t: string): (w: seq<nat>)
    ensures |w| == Count(t, '\t')
    ensures forall k :: 0 <= k < |w| ==> 1 <= w[k] <= TabStop
  {
    if |t| == 0 then []
    else
      var init := t[..|t| - 1];
      CountLast(t, '\t');
      var w0 := Widths(init);
      if t[|t| - 1] == '\t' then w0 + [TabWidth(Expand(init))] else w0
  }

  /**
   * `t` with its tabs replaced, in order, by runs of spaces of the given
   * widths, and every other character copied.
   */
  function Substitute(t: string, w: seq<nat>): string
    requires |w| == Count(t, '\t')
  {
    if |t| == 0 then []
    else
      var init, c := t[..|t| - 1], t[|t| - 1];
      CountLast(t, '\t');
      if c == '\t' then Substitute(init, w[..|w| - 1]) + Spaces(w[|w| - 1])
      else Substitute(init, w) + [c]
  }

  /**
   * Expansion keeps every character other than a tab, once and in order,
   * and turns each tab into between one and four spaces.
   */
  lemma {:induction false} ExpandSubstitutes(t: string)
    ensures Expand(t) == Substitute(t, Widths(t))
  {
    if |t| > 0 {
      var init, c := t[..|t| - 1], t[|t| - 1];
      assert t == init + [c];
      ExpandSubstitutes(init);
      ExpandStep(init, c);
      if c == '\t' {
        assert Widths(t)[..|Widths(t)| - 1] == Widths(init);
      }
    }
  }

  /** Right after a tab's spaces the output column is a multiple of the tab stop. */
  lemma TabAligns(t: string)
    requires |t| > 0 && t[|t| - 1] == '\t'
    ensures Col(Expand(t)) % TabStop == 0
  {
    var init := t[..|t| - 1];
    assert t == init + ['\t'];
    ExpandStep(init, '\t');
    TabReachesStop(Expand(init));
  }

  /** Columns are counted from the last newline: what precedes it does not matter. */
  lemma {:induction false} ColAfterNewline(x: string, y: string)
    ensures Col(x + ['\n'] + y) == Col(y)
  {
    if |y| == 0 {
      assert x + ['\n'] + y == x + ['\n'];
    } else {
      var s := x + ['\n'] + y;
      assert s[..|s| - 1] == x + ['\n'] + y[..|y| - 1];
      ColAfterNewline(x, y[..|y| - 1]);
    }
  }

  /** A newline resets the tab stops: each line expands independently of the ones before it. */
  lemma {:induction false} NewlineResets(a: string, b: string)
    ensures Expand(a + ['\n'] + b) == Expand(a) + ['\n'] + Expand(b)
  {
    if |b| == 0 {
      assert a + ['\n'] + b == a + ['\n'];
      ExpandStep(a, '\n');
    } else {
      var init, c := b[..|b| - 1], b[|b| - 1];
      assert b == init + [c];
      assert a + ['\n'] + b == (a + ['\n'] + init) + [c];
      NewlineResets(a, init);
      ExpandStep(a + ['\n'] + init, c);
      ExpandStep(init, c);
      ColAfterNewline(Expand(a), Expand(init));
    }
  }

  /** Columns are bytes: `é` is the two bytes C3 A9 in UTF-8, so a tab after it pads with two spaces. */
  lemma TwoByteCharacterTab()
    ensures Expand([0xC3 as char, 0xA9 as char, '\t']) == [0xC3 as char, 0xA9 as char, ' ', ' ']
  {
    var e := [0xC3 as char, 0xA9 as char];
    var t := e + ['\t'];
    var a := [0xC3 as char];
    assert a[..0] == [];
    assert Expand(a) == a;
    assert e[..1] == a;
    assert Expand(e) == e;
    assert t[..2] == e;
    assert Col(a) == 1;
    assert Col(e) == 2;
    assert Spaces(2) == [' ', ' '];
    assert t == [0xC3 as char, 0xA9 as char, '\t'] && t[|t| - 1] == '\t';
    assert TabWidth(e) == 2;
    assert Expand(t) == e + [' ', ' '];
  }
}
