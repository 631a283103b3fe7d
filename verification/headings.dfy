/**
 * Heading levels in the renderers. The element keys H1..H6 are consecutive
 * members of the `keys` enumeration (22..27), and every writer derives the
 * level from the key by offset.
 */
module Headings {
  import opened Support

  const H1: int := 22
  const H2: int := 23
  const H3: int := 24
  const H4: int := 25
  const H5: int := 26
  const H6: int := 27

  predicate IsHeading(key: int) {
    H1 <= key <= H6
  }

  /** The key of a heading of level `lev`. */
  function KeyOf(lev: int): int {
    H1 + lev - 1
  }

  /** `lev = key - H1 + 1`, the level the HTML and groff writers print; none for other keys. */
  function Level(key: int): (lev: Option<int>)
    ensures lev.Some? <==> IsHeading(key)
    ensures lev.Some? ==> 1 <= lev.value <= 6 && KeyOf(lev.value) == key
  {
    if IsHeading(key) then Some(key - H1 + 1) else None
  }

  /** Every level 1..6 comes from exactly one heading key. */
  lemma LevelOfKey(lev: int)
    requires 1 <= lev <= 6
    ensures IsHeading(KeyOf(lev)) && Level(KeyOf(lev)) == Some(lev)
  {
  }

  /** `n` copies of `w`. */
  function Repeat(w: string, n: nat): (r: string)
    ensures |r| == n * |w|
  {
    if n == 0 then [] else w + Repeat(w, n - 1)
  }

  /** The LaTeX sectioning command that opens a heading of key H1..H3. */
  function SectionCommand(key: int): string
    requires H1 <= key <= H3
  {
    "\\" + Repeat("sub", key - H1) + "section{"
  }

  /** The LaTeX writer's loop: one `sub` for each key step above H1. */
  method SectionOpen(key: int) returns (cmd: string)
    requires H1 <= key <= H3
    ensures cmd == SectionCommand(key)
  {
    cmd := "\\";
    var i := key;
    while i > H1
      invariant H1 <= i <= key
      invariant cmd == "\\" + Repeat("sub", key - i)
    {
      cmd := cmd + "sub";
      i := i - 1;
      RepeatSnoc("sub", key - i - 1);
    }
    cmd := cmd + "section{";
  }

  lemma {:induction false} RepeatSnoc(w: string, n: nat)
    ensures Repeat(w, n) + w == Repeat(w, n + 1)
  {
    if n > 0 {
      RepeatSnoc(w, n - 1);
    }
  }

  /** H1, H2 and H3 open `\section{`, `\subsection{` and `\subsubsection{`. */
  lemma SectionNames()
    ensures SectionCommand(H1) == "\\section{"
    ensures SectionCommand(H2) == "\\subsection{"
    ensures SectionCommand(H3) == "\\subsubsection{"
  {
    assert Repeat("sub", 1) == "sub";
    assert Repeat("sub", 2) == "subsub";
  }

  const BoldOpen := "\\noindent\\textbf{"

  /** What the LaTeX writer prints before a heading's text. */
  function LatexOpen(key: int): string
    requires IsHeading(key)
  {
    if key <= H3 then SectionCommand(key) else BoldOpen
  }

  /**
   * The LaTeX writer's heading cases as written: H4..H6 have no `break`, so
   * control falls into the PLAIN case, which pads one newline and prints the
   * heading's text a second time. Leading padding is not modelled.
   */
  function LatexHeadingAsWritten(key: int, text: string): (r: string)
    requires IsHeading(key)
    ensures LatexHeading(key, text) <= r
    ensures key <= H3 <==> r == LatexHeading(key, text)
    ensures H3 < key ==> r[|LatexHeading(key, text)|..] == "\n" + text
  {
    if key <= H3 then LatexOpen(key) + text + "}"
    else LatexOpen(key) + text + "}" + "\n" + text
  }

  /** The heading printed once, as the H1..H3 cases and the other writers do. */
  function LatexHeading(key: int, text: string): string
    requires IsHeading(key)
  {
    LatexOpen(key) + text + "}"
  }

  /** Every character of the heading's text is printed exactly once by the corrected case. */
  lemma LatexHeadingOnce(key: int, text: string, x: char)
    requires IsHeading(key)
    ensures Count(LatexHeading(key, text), x) == Count(LatexOpen(key), x) + Count(text, x) + Count("}", x)
  {
    CountAppend(LatexOpen(key) + text, "}", x);
    CountAppend(LatexOpen(key), text, x);
  }

  /**
   * As written, every character of an H4..H6 heading's text that the
   * wrapper does not itself contain is printed twice; corrected, once.
   */
  lemma LatexHeadingTwice(key: int, text: string, x: char)
    requires H4 <= key <= H6
    requires x !in BoldOpen && x != '}' && x != '\n'
    ensures Count(LatexHeadingAsWritten(key, text), x) == 2 * Count(text, x)
    ensures Count(LatexHeading(key, text), x) == Count(text, x)
  {
    var h, t := LatexHeading(key, text), LatexHeadingAsWritten(key, text);
    assert Count(h, x) == Count(text, x) by {
      assert Count(LatexOpen(key), x) == 0 by { assert LatexOpen(key) == BoldOpen; }
      assert Count("}", x) == 0;
      LatexHeadingOnce(key, text, x);
    }
    assert Count(t, x) == Count(h, x) + Count(text, x) by {
      assert t == h + ("\n" + text);
      CountAppend(h, "\n" + text, x);
      assert Count("\n", x) == 0;
      CountAppend("\n", text, x);
    }
  }

  /** As written, the H4 heading `Q` comes out with `Q` twice: `\noindent\textbf{Q}`, a newline, `Q`. */
  lemma LatexHeadingPrintedTwice()
    ensures Count(LatexHeadingAsWritten(H4, "Q"), 'Q') == 2
    ensures Count(LatexHeading(H4, "Q"), 'Q') == 1
  {
    var q := 'Q';
    assert q !in BoldOpen;
    assert Count([q], q) == 1;
    LatexHeadingTwice(H4, [q], q);
  }
}
