/**
 * The renderers' string escapers (`print_html_string` without obfuscation,
 * `print_latex_string`, `print_groff_string`). Each walks a C string up to
 * its NUL and prints a fixed replacement for a handful of special
 * characters, copying every other character unchanged. Each `char`
 * stands for one byte of the C string.
 *
 * The switch of each escaper is modelled as written; beside it, a table of
 * (special character, replacement) pairs is the reference the decoders and
 * the generic lemmas work from, and a lemma shows the switch and its table
 * agree on every character.
 */
module Escapes {
  import opened Support

  /** The printing loop: one replacement per character up to the first NUL. */
  function Serialise(f: char -> string, s: string): (r: string)
    ensures |s| == 0 || s[0] == '\0' ==> r == []
    ensures |s| > 0 && s[0] != '\0' ==> |f(s[0])| <= |r| && r[..|f(s[0])|] == f(s[0])
  {
    if |s| == 0 || s[0] == '\0' then [] else f(s[0]) + Serialise(f, s[1..])
  }

  // ---------------------------------------------------------------------
  // Escape schemes and their decoders
  // ---------------------------------------------------------------------

  datatype Entry = Entry(raw: char, escaped: string)

  /**
   * How an escaper treats special characters: each character of `singles`
   * is printed after `lead`, each entry of `table` is printed as its
   * replacement, and every other character is copied.
   */
  datatype Scheme = Scheme(lead: char, singles: string, table: seq<Entry>)

  predicate HasPrefix(p: string, s: string) {
    |p| <= |s| && s[..|p|] == p
  }

  /** The special characters of a table, in table order. */
  function Raws(t: seq<Entry>): (r: string)
    ensures |r| == |t| && forall i :: 0 <= i < |t| ==> r[i] == t[i].raw
  {
    if |t| == 0 then [] else [t[0].raw] + Raws(t[1..])
  }

  /** The replacement a table gives `c`, if it lists `c`. */
  function Lookup(t: seq<Entry>, c: char): (r: Option<string>)
    ensures r.Some? ==> Entry(c, r.value) in t
    ensures r.None? <==> c !in Raws(t)
  {
    if |t| == 0 then None
    else if t[0].raw == c then Some(t[0].escaped)
    else Lookup(t[1..], c)
  }

  predicate Special(s: Scheme, c: char) {
    c in s.singles || c in Raws(s.table)
  }

  function EscapeChar(s: Scheme, c: char): string {
    if c in s.singles then [s.lead, c]
    else match Lookup(s.table, c)
      case Some(e) => e
      case None => [c]
  }

  /** The first entry whose replacement starts `r`. */
  function FirstMatch(t: seq<Entry>, r: string): (m: Option<Entry>)
    ensures m.Some? ==> m.value in t && |m.value.escaped| > 0 && HasPrefix(m.value.escaped, r)
  {
    if |t| == 0 then None
    else if |t[0].escaped| > 0 && HasPrefix(t[0].escaped, r) then Some(t[0])
    else FirstMatch(t[1..], r)
  }

  function Prepend(c: char, o: Option<string>): Option<string> {
    match o
    case Some(x) => Some([c] + x)
    case None => None
  }

  /**
   * Reads escaped text back: a `lead` character must open a single-character
   * escape or a replacement; any other special character cannot occur raw;
   * the rest is copied.
   */
  function Unescape(s: Scheme, r: string): Option<string>
    decreases |r|
  {
    if |r| == 0 then Some([])
    else if r[0] == s.lead then
      if |r| >= 2 && r[1] in s.singles then Prepend(r[1], Unescape(s, r[2..]))
      else match FirstMatch(s.table, r)
        case None => None
        case Some(e) => Prepend(e.raw, Unescape(s, r[|e.escaped|..]))
    else if Special(s, r[0]) then None
    else Prepend(r[0], Unescape(s, r[1..]))
  }

  /** No replacement of the table is a prefix of another one. */
  predicate PrefixFree(t: seq<Entry>) {
    forall i, j :: 0 <= i < |t| && 0 <= j < |t| && i != j ==> !HasPrefix(t[i].escaped, t[j].escaped)
  }

  /** `e` ends with `term` and has no other `term` in it, as an entity ends with `;`. */
  predicate Terminated(e: string, term: char) {
    |e| > 0 && e[|e| - 1] == term && forall k :: 0 <= k < |e| - 1 ==> e[k] != term
  }

  /*
   * The checks below walk a table by index so that, on a table written out
   * in full, the verifier can evaluate them entry by entry.
   */

  /** Every replacement from `i` on is `lead` followed by a character that is not a single. */
  predicate LedFrom(t: seq<Entry>, lead: char, singles: string, i: nat)
    decreases |t| - i
  {
    i >= |t| || (|t[i].escaped| >= 2 && t[i].escaped[0] == lead && t[i].escaped[1] !in singles && LedFrom(t, lead, singles, i + 1))
  }

  /** `x` lists the special characters of the entries from `i` on. */
  predicate RawsFrom(t: seq<Entry>, x: string, i: nat)
    decreases |t| - i
  {
    if i >= |t| then |x| == |t| else i < |x| && t[i].raw == x[i] && RawsFrom(t, x, i + 1)
  }

  /** The switch prints each entry's replacement for its character. */
  predicate EntriesAgree(f: char -> string, t: seq<Entry>, i: nat)
    decreases |t| - i
  {
    i >= |t| || (f(t[i].raw) == t[i].escaped && EntriesAgree(f, t, i + 1))
  }

  /**
   * A scheme whose output can be decoded: `lead` is itself special, every
   * replacement starts with `lead` and then a character that is not a
   * single, and no replacement is a prefix of another.
   */
  predicate Invertible(s: Scheme) {
    Special(s, s.lead) && LedFrom(s.table, s.lead, s.singles, 0) && PrefixFree(s.table)
  }

  /** An escaper's switch agrees with a scheme on every character. */
  predicate Agrees(f: char -> string, s: Scheme) {
    forall c :: f(c) == EscapeChar(s, c)
  }

  lemma {:induction false} RawsFromMeans(t: seq<Entry>, x: string, i: nat)
    requires RawsFrom(t, x, i) && i <= |t|
    ensures |x| == |t| && forall k :: i <= k < |t| ==> x[k] == t[k].raw
    decreases |t| - i
  {
    if i < |t| {
      RawsFromMeans(t, x, i + 1);
    }
  }

  /** A full listing of a table's special characters is its `Raws`. */
  lemma RawsAre(t: seq<Entry>, x: string)
    requires RawsFrom(t, x, 0)
    ensures Raws(t) == x
  {
    RawsFromMeans(t, x, 0);
  }

  /** Distinct replacements that each end at their only terminator cannot start one another. */
  lemma TerminatedPrefixFree(t: seq<Entry>, term: char)
    requires forall i :: 0 <= i < |t| ==> Terminated(t[i].escaped, term)
    requires forall i, j :: 0 <= i < j < |t| ==> t[i].escaped != t[j].escaped
    ensures PrefixFree(t)
  {
    forall i, j | 0 <= i < |t| && 0 <= j < |t| && i != j
      ensures !HasPrefix(t[i].escaped, t[j].escaped)
    {
      var a, b := t[i].escaped, t[j].escaped;
      assert a != b;
      PrefixEnd(a, b);
    }
  }

  /** A prefix shares its last character with the longer string at that position. */
  lemma PrefixEnd(a: string, b: string)
    requires |a| > 0
    ensures HasPrefix(a, b) ==> b[|a| - 1] == a[|a| - 1]
  {
    if HasPrefix(a, b) {
      assert b[..|a|][|a| - 1] == b[|a| - 1];
    }
  }

  lemma {:induction false} LedFromMeans(t: seq<Entry>, lead: char, singles: string, i: nat, k: nat)
    requires LedFrom(t, lead, singles, i) && i <= k < |t|
    ensures |t[k].escaped| >= 2 && t[k].escaped[0] == lead && t[k].escaped[1] !in singles
    decreases k - i
  {
    if i < k {
      LedFromMeans(t, lead, singles, i + 1, k);
    }
  }

  lemma {:induction false} EntriesAgreeMeans(f: char -> string, t: seq<Entry>, i: nat, k: nat)
    requires EntriesAgree(f, t, i) && i <= k < |t|
    ensures f(t[k].raw) == t[k].escaped
    decreases k - i
  {
    if i < k {
      EntriesAgreeMeans(f, t, i + 1, k);
    }
  }

  /**
   * A switch agrees with its scheme when it prints the single-character
   * escapes, prints each entry's replacement, and copies everything else.
   */
  lemma AgreementFromEntries(f: char -> string, s: Scheme)
    requires forall c :: c in s.singles ==> f(c) == [s.lead, c]
    requires EntriesAgree(f, s.table, 0)
    requires forall c :: !Special(s, c) ==> f(c) == [c]
    ensures Agrees(f, s)
  {
    forall c ensures f(c) == EscapeChar(s, c) {
      if c !in s.singles {
        match Lookup(s.table, c)
        case Some(e) =>
          var k :| 0 <= k < |s.table| && s.table[k] == Entry(c, e);
          EntriesAgreeMeans(f, s.table, 0, k);
        case None =>
      }
    }
  }

  lemma FirstMatchFinds(s: Scheme, i: nat, rest: string)
    requires Invertible(s) && i < |s.table|
    ensures FirstMatch(s.table, s.table[i].escaped + rest) == Some(s.table[i])
  {
    var t := s.table;
    var r := t[i].escaped + rest;
    assert r[..|t[i].escaped|] == t[i].escaped;
    LedFromMeans(t, s.lead, s.singles, 0, i);
    FirstMatchComplete(t, r, i);
    var m := FirstMatch(t, r);
    var j :| 0 <= j < |t| && t[j] == m.value;
    PrefixesOfOne(t[i].escaped, t[j].escaped, r);
  }

  /** Two prefixes of one string: the shorter is a prefix of the longer. */
  lemma PrefixesOfOne(a: string, b: string, r: string)
    requires HasPrefix(a, r) && HasPrefix(b, r)
    ensures HasPrefix(a, b) || HasPrefix(b, a)
  {
    if |b| <= |a| {
      assert a[..|b|] == r[..|b|];
    } else {
      assert b[..|a|] == r[..|a|];
    }
  }

  lemma {:induction false} FirstMatchComplete(t: seq<Entry>, r: string, i: nat)
    requires i < |t| && |t[i].escaped| > 0 && HasPrefix(t[i].escaped, r)
    ensures FirstMatch(t, r).Some?
  {
    if i > 0 && !(|t[0].escaped| > 0 && HasPrefix(t[0].escaped, r)) {
      FirstMatchComplete(t[1..], r, i - 1);
    }
  }

  /** Decoding undoes the escape of one character. */
  lemma UnescapeCons(s: Scheme, c: char, rest: string)
    requires Invertible(s)
    ensures Unescape(s, EscapeChar(s, c) + rest) == Prepend(c, Unescape(s, rest))
  {
    var r := EscapeChar(s, c) + rest;
    if c in s.singles {
      assert r[0] == s.lead && r[1] == c && r[2..] == rest;
    } else {
      match Lookup(s.table, c)
      case Some(e) =>
        var i :| 0 <= i < |s.table| && s.table[i] == Entry(c, e);
        FirstMatchFinds(s, i, rest);
        LedFromMeans(s.table, s.lead, s.singles, 0, i);
        assert r[0] == s.lead && r[1] !in s.singles;
        assert r[|e|..] == rest;
      case None =>
        assert c != s.lead;
        assert r[1..] == rest;
    }
  }

  /** Round trip: decoding what an escaper printed gives back its input. */
  lemma {:induction false} RoundTrip(f: char -> string, s: Scheme, x: string)
    requires Invertible(s) && Agrees(f, s) && NulFreeText(x)
    ensures Unescape(s, Serialise(f, x)) == Some(x)
  {
    if |x| > 0 {
      RoundTrip(f, s, x[1..]);
      UnescapeCons(s, x[0], Serialise(f, x[1..]));
      assert [x[0]] + x[1..] == x;
    }
  }

  /** Escaping distributes over concatenation of C-string contents. */
  lemma {:induction false} SerialiseAppend(f: char -> string, a: string, b: string)
    requires NulFreeText(a)
    ensures Serialise(f, a + b) == Serialise(f, a) + Serialise(f, b)
  {
    if |a| > 0 {
      assert (a + b)[0] == a[0] && (a + b)[1..] == a[1..] + b;
      SerialiseAppend(f, a[1..], b);
    } else {
      assert a + b == b;
    }
  }

  /** The loop stops at the first NUL: whatever follows it is never printed. */
  lemma SerialiseStopsAtNul(f: char -> string, a: string, b: string)
    requires NulFreeText(a)
    ensures Serialise(f, a + ['\0'] + b) == Serialise(f, a)
  {
    SerialiseAppend(f, a, ['\0'] + b);
    assert a + ['\0'] + b == a + (['\0'] + b);
  }

  /** Text with no special character is printed unchanged. */
  lemma {:induction false} PlainCopied(f: char -> string, s: Scheme, x: string)
    requires Agrees(f, s) && NulFreeText(x)
    requires forall i :: 0 <= i < |x| ==> !Special(s, x[i])
    ensures Serialise(f, x) == x
  {
    if |x| > 0 {
      PlainCopied(f, s, x[1..]);
      assert [x[0]] + x[1..] == x;
    }
  }

  /** A character that no replacement contains never appears in the output. */
  lemma {:induction false} NeverRaw(f: char -> string, x: string, y: char)
    requires forall c :: y !in f(c)
    ensures y !in Serialise(f, x)
  {
    if |x| > 0 && x[0] != '\0' {
      NeverRaw(f, x[1..], y);
    }
  }

  // ---------------------------------------------------------------------
  // HTML
  // ---------------------------------------------------------------------

  /** The switch of `print_html_string` when no obfuscation is asked for. */
  function HtmlChar(c: char): string {
    match c
    case '&' => "&amp;"
    case '<' => "&lt;"
    case '>' => "&gt;"
    case '"' => "&quot;"
    case _ => [c]
  }

  const HtmlScheme := Scheme('&', "", [Entry('&', "&amp;"), Entry('<', "&lt;"), Entry('>', "&gt;"), Entry('"', "&quot;")])

  /** `print_html_string` without obfuscation; it is lossless: decoding the entities gives back the input. */
  function Html(s: string): (r: string)
    ensures NulFreeText(s) ==> Unescape(HtmlScheme, r) == Some(s)
  {
    HtmlAgrees();
    HtmlInvertible();
    assert NulFreeText(s) ==> Unescape(HtmlScheme, Serialise(HtmlChar, s)) == Some(s) by {
      if NulFreeText(s) { RoundTrip(HtmlChar, HtmlScheme, s); }
    }
    Serialise(HtmlChar, s)
  }

  lemma HtmlEntries()
    ensures EntriesAgree(HtmlChar, HtmlScheme.table, 0)
  {
  }

  lemma HtmlOthers()
    ensures forall c :: !Special(HtmlScheme, c) ==> HtmlChar(c) == [c]
  {
    RawsAre(HtmlScheme.table, "&<>\"");
  }

  lemma HtmlAgrees()
    ensures Agrees(HtmlChar, HtmlScheme)
  {
    HtmlEntries();
    HtmlOthers();
    AgreementFromEntries(HtmlChar, HtmlScheme);
  }

  lemma HtmlInvertible()
    ensures Invertible(HtmlScheme)
  {
    RawsAre(HtmlScheme.table, "&<>\"");
    assert LedFrom(HtmlScheme.table, '&', "", 0);
    var t := HtmlScheme.table;
    assert forall i :: 0 <= i < |t| ==> Terminated(t[i].escaped, ';');
    assert forall i, j :: 0 <= i < j < |t| ==> t[i].escaped != t[j].escaped;
    TerminatedPrefixFree(t, ';');
  }

  /** No raw `<`, `>` or `"` survives HTML escaping. */
  lemma HtmlNoMarkup(s: string)
    ensures '<' !in Html(s) && '>' !in Html(s) && '"' !in Html(s)
  {
    NeverRaw(HtmlChar, s, '<');
    NeverRaw(HtmlChar, s, '>');
    NeverRaw(HtmlChar, s, '"');
  }

  // ---------------------------------------------------------------------
  // LaTeX
  // ---------------------------------------------------------------------

  /** The switch of `print_latex_string`. */
  function LatexChar(c: char): string {
    match c
    case '{' | '}' | '$' | '%' | '&' | '_' | '#' => ['\\', c]
    case '^' => "\\^{}"
    case '\\' => "\\textbackslash{}"
    case '~' => "\\ensuremath{\\sim}"
    case '|' => "\\textbar{}"
    case '<' => "\\textless{}"
    case '>' => "\\textgreater{}"
    case _ => [c]
  }

  const LatexScheme := Scheme('\\', "{}$%&_#", [
    Entry('^', "\\^{}"), Entry('\\', "\\textbackslash{}"), Entry('~', "\\ensuremath{\\sim}"),
    Entry('|', "\\textbar{}"), Entry('<', "\\textless{}"), Entry('>', "\\textgreater{}")])

  /** `print_latex_string`; it is lossless: decoding the control sequences gives back the input. */
  function Latex(s: string): (r: string)
    ensures NulFreeText(s) ==> Unescape(LatexScheme, r) == Some(s)
  {
    LatexAgrees();
    LatexInvertible();
    assert NulFreeText(s) ==> Unescape(LatexScheme, Serialise(LatexChar, s)) == Some(s) by {
      if NulFreeText(s) { RoundTrip(LatexChar, LatexScheme, s); }
    }
    Serialise(LatexChar, s)
  }

  lemma LatexRaws()
    ensures Raws(LatexScheme.table) == "^\\~|<>"
  {
    RawsAre(LatexScheme.table, "^\\~|<>");
  }

  lemma LatexEntries()
    ensures EntriesAgree(LatexChar, LatexScheme.table, 0)
  {
  }

  lemma LatexSingles()
    ensures forall c :: c in LatexScheme.singles ==> LatexChar(c) == [LatexScheme.lead, c]
  {
  }

  lemma LatexOthers()
    ensures forall c :: !Special(LatexScheme, c) ==> LatexChar(c) == [c]
  {
    LatexRaws();
  }

  lemma LatexAgrees()
    ensures Agrees(LatexChar, LatexScheme)
  {
    LatexSingles();
    LatexEntries();
    LatexOthers();
    AgreementFromEntries(LatexChar, LatexScheme);
  }

  lemma LatexTerminated()
    ensures forall i :: 0 <= i < |LatexScheme.table| ==> Terminated(LatexScheme.table[i].escaped, '}')
  {
    forall i | 0 <= i < |LatexScheme.table|
      ensures Terminated(LatexScheme.table[i].escaped, '}')
    {
      if i < 3 {
        LatexTerminatedLow(i);
      } else {
        LatexTerminatedHigh(i);
      }
    }
  }

  lemma LatexTerminatedLow(i: nat)
    requires i < 3
    ensures Terminated(LatexScheme.table[i].escaped, '}')
  {
  }

  lemma LatexTerminatedHigh(i: nat)
    requires 3 <= i < 6
    ensures Terminated(LatexScheme.table[i].escaped, '}')
  {
  }

  lemma LatexDistinct()
    ensures forall i, j :: 0 <= i < j < |LatexScheme.table| ==> LatexScheme.table[i].escaped != LatexScheme.table[j].escaped
  {
  }

  lemma LatexLed()
    ensures LedFrom(LatexScheme.table, '\\', "{}$%&_#", 0)
  {
  }

  lemma LatexInvertible()
    ensures Invertible(LatexScheme)
  {
    LatexRaws();
    LatexLed();
    LatexTerminated();
    LatexDistinct();
    TerminatedPrefixFree(LatexScheme.table, '}');
  }

  /**
   * No raw `~`, `|`, `<` or `>` survives LaTeX escaping (a `^` does, inside
   * its own replacement `\\^{}`).
   */
  lemma LatexNoActive(s: string, x: char)
    requires x in "~|<>"
    ensures x !in Latex(s)
  {
    LatexCharNoActive(x);
    NeverRaw(LatexChar, s, x);
  }

  /** None of `~`, `|`, `<`, `>` occurs in any replacement of `print_latex_string`. */
  lemma LatexCharNoActive(x: char)
    requires x in "~|<>"
    ensures forall c :: x !in LatexChar(c)
  {
  }

  // ---------------------------------------------------------------------
  // groff
  // ---------------------------------------------------------------------

  /** The switch of `print_groff_string`. */
  function GroffChar(c: char): string {
    if c == '\\' then "\\e" else [c]
  }

  const GroffScheme := Scheme('\\', "", [Entry('\\', "\\e")])

  /** `print_groff_string`; it is lossless: decoding `\e` gives back the input. */
  function Groff(s: string): (r: string)
    ensures NulFreeText(s) ==> Unescape(GroffScheme, r) == Some(s)
  {
    assert EntriesAgree(GroffChar, GroffScheme.table, 0);
    RawsAre(GroffScheme.table, "\\");
    AgreementFromEntries(GroffChar, GroffScheme);
    assert LedFrom(GroffScheme.table, '\\', "", 0);
    assert PrefixFree(GroffScheme.table);
    assert NulFreeText(s) ==> Unescape(GroffScheme, Serialise(GroffChar, s)) == Some(s) by {
      if NulFreeText(s) { RoundTrip(GroffChar, GroffScheme, s); }
    }
    Serialise(GroffChar, s)
  }

  /** Each backslash costs exactly one extra character. */
  lemma {:induction false} GroffLength(s: string)
    requires NulFreeText(s)
    ensures |Groff(s)| == |s| + Count(s, '\\')
  {
    if |s| > 0 {
      GroffLength(s[1..]);
    }
  }
}
