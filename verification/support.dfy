/** Small shared vocabulary: bytes, C strings and optional values. */
module Support {

  /** An unsigned 8-bit value, as held by an `unsigned char`. */
  type Byte = b: int | 0 <= b < 256

  /** The content of a C string: no interior NUL byte can be represented. */
  predicate NulFree(s: seq<Byte>) {
    forall i :: 0 <= i < |s| ==> s[i] != 0
  }

  /** The same for character strings (`char *` text in the renderers). */
  predicate NulFreeText(s: seq<char>) {
    forall i :: 0 <= i < |s| ==> s[i] != '\0'
  }

  /** What a `char *` walk sees of `s`: everything before its first NUL. */
  function CString(s: seq<char>): (r: seq<char>)
    ensures NulFreeText(r) && |r| <= |s| && r == s[..|r|]
    ensures |r| < |s| ==> s[|r|] == '\0'
  {
    if |s| == 0 || s[0] == '\0' then [] else [s[0]] + CString(s[1..])
  }

  /** The bytes a `char *` walk sees of `s`: everything before its first NUL. */
  function CBytes(s: seq<Byte>): (r: seq<Byte>)
    ensures NulFree(r) && |r| <= |s| && r == s[..|r|]
    ensures |r| < |s| ==> s[|r|] == 0
  {
    if |s| == 0 || s[0] == 0 then [] else [s[0]] + CBytes(s[1..])
  }

  /** A NUL-free sequence is its own C string. */
  lemma {:induction false} CBytesOfNulFree(s: seq<Byte>)
    requires NulFree(s)
    ensures CBytes(s) == s
  {
    if |s| > 0 {
      assert NulFree(s[1..]) by {
        forall i | 0 <= i < |s[1..]| ensures s[1..][i] != 0 { assert s[1..][i] == s[i + 1]; }
      }
      CBytesOfNulFree(s[1..]);
    }
  }

  datatype Option<T> = None | Some(value: T)

  /** Number of positions of `s` that hold `x`. */
  function Count<T(==)>(s: seq<T>, x: T): (n: nat)
    ensures n <= |s|
    ensures n == 0 <==> x !in s
  {
    if |s| == 0 then 0 else (if s[0] == x then 1 else 0) + Count(s[1..], x)
  }

  lemma {:induction false} CountAppend<T>(a: seq<T>, b: seq<T>, x: T)
    ensures Count(a + b, x) == Count(a, x) + Count(b, x)
  {
    if |a| == 0 {
      assert a + b == b;
    } else {
      assert (a + b)[1..] == a[1..] + b;
      CountAppend(a[1..], b, x);
    }
  }

  /** Counting up to the last element. */
  lemma {:induction false} CountLast<T>(s: seq<T>, x: T)
    requires |s| > 0
    ensures Count(s, x) == Count(s[..|s| - 1], x) + (if s[|s| - 1] == x then 1 else 0)
  {
    var init, last := s[..|s| - 1], [s[|s| - 1]];
    assert s == init + last;
    assert last[1..] == [];
    CountAppend(init, last, x);
  }

  /** A walk that stopped at a NUL or at the end, having seen no NUL, covered the C string. */
  lemma {:induction false} CStringOfPrefix(s: string, i: nat)
    requires i <= |s| && NulFreeText(s[..i]) && (i == |s| || s[i] == '\0')
    ensures CString(s) == s[..i]
  {
    if i > 0 {
      assert s[0] == s[..i][0];
      assert s[1..][..i - 1] == s[..i][1..];
      CStringOfPrefix(s[1..], i - 1);
      assert s[..i] == [s[0]] + s[1..][..i - 1];
    }
  }
}
