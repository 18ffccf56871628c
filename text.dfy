/** String helpers: `join`, and Rust's `Ord` for `String`, which compares the
    UTF-8 bytes; byte order of UTF-8 is code-point order, so here it is the
    lexicographic order of characters. */
module Text {
  import opened Orders

  /** `[a, b, c].join(sep)` */
  function Join(parts: seq<string>, sep: string): (r: string)
  {
    if |parts| == 0 then ""
    else if |parts| == 1 then parts[0]
    else parts[0] + sep + Join(parts[1..], sep)
  }

  /** A character in neither the parts nor the separator is not in the join. */
  lemma {:induction false} JoinAvoids(parts: seq<string>, sep: string, ch: char)
    requires ch !in sep && forall i :: 0 <= i < |parts| ==> ch !in parts[i]
    ensures ch !in Join(parts, sep)
  {
    if |parts| > 1 {
      JoinAvoids(parts[1..], sep, ch);
      assert ch !in parts[0];
    }
  }

  /** Appending is associative; stated once so that proofs need not
      rediscover it element by element. */
  lemma AppendAssoc<T>(a: seq<T>, b: seq<T>, c: seq<T>)
    ensures a + b + c == a + (b + c)
  {
  }

  predicate CharLess(x: char, y: char) {
    x < y
  }

  /** Byte-wise order of Rust strings. */
  predicate StrLess(a: string, b: string) {
    LexLess(a, b, CharLess)
  }

  lemma StrLessIsStrictTotal()
    ensures StrictTotalOrder(StrLess)
  {
    assert StrictTotalOrder(CharLess);
    LexOrderIsStrictTotal(CharLess, StrLess);
  }

  predicate StartsWith(s: string, p: string) {
    |p| <= |s| && s[..|p|] == p
  }

  predicate EndsWith(s: string, p: string) {
    |p| <= |s| && s[|s| - |p|..] == p
  }

  /** A concatenation starts with its first part and ends with its last. */
  lemma ConcatStartsEnds(a: string, m: string, z: string)
    ensures StartsWith(a + m + z, a) && EndsWith(a + m + z, z)
  {
    var s := a + m + z;
    assert s[..|a|] == a;
    assert s[|s| - |z|..] == z;
  }

  lemma EndsWithTrans(s: string, z: string, w: string)
    requires EndsWith(s, z) && EndsWith(z, w)
    ensures EndsWith(s, w)
  {
    assert s[|s| - |w|..] == s[|s| - |z|..][|z| - |w|..];
  }
}
