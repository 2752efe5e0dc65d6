/** String helpers: suffix test and single-character replacement, as Python's `str.endswith` and `str.replace`. */
module Text {

  predicate EndsWith(s: string, suffix: string) {
    |suffix| <= |s| && s[|s| - |suffix|..] == suffix
  }

  /** A concatenation ends with its second part. */
  lemma EndsWithConcat(a: string, b: string)
    ensures EndsWith(a + b, b)
  {
    assert (a + b)[|a + b| - |b|..] == b;
  }

  /** The pieces of a three-part concatenation: the first is a prefix, the last two form a suffix. */
  lemma ThreeParts(a: string, b: string, c: string)
    ensures a <= a + b + c
    ensures EndsWith(a + b + c, b + c) && EndsWith(a + b + c, c)
  {
    assert a + b + c == a + (b + c);
    EndsWithConcat(a, b + c);
    EndsWithConcat(a + b, c);
  }

  /** Every occurrence of `c` in `s` replaced by `t`, left to right; other characters kept. */
  function ReplaceChar(s: string, c: char, t: string): (r: string)
    ensures c !in t ==> c !in r
    ensures forall d :: d in r ==> d in s || d in t
    ensures c !in s ==> r == s
    ensures s == [] ==> r == []
    ensures |s| == 1 ==> r == (if s[0] == c then t else s)
  {
    if s == [] then []
    else (if s[0] == c then t else [s[0]]) + ReplaceChar(s[1..], c, t)
  }

  /** Replacement works piecewise: replacing in a concatenation concatenates the replacements. */
  lemma {:induction false} ReplaceCharAppend(a: string, b: string, c: char, t: string)
    ensures ReplaceChar(a + b, c, t) == ReplaceChar(a, c, t) + ReplaceChar(b, c, t)
  {
    if a != [] {
      var h := if a[0] == c then t else [a[0]];
      assert (a + b)[0] == a[0];
      assert (a + b)[1..] == a[1..] + b;
      assert ReplaceChar(a + b, c, t) == h + ReplaceChar(a[1..] + b, c, t);
      assert ReplaceChar(a, c, t) == h + ReplaceChar(a[1..], c, t);
      ReplaceCharAppend(a[1..], b, c, t);
      assert h + (ReplaceChar(a[1..], c, t) + ReplaceChar(b, c, t))
          == (h + ReplaceChar(a[1..], c, t)) + ReplaceChar(b, c, t);
    } else {
      assert a + b == b;
    }
  }
}
