/** The pieces of Rust's `str` API that the program relies on, over `seq<char>`. */
module Text {

  /** `str::replace(pat, rep)` for a single-character pattern. */
  function Replace(s: string, pat: char, rep: string): string
  {
    if s == [] then [] else (if s[0] == pat then rep else [s[0]]) + Replace(s[1..], pat, rep)
  }

  /** Number of occurrences of `c` in `s`. */
  function Count(s: string, c: char): nat
  {
    if s == [] then 0 else (if s[0] == c then 1 else 0) + Count(s[1..], c)
  }

  lemma {:induction false} ReplaceAppend(a: string, b: string, pat: char, rep: string)
    ensures Replace(a + b, pat, rep) == Replace(a, pat, rep) + Replace(b, pat, rep)
  {
    if a != [] {
      assert (a + b)[1..] == a[1..] + b;
      ReplaceAppend(a[1..], b, pat, rep);
    } else {
      assert a + b == b;
    }
  }

  lemma ReplaceSingle(c: char, pat: char, rep: string)
    ensures Replace([c], pat, rep) == if c == pat then rep else [c]
  {
    assert [c][1..] == [];
  }

  /** Replacing by one character keeps the length and rewrites exactly the occurrences of `pat`. */
  lemma {:induction false} ReplaceByChar(s: string, pat: char, d: char)
    ensures |Replace(s, pat, [d])| == |s|
    ensures forall i :: 0 <= i < |s| ==> Replace(s, pat, [d])[i] == if s[i] == pat then d else s[i]
  {
    if s != [] {
      ReplaceByChar(s[1..], pat, d);
    }
  }

  /** Replacing `pat` removes every occurrence of it unless the replacement reintroduces it. */
  lemma {:induction false} ReplaceRemoves(s: string, pat: char, rep: string)
    requires pat !in rep
    ensures pat !in Replace(s, pat, rep)
    ensures |Replace(s, pat, rep)| == |s| + (|rep| - 1) * Count(s, pat)
  {
    if s != [] {
      ReplaceRemoves(s[1..], pat, rep);
    }
  }

  /** Replacing a character that does not occur changes nothing. */
  lemma {:induction false} ReplaceAbsent(s: string, pat: char, rep: string)
    requires pat !in s
    ensures Replace(s, pat, rep) == s
  {
    if s != [] {
      assert s == [s[0]] + s[1..];
      ReplaceAbsent(s[1..], pat, rep);
    }
  }

  /** `char::is_whitespace`: the Unicode White_Space property. */
  predicate IsWhitespace(c: char)
  {
    || ('\t' <= c <= '\r') || c == ' ' || c == '\U{0085}' || c == '\U{00A0}' || c == '\U{1680}'
    || ('\U{2000}' <= c <= '\U{200A}') || c == '\U{2028}' || c == '\U{2029}' || c == '\U{202F}'
    || c == '\U{205F}' || c == '\U{3000}'
  }

  function TrimStart(s: string): string
  {
    if s != [] && IsWhitespace(s[0]) then TrimStart(s[1..]) else s
  }

  function TrimEnd(s: string): string
  {
    if s != [] && IsWhitespace(s[|s| - 1]) then TrimEnd(s[..|s| - 1]) else s
  }

  /** `str::trim`: leading and trailing whitespace removed. */
  function Trim(s: string): string
  {
    TrimEnd(TrimStart(s))
  }

  /** `Iterator::take(n)` on the characters of a string. */
  function Take(s: string, n: nat): (r: string)
    ensures |r| <= n && r <= s
    ensures |s| <= n ==> r == s
    ensures |s| > n ==> |r| == n
  {
    if |s| <= n then s else s[..n]
  }
}
