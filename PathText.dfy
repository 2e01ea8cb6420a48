/** Path normalisation used when comparing a saved path with the path of an
    open document: lower-case, then trim white space at both ends. */
module PathText {

  /** The characters that `Char.IsWhiteSpace` accepts, and `String.Trim`
      removes, in .NET runtimes with Unicode 6.3 or later character data:
      the control characters TAB..CR and NEL, the space separators, and the
      line and paragraph separators. (Earlier data also counts U+180E.) */
  predicate IsWhiteSpace(c: char) {
    var n := c as int;
    (0x09 <= n <= 0x0D) || n == 0x20 || n == 0x85 || n == 0xA0 || n == 0x1680 ||
    (0x2000 <= n <= 0x200A) || n == 0x2028 || n == 0x2029 || n == 0x202F ||
    n == 0x205F || n == 0x3000
  }

  predicate AllWhiteSpace(s: string) {
    forall i :: 0 <= i < |s| ==> IsWhiteSpace(s[i])
  }

  /** Lower-casing of one character, restricted to the ASCII letters. */
  function LowerChar(c: char): char {
    if 'A' <= c <= 'Z' then (c as int + 32) as char else c
  }

  function ToLower(s: string): (r: string)
    ensures |r| == |s|
  {
    seq(|s|, i requires 0 <= i < |s| => LowerChar(s[i]))
  }

  /** Number of white-space characters at the start of `s`. */
  function LeadingWhiteSpace(s: string): (n: nat)
    ensures n <= |s|
    ensures forall i :: 0 <= i < n ==> IsWhiteSpace(s[i])
    ensures n == |s| || !IsWhiteSpace(s[n])
  {
    if s != [] && IsWhiteSpace(s[0]) then 1 + LeadingWhiteSpace(s[1..]) else 0
  }

  /** Number of white-space characters at the end of `s`. */
  function TrailingWhiteSpace(s: string): (n: nat)
    ensures n <= |s|
    ensures forall i :: |s| - n <= i < |s| ==> IsWhiteSpace(s[i])
    ensures n == |s| || !IsWhiteSpace(s[|s| - n - 1])
  {
    if s != [] && IsWhiteSpace(s[|s| - 1]) then 1 + TrailingWhiteSpace(s[..|s| - 1]) else 0
  }

  /** Removes leading and trailing white space. */
  function Trim(s: string): (r: string)
    ensures |r| <= |s|
    ensures r == [] || (!IsWhiteSpace(r[0]) && !IsWhiteSpace(r[|r| - 1]))
  {
    var t := s[LeadingWhiteSpace(s)..];
    t[..|t| - TrailingWhiteSpace(t)]
  }

  /** The comparison key of a path: lower-cased, then trimmed. */
  function Normalize(s: string): (r: string)
    ensures |r| <= |s|
    ensures r == [] || (!IsWhiteSpace(r[0]) && !IsWhiteSpace(r[|r| - 1]))
  {
    Trim(ToLower(s))
  }

  lemma LowerCharKeepsWhiteSpace(c: char)
    ensures IsWhiteSpace(LowerChar(c)) == IsWhiteSpace(c)
  {
  }

  lemma ToLowerIdempotent(s: string)
    ensures ToLower(ToLower(s)) == ToLower(s)
  {
  }

  lemma ToLowerAppend(a: string, b: string)
    ensures ToLower(a + b) == ToLower(a) + ToLower(b)
  {
  }

  lemma ToLowerKeepsAllWhiteSpace(s: string)
    requires AllWhiteSpace(s)
    ensures AllWhiteSpace(ToLower(s))
  {
    forall i | 0 <= i < |s| ensures IsWhiteSpace(ToLower(s)[i]) {
      LowerCharKeepsWhiteSpace(s[i]);
    }
  }

  /** A trimmed string is left alone by a second trim. */
  lemma TrimIdempotent(s: string)
    ensures Trim(Trim(s)) == Trim(s)
  {
    var r := Trim(s);
    assert LeadingWhiteSpace(r) == 0;
    assert r[0..] == r;
    assert TrailingWhiteSpace(r) == 0;
  }

  lemma {:induction false} LeadingWhiteSpaceOfWhitePrefix(a: string, b: string)
    requires AllWhiteSpace(a)
    ensures LeadingWhiteSpace(a + b) == |a| + LeadingWhiteSpace(b)
    decreases |a|
  {
    if a != [] {
      assert (a + b)[1..] == a[1..] + b;
      LeadingWhiteSpaceOfWhitePrefix(a[1..], b);
    } else {
      assert a + b == b;
    }
  }

  lemma {:induction false} TrailingWhiteSpaceOfWhiteSuffix(a: string, b: string)
    requires AllWhiteSpace(b)
    ensures TrailingWhiteSpace(a + b) == |b| + TrailingWhiteSpace(a)
    decreases |b|
  {
    if b != [] {
      var b' := b[..|b| - 1];
      assert (a + b)[..|a + b| - 1] == a + b';
      TrailingWhiteSpaceOfWhiteSuffix(a, b');
    } else {
      assert a + b == a;
    }
  }

  lemma {:induction false} LeadingWhiteSpaceStopsInside(a: string, b: string)
    requires LeadingWhiteSpace(a) < |a|
    ensures LeadingWhiteSpace(a + b) == LeadingWhiteSpace(a)
    decreases |a|
  {
    if IsWhiteSpace(a[0]) {
      assert (a + b)[1..] == a[1..] + b;
      LeadingWhiteSpaceStopsInside(a[1..], b);
    }
  }

  /** White space in front of a string does not change its trimmed form. */
  lemma TrimIgnoresWhitePrefix(pre: string, s: string)
    requires AllWhiteSpace(pre)
    ensures Trim(pre + s) == Trim(s)
  {
    LeadingWhiteSpaceOfWhitePrefix(pre, s);
    assert (pre + s)[|pre| + LeadingWhiteSpace(s)..] == s[LeadingWhiteSpace(s)..];
  }

  lemma TrimOfAllWhiteSpace(s: string)
    requires AllWhiteSpace(s)
    ensures Trim(s) == []
  {
    LeadingWhiteSpaceOfWhitePrefix(s, []);
    assert s + [] == s;
  }

  lemma TrimBy(x: string, a: nat, b: nat)
    requires a == LeadingWhiteSpace(x) && b == TrailingWhiteSpace(x[a..])
    ensures a + b <= |x| && Trim(x) == x[a..|x| - b]
  {
    var t := x[a..];
    assert Trim(x) == t[..|t| - b];
    assert t[..|t| - b] == x[a..|x| - b];
  }

  lemma SliceOfAppend(a: string, b: string, i: nat, j: nat)
    requires i <= j <= |a|
    ensures (a + b)[i..] == a[i..] + b
    ensures (a + b)[i..j] == a[i..j]
  {
  }

  lemma TrimIgnoresWhiteSuffixInside(s: string, post: string, l: nat)
    requires AllWhiteSpace(post)
    requires l == LeadingWhiteSpace(s) && l < |s|
    ensures Trim(s + post) == Trim(s)
  {
    var t := s[l..];
    var b := TrailingWhiteSpace(t);
    TrimBy(s, l, b);
    var x := s + post;
    LeadingWhiteSpaceStopsInside(s, post);
    SliceOfAppend(s, post, l, |s| - b);
    assert x[l..] == t + post;
    TrailingWhiteSpaceOfWhiteSuffix(t, post);
    assert TrailingWhiteSpace(x[l..]) == |post| + b;
    TrimBy(x, l, |post| + b);
    assert |x| - (|post| + b) == |s| - b;
  }

  /** White space after a string does not change its trimmed form. */
  lemma TrimIgnoresWhiteSuffix(s: string, post: string)
    requires AllWhiteSpace(post)
    ensures Trim(s + post) == Trim(s)
  {
    var l := LeadingWhiteSpace(s);
    if l == |s| {
      assert s[..l] == s;
      assert AllWhiteSpace(s + post);
      TrimOfAllWhiteSpace(s + post);
      TrimOfAllWhiteSpace(s);
    } else {
      TrimIgnoresWhiteSuffixInside(s, post, l);
    }
  }

  /** Lower-casing changes exactly the ASCII capitals, each into its small
      letter, and leaves none. */
  lemma ToLowerFoldsAsciiCapitals(s: string)
    ensures forall i :: 0 <= i < |s| ==> (ToLower(s)[i] == s[i] <==> !('A' <= s[i] <= 'Z'))
    ensures forall i :: 0 <= i < |s| && 'A' <= s[i] <= 'Z' ==> ToLower(s)[i] as int == s[i] as int + 32
    ensures forall i :: 0 <= i < |s| ==> !('A' <= ToLower(s)[i] <= 'Z')
  {
  }

  /** The two characters are equal, or one is an ASCII capital and the other
      its small letter. */
  predicate SameUpToAsciiCase(a: char, b: char) {
    a == b || ('A' <= a <= 'Z' && b as int == a as int + 32) ||
    ('A' <= b <= 'Z' && a as int == b as int + 32)
  }

  /** Paths that differ only in the ASCII case of their letters have the
      same key. */
  lemma NormalizeCaseInsensitive(s: string, t: string)
    requires |s| == |t|
    requires forall i :: 0 <= i < |s| ==> SameUpToAsciiCase(s[i], t[i])
    ensures Normalize(s) == Normalize(t)
  {
    assert ToLower(s) == ToLower(t);
  }

  /** A string without white space at either end is its own trimmed form. */
  lemma TrimKeepsTrimmed(s: string)
    requires s == [] || (!IsWhiteSpace(s[0]) && !IsWhiteSpace(s[|s| - 1]))
    ensures Trim(s) == s
  {
    assert s[0..] == s;
  }

  /** The trimmed string is the input with a run of white space removed from
      each end; together with the ends of `Trim`'s result not being white
      space, this fixes the result. */
  lemma TrimIsSlice(s: string)
    ensures exists a, b :: (0 <= a <= b <= |s| && Trim(s) == s[a..b] &&
                            AllWhiteSpace(s[..a]) && AllWhiteSpace(s[b..]))
  {
    var a := LeadingWhiteSpace(s);
    var t := s[a..];
    var n := TrailingWhiteSpace(t);
    var b := |s| - n;
    TrimBy(s, a, n);
    assert AllWhiteSpace(s[..a]);
    forall i | 0 <= i < |s| - b ensures IsWhiteSpace(s[b..][i]) {
      assert s[b..][i] == t[|t| - n + i];
    }
  }

  /** The key is the lower-cased path with a run of white space removed from
      each end: it keeps the path's content. */
  lemma NormalizeIsSlice(s: string)
    ensures exists a, b :: (0 <= a <= b <= |s| && Normalize(s) == ToLower(s)[a..b] &&
                            AllWhiteSpace(ToLower(s)[..a]) && AllWhiteSpace(ToLower(s)[b..]))
  {
    TrimIsSlice(ToLower(s));
  }

  /** A lower-case path without white space at either end is its own key. */
  lemma NormalizeKeepsKey(s: string)
    requires ToLower(s) == s
    requires s == [] || (!IsWhiteSpace(s[0]) && !IsWhiteSpace(s[|s| - 1]))
    ensures Normalize(s) == s
  {
    TrimKeepsTrimmed(s);
  }

  /** Normalising twice gives the same key as normalising once. */
  lemma NormalizeIdempotent(s: string)
    ensures Normalize(Normalize(s)) == Normalize(s)
  {
    var r := Normalize(s);
    assert ToLower(r) == r;
    TrimIdempotent(ToLower(s));
  }

  /** The key does not depend on the ASCII case of the input. */
  lemma NormalizeIgnoresCase(s: string)
    ensures Normalize(ToLower(s)) == Normalize(s)
  {
    ToLowerIdempotent(s);
  }

  /** The key does not depend on white space around the input. */
  lemma NormalizeIgnoresSurroundingWhiteSpace(pre: string, s: string, post: string)
    requires AllWhiteSpace(pre) && AllWhiteSpace(post)
    ensures Normalize(pre + s + post) == Normalize(s)
  {
    ToLowerAppend(pre + s, post);
    ToLowerAppend(pre, s);
    ToLowerKeepsAllWhiteSpace(pre);
    ToLowerKeepsAllWhiteSpace(post);
    TrimIgnoresWhiteSuffix(ToLower(pre) + ToLower(s), ToLower(post));
    TrimIgnoresWhitePrefix(ToLower(pre), ToLower(s));
  }
}
