/** String operations the todo engine borrows from JavaScript: `trim`, ASCII
    `toLowerCase`, `includes` and the code-point order of `sort`. */
module Text {

  /** ECMAScript WhiteSpace and LineTerminator code points, the set `String.prototype.trim` removes. */
  predicate IsWhitespace(c: char) {
    var n := c as int;
    n == 0x09 || n == 0x0B || n == 0x0C || n == 0x20 || n == 0xA0 || n == 0xFEFF   // WhiteSpace
    || n == 0x1680 || (0x2000 <= n <= 0x200A) || n == 0x202F || n == 0x205F || n == 0x3000  // Zs
    || n == 0x0A || n == 0x0D || n == 0x2028 || n == 0x2029   // LineTerminator
  }

  predicate AllWhitespace(s: string) {
    forall i :: 0 <= i < |s| ==> IsWhitespace(s[i])
  }

  /** A concatenation is all whitespace exactly when both parts are. */
  lemma AllWhitespaceConcat(a: string, b: string)
    ensures AllWhitespace(a + b) <==> AllWhitespace(a) && AllWhitespace(b)
  {
    if AllWhitespace(a + b) {
      assert forall i :: 0 <= i < |a| ==> a[i] == (a + b)[i];
      assert forall i :: 0 <= i < |b| ==> b[i] == (a + b)[|a| + i];
    }
  }

  /** Drops leading whitespace: the result is the suffix of `s` after its leading whitespace. */
  function TrimStart(s: string): (r: string)
    ensures |r| <= |s| && r == s[|s| - |r|..]
    ensures AllWhitespace(s[..|s| - |r|])
    ensures r == [] || !IsWhitespace(r[0])
  {
    if s != [] && IsWhitespace(s[0]) then
      var r := TrimStart(s[1..]);
      var k := |s| - |r|;
      assert s[..k] == [s[0]] + s[1..][..k - 1];
      AllWhitespaceConcat([s[0]], s[1..][..k - 1]);
      assert s[1..][k - 1..] == s[k..];
      r
    else s
  }

  /** Drops trailing whitespace: the result is the prefix of `s` before its trailing whitespace. */
  function TrimEnd(s: string): (r: string)
    ensures |r| <= |s| && r == s[..|r|]
    ensures AllWhitespace(s[|r|..])
    ensures r == [] || !IsWhitespace(r[|r| - 1])
  {
    if s != [] && IsWhitespace(s[|s| - 1]) then
      var r := TrimEnd(s[..|s| - 1]);
      assert s[..|s| - 1][|r|..] == s[|r|..|s| - 1];
      assert s[|r|..] == s[|r|..|s| - 1] + [s[|s| - 1]];
      AllWhitespaceConcat(s[|r|..|s| - 1], [s[|s| - 1]]);
      assert s[..|s| - 1][..|r|] == s[..|r|];
      r
    else s
  }

  /** `r` is the piece of `s` starting at `i`, with only whitespace before and after it. */
  predicate PieceBetweenWhitespace(s: string, r: string, i: int) {
    0 <= i <= |s| - |r| && r == s[i..i + |r|] && AllWhitespace(s[..i]) && AllWhitespace(s[i + |r|..])
  }

  /** `String.prototype.trim`. */
  function Trim(s: string): (r: string)
    ensures exists i :: PieceBetweenWhitespace(s, r, i)
    ensures r == [] || (!IsWhitespace(r[0]) && !IsWhitespace(r[|r| - 1]))
  {
    var t := TrimStart(s);
    var r := TrimEnd(t);
    var i := |s| - |t|;
    assert s[i..] == t;
    assert r == s[i..i + |r|];
    assert s[i + |r|..] == t[|r|..];
    assert PieceBetweenWhitespace(s, r, i);
    r
  }

  /** The trimmed string is empty exactly when every character is whitespace. */
  lemma TrimEmptyIff(s: string)
    ensures Trim(s) == [] <==> AllWhitespace(s)
  {
    var r := Trim(s);
    var i :| PieceBetweenWhitespace(s, r, i);
    if r == [] {
      forall k | 0 <= k < |s| ensures IsWhitespace(s[k]) {
        if k < i { assert s[..i][k] == s[k]; } else { assert s[i..][k - i] == s[k]; }
      }
    } else {
      assert s[i] == r[0];
    }
  }

  /** A string without whitespace at either end is its own trim. */
  lemma TrimmedIsFixed(s: string)
    requires s == [] || (!IsWhitespace(s[0]) && !IsWhitespace(s[|s| - 1]))
    ensures Trim(s) == s
  {
    assert TrimStart(s) == s;
    assert TrimEnd(s) == s;
  }

  /** Trimming twice is trimming once. */
  lemma TrimIdempotent(s: string)
    ensures Trim(Trim(s)) == Trim(s)
  {
    TrimmedIsFixed(Trim(s));
  }

  /** ASCII upper-case letters to lower case; every other character is kept. */
  function LowerChar(c: char): (r: char)
    ensures !('A' <= r <= 'Z')
    ensures 'A' <= c <= 'Z' ==> r as int == c as int - 'A' as int + 'a' as int
    ensures !('A' <= c <= 'Z') ==> r == c
  {
    if 'A' <= c <= 'Z' then (c as int - 'A' as int + 'a' as int) as char else c
  }

  /** `toLowerCase`, restricted to the ASCII letters. */
  function Lower(s: string): (r: string)
    ensures |r| == |s|
    ensures forall i :: 0 <= i < |r| ==> r[i] == LowerChar(s[i])
  {
    seq(|s|, i requires 0 <= i < |s| => LowerChar(s[i]))
  }

  /** Lower-casing twice is lower-casing once, so a lower-cased query is its own lower case. */
  lemma LowerIdempotent(s: string)
    ensures Lower(Lower(s)) == Lower(s)
  {
  }

  /** The two characters are the same letter up to ASCII case, or simply equal. */
  predicate SameIgnoringCase(x: char, y: char) {
    x == y
    || ('a' <= x <= 'z' && y as int == x as int - 'a' as int + 'A' as int)
    || ('a' <= y <= 'z' && x as int == y as int - 'a' as int + 'A' as int)
  }

  predicate EqualIgnoringCase(a: string, b: string) {
    |a| == |b| && forall i :: 0 <= i < |a| ==> SameIgnoringCase(a[i], b[i])
  }

  /** Two strings lower-case alike exactly when they are equal up to ASCII case. */
  lemma LowerEqualIff(a: string, b: string)
    ensures Lower(a) == Lower(b) <==> EqualIgnoringCase(a, b)
  {
    if Lower(a) == Lower(b) {
      forall i | 0 <= i < |a| ensures SameIgnoringCase(a[i], b[i]) {
        assert LowerChar(a[i]) == Lower(a)[i] == Lower(b)[i] == LowerChar(b[i]);
      }
    }
    if EqualIgnoringCase(a, b) {
      forall i | 0 <= i < |a| ensures Lower(a)[i] == Lower(b)[i] {
        assert SameIgnoringCase(a[i], b[i]);
      }
    }
  }

  /** Every string is equal, up to case, to its own lower case. */
  lemma EqualIgnoringCaseLower(s: string)
    ensures EqualIgnoringCase(s, Lower(s))
  {
    LowerIdempotent(s);
    LowerEqualIff(s, Lower(s));
  }

  /** Lower-casing commutes with taking a slice. */
  lemma LowerSlice(s: string, i: int, j: int)
    requires 0 <= i <= j <= |s|
    ensures Lower(s[i..j]) == Lower(s)[i..j]
  {
  }

  predicate StartsWith(s: string, q: string) {
    |q| <= |s| && s[..|q|] == q
  }

  /** `q` occurs in `s` starting at index `i`. */
  predicate OccursAt(s: string, q: string, i: int) {
    0 <= i <= |s| - |q| && s[i..i + |q|] == q
  }

  /** `String.prototype.includes`: does `q` occur in `s`? */
  predicate Contains(s: string, q: string) {
    StartsWith(s, q) || (s != [] && Contains(s[1..], q))
  }

  /** `Contains` holds exactly when `q` occurs somewhere in `s`. */
  lemma {:induction false} ContainsIff(s: string, q: string)
    ensures Contains(s, q) <==> exists i :: OccursAt(s, q, i)
  {
    if StartsWith(s, q) {
      assert OccursAt(s, q, 0);
    } else if s != [] {
      ContainsIff(s[1..], q);
      if Contains(s[1..], q) {
        var i :| OccursAt(s[1..], q, i);
        assert s[1..][i..i + |q|] == s[i + 1..i + 1 + |q|];
        assert OccursAt(s, q, i + 1);
      } else {
        assert !OccursAt(s, q, 0) by {
          assert |q| <= |s| ==> s[..|q|] == s[0..|q|];
        }
        forall i | OccursAt(s, q, i) ensures false {
          if i > 0 {
            assert s[1..][i - 1..i - 1 + |q|] == s[i..i + |q|];
            assert OccursAt(s[1..], q, i - 1);
          }
        }
      }
    } else {
      assert q != [];
    }
  }

  /** A text that contains a non-empty query contains the query's first character. */
  lemma ContainsFirst(s: string, q: string)
    requires q != [] && Contains(s, q)
    ensures q[0] in s
  {
    ContainsIff(s, q);
    var i :| OccursAt(s, q, i);
    assert s[i] == s[i..i + |q|][0];
  }

  /** A literal occurrence is still an occurrence once both sides are lower-cased. */
  lemma ContainsLower(s: string, q: string)
    requires Contains(s, q)
    ensures Contains(Lower(s), Lower(q))
  {
    ContainsIff(s, q);
    var i :| OccursAt(s, q, i);
    LowerSlice(s, i, i + |q|);
    assert OccursAt(Lower(s), Lower(q), i);
    ContainsIff(Lower(s), Lower(q));
  }

  /** Code-point lexicographic order: the default order of `Array.prototype.sort` on strings. */
  predicate StrLeq(a: string, b: string) {
    if a == [] then true
    else if b == [] then false
    else if a[0] != b[0] then a[0] < b[0]
    else StrLeq(a[1..], b[1..])
  }

  lemma {:induction false} StrLeqTotal(a: string, b: string)
    ensures StrLeq(a, b) || StrLeq(b, a)
  {
    if a != [] && b != [] && a[0] == b[0] {
      StrLeqTotal(a[1..], b[1..]);
    }
  }

  lemma {:induction false} StrLeqTransitive(a: string, b: string, c: string)
    requires StrLeq(a, b) && StrLeq(b, c)
    ensures StrLeq(a, c)
  {
    if a != [] && b != [] && c != [] && a[0] == b[0] && b[0] == c[0] {
      StrLeqTransitive(a[1..], b[1..], c[1..]);
    }
  }

  lemma {:induction false} StrLeqAntisymmetric(a: string, b: string)
    requires StrLeq(a, b) && StrLeq(b, a)
    ensures a == b
  {
    if a != [] && b != [] {
      StrLeqAntisymmetric(a[1..], b[1..]);
      assert a == [a[0]] + a[1..];
      assert b == [b[0]] + b[1..];
    }
  }
}
