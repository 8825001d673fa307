// Byte strings as the Go standard library compares and cuts them.  A `string`
// here stands for the bytes of a Go string, one `char` for each byte.
module Text {

  /** Go's `a < b` on strings: lexicographic by byte. */
  predicate StrLess(a: string, b: string) {
    if b == "" then false
    else if a == "" then true
    else if a[0] != b[0] then a[0] < b[0]
    else StrLess(a[1..], b[1..])
  }

  predicate StrLeq(a: string, b: string) {
    a == b || StrLess(a, b)
  }

  lemma {:induction false} StrLessIrreflexive(a: string)
    ensures !StrLess(a, a)
  {
    if a != "" { StrLessIrreflexive(a[1..]); }
  }

  lemma {:induction false} StrLessTransitive(a: string, b: string, c: string)
    requires StrLess(a, b) && StrLess(b, c)
    ensures StrLess(a, c)
  {
    if a != "" && a[0] == b[0] == c[0] {
      StrLessTransitive(a[1..], b[1..], c[1..]);
    }
  }

  lemma {:induction false} StrLessTotal(a: string, b: string)
    ensures a == b || StrLess(a, b) || StrLess(b, a)
    ensures !(StrLess(a, b) && StrLess(b, a))
    ensures StrLess(a, b) ==> a != b
  {
    if a != "" && b != "" && a[0] == b[0] {
      StrLessTotal(a[1..], b[1..]);
      assert a == [a[0]] + a[1..] && b == [b[0]] + b[1..];
    }
  }

  /** A common prefix does not change a comparison. */
  lemma {:induction false} StrLessUnderPrefix(p: string, a: string, b: string)
    ensures StrLess(p + a, p + b) <==> StrLess(a, b)
  {
    if p == "" {
      assert p + a == a && p + b == b;
    } else {
      StrLessUnderPrefix(p[1..], a, b);
      assert (p + a)[1..] == p[1..] + a && (p + b)[1..] == p[1..] + b;
    }
  }

  /** A difference inside both strings decides, whatever follows. */
  lemma {:induction false} StrLessExtends(a: string, b: string, x: string, y: string)
    requires StrLess(a, b) && !(a <= b)
    ensures StrLess(a + x, b + y)
  {
    if a[0] == b[0] {
      StrLessExtends(a[1..], b[1..], x, y);
      assert (a + x)[1..] == a[1..] + x && (b + y)[1..] == b[1..] + y;
    }
  }

  lemma {:induction false} PrefixIsLess(a: string, b: string)
    requires a < b
    ensures StrLess(a, b)
  {
    if a != "" {
      assert a[1..] < b[1..];
      PrefixIsLess(a[1..], b[1..]);
    }
  }

  /** Two different strings: one is a proper prefix of the other, or they first differ at a position of both. */
  lemma {:induction false} FirstDifference(a: string, b: string) returns (k: nat)
    requires StrLess(a, b)
    ensures k <= |a| && k < |b| && a[..k] == b[..k]
    ensures k < |a| ==> a[k] < b[k]
  {
    if a == "" || a[0] != b[0] {
      k := 0;
    } else {
      var j := FirstDifference(a[1..], b[1..]);
      k := j + 1;
      assert a[..k] == [a[0]] + a[1..][..j];
      assert b[..k] == [b[0]] + b[1..][..j];
    }
  }

  lemma {:induction false} LessFromDifference(a: string, b: string, k: nat)
    requires k <= |a| && k < |b| && a[..k] == b[..k]
    requires k < |a| ==> a[k] < b[k]
    ensures StrLess(a, b)
  {
    if k == 0 {
    } else {
      assert a[0] == a[..k][0] == b[..k][0] == b[0];
      assert a[1..][..k - 1] == a[..k][1..] && b[1..][..k - 1] == b[..k][1..];
      LessFromDifference(a[1..], b[1..], k - 1);
    }
  }

  predicate HasPrefix(s: string, p: string) {
    p <= s
  }

  predicate HasSuffix(s: string, p: string) {
    |p| <= |s| && s[|s| - |p|..] == p
  }

  /** `strings.TrimSuffix`: at most one occurrence goes. */
  function TrimSuffix(s: string, p: string): string {
    if HasSuffix(s, p) then s[..|s| - |p|] else s
  }

  /** `strings.TrimPrefix`: at most one occurrence goes. */
  function TrimPrefix(s: string, p: string): string {
    if HasPrefix(s, p) then s[|p|..] else s
  }

  /** `strings.Contains`. */
  predicate Contains(s: string, p: string) {
    exists i: nat {:trigger s[i..]} :: i <= |s| && p <= s[i..]
  }

  lemma ContainsByte(s: string, p: string, c: char)
    requires Contains(s, p) && c in p
    ensures c in s
  {
    var i: nat :| i <= |s| && p <= s[i..];
    var j :| 0 <= j < |p| && p[j] == c;
    assert s[i..][j] == s[i + j];
  }
}
