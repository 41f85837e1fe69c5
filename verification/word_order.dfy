/** Python's `str` ordering: lexicographic comparison by code point. */
module WordOrder {

  type Word = string

  /** `a <= b` for Python strings: a proper prefix comes first, otherwise the first differing character decides. */
  predicate WordLe(a: Word, b: Word)
    decreases |a|
  {
    |a| == 0 || (|b| > 0 && (a[0] < b[0] || (a[0] == b[0] && WordLe(a[1..], b[1..]))))
  }

  lemma {:induction false} WordLeReflexive(a: Word)
    ensures WordLe(a, a)
    decreases |a|
  {
    if |a| > 0 {
      WordLeReflexive(a[1..]);
    }
  }

  lemma {:induction false} WordLeAntisymmetric(a: Word, b: Word)
    requires WordLe(a, b) && WordLe(b, a)
    ensures a == b
    decreases |a|
  {
    if |a| > 0 {
      WordLeAntisymmetric(a[1..], b[1..]);
      assert a == [a[0]] + a[1..] && b == [b[0]] + b[1..];
    }
  }

  lemma {:induction false} WordLeTransitive(a: Word, b: Word, c: Word)
    requires WordLe(a, b) && WordLe(b, c)
    ensures WordLe(a, c)
    decreases |a|
  {
    if |a| > 0 && a[0] == b[0] && b[0] == c[0] {
      WordLeTransitive(a[1..], b[1..], c[1..]);
    }
  }

  lemma {:induction false} WordLeTotal(a: Word, b: Word)
    ensures WordLe(a, b) || WordLe(b, a)
    decreases |a|
  {
    if |a| > 0 && |b| > 0 && a[0] == b[0] {
      WordLeTotal(a[1..], b[1..]);
    }
  }
}
