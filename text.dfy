/**
 * String primitives the allele resolver relies on: Python's substring test
 * `x in y`, Python's ordering of `str` values, and the sorted list of the
 * distinct strings of a sequence (what `sorted(... .unique())` yields).
 */
module Text {

  datatype Option<T> = None | Some(value: T)

  /** `x` occurs in `y` starting at offset `k`. */
  ghost predicate OccursAt(x: string, y: string, k: int)
  {
    0 <= k && k + |x| <= |y| && y[k..k + |x|] == x
  }

  /** Python's `x in y` on two strings: `x` is a contiguous piece of `y`. */
  function Contains(y: string, x: string): (b: bool)
    ensures b <==> exists k :: OccursAt(x, y, k)
    decreases |y|
  {
    if |x| > |y| then false
    else if x <= y then
      assert OccursAt(x, y, 0);
      true
    else
      ContainsStep(x, y);
      Contains(y[1..], x)
  }

  /** When `x` is not a prefix of `y`, it occurs in `y` iff it occurs in `y[1..]`. */
  lemma ContainsStep(x: string, y: string)
    requires |x| <= |y| && !(x <= y)
    ensures |y| > 0
    ensures (exists k :: OccursAt(x, y, k)) <==> (exists k :: OccursAt(x, y[1..], k))
  {
    if exists k :: OccursAt(x, y, k) {
      var k :| OccursAt(x, y, k);
      assert y[1..][k - 1..k - 1 + |x|] == y[k..k + |x|];
      assert OccursAt(x, y[1..], k - 1);
    }
    if exists k :: OccursAt(x, y[1..], k) {
      var k :| OccursAt(x, y[1..], k);
      assert y[1..][k..k + |x|] == y[k + 1..k + 1 + |x|];
      assert OccursAt(x, y, k + 1);
    }
  }

  /** Every string contains itself. */
  lemma ContainsSelf(x: string)
    ensures Contains(x, x)
  {
    assert OccursAt(x, x, 0);
  }

  /** A string that contains `x` and differs from it is strictly longer. */
  lemma ContainedIsShorter(x: string, y: string)
    requires Contains(y, x) && x != y
    ensures |x| < |y|
  {
    var k :| OccursAt(x, y, k);
  }

  /** Containment is antisymmetric: two strings that contain each other are equal. */
  lemma ContainsAntisymmetric(x: string, y: string)
    requires Contains(y, x) && Contains(x, y)
    ensures x == y
  {
    if x != y {
      ContainedIsShorter(x, y);
      ContainedIsShorter(y, x);
    }
  }

  /** Python's `a < b` on strings: code point by code point, a proper prefix first. */
  predicate Below(a: string, b: string)
    decreases |a|
  {
    if |a| == 0 then |b| > 0
    else |b| > 0 && (a[0] < b[0] || (a[0] == b[0] && Below(a[1..], b[1..])))
  }

  lemma {:induction false} BelowIrreflexive(a: string)
    ensures !Below(a, a)
    decreases |a|
  {
    if |a| > 0 {
      BelowIrreflexive(a[1..]);
    }
  }

  lemma {:induction false} BelowTransitive(a: string, b: string, c: string)
    requires Below(a, b) && Below(b, c)
    ensures Below(a, c)
    decreases |a|
  {
    if |a| > 0 && a[0] == b[0] && b[0] == c[0] {
      BelowTransitive(a[1..], b[1..], c[1..]);
    }
  }

  lemma {:induction false} BelowTotal(a: string, b: string)
    requires a != b
    ensures Below(a, b) || Below(b, a)
    decreases |a|
  {
    if |a| > 0 && |b| > 0 && a[0] == b[0] {
      assert a == [a[0]] + a[1..] && b == [b[0]] + b[1..];
      BelowTotal(a[1..], b[1..]);
    }
  }

  lemma BelowAsymmetric(a: string, b: string)
    requires Below(a, b)
    ensures !Below(b, a)
  {
    if Below(b, a) {
      BelowTransitive(a, b, a);
      BelowIrreflexive(a);
    }
  }

  /** Strictly ascending in Python's string order, hence without repetition. */
  ghost predicate StrictlySorted(s: seq<string>)
  {
    forall i, j :: 0 <= i < j < |s| ==> Below(s[i], s[j])
  }

  /** Puts `x` into its place in a strictly sorted list, unless it is already there. */
  function Insert(s: seq<string>, x: string): (r: seq<string>)
    requires StrictlySorted(s)
    ensures StrictlySorted(r)
    ensures forall y :: y in r <==> y in s || y == x
    ensures |r| <= |s| + 1
  {
    if s == [] then [x]
    else if x == s[0] then s
    else if Below(x, s[0]) then
      assert forall j :: 0 < j < |s| ==> Below(s[0], s[j]);
      forall j | 0 <= j < |s| ensures Below(x, s[j]) {
        if j > 0 { BelowTransitive(x, s[0], s[j]); }
      }
      [x] + s
    else
      BelowTotal(x, s[0]);
      var rest := Insert(s[1..], x);
      assert forall y :: y in rest ==> Below(s[0], y);
      [s[0]] + rest
  }

  /** The distinct strings of `xs`, in ascending order: `sorted(set(xs))`. */
  function SortedDistinct(xs: seq<string>): (r: seq<string>)
    ensures StrictlySorted(r)
    ensures forall y :: y in r <==> y in xs
    ensures |r| <= |xs|
  {
    if xs == [] then []
    else Insert(SortedDistinct(xs[..|xs| - 1]), xs[|xs| - 1])
  }
}
