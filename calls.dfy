/**
 * One sample's genotype calls: the `0|0` row filter, and the per-call
 * attributes read off the genotype string (the embedded score and the
 * homozygosity marker).
 */
module Calls {
  import opened Text

  /** One row of a sample column: an allele name and that sample's genotype string. */
  datatype Row = Row(allele: string, genotype: string)

  /** The three characters of `g` from `k` on are `a|a` (the marker of a genotype with both haplotypes `a`). */
  ghost predicate MarkerAt(g: string, k: int, a: char)
  {
    0 <= k && k + 3 <= |g| && g[k] == a && g[k + 1] == '|' && g[k + 2] == a
  }

  lemma MarkerIsOccurrence(g: string, a: char)
    ensures (exists k :: OccursAt([a, '|', a], g, k)) <==> (exists k :: MarkerAt(g, k, a))
  {
    if exists k :: OccursAt([a, '|', a], g, k) {
      var k :| OccursAt([a, '|', a], g, k);
      assert g[k..k + 3][0] == g[k] && g[k..k + 3][1] == g[k + 1] && g[k..k + 3][2] == g[k + 2];
      assert MarkerAt(g, k, a);
    }
    if exists k :: MarkerAt(g, k, a) {
      var k :| MarkerAt(g, k, a);
      assert g[k..k + 3] == [a, '|', a];
      assert OccursAt([a, '|', a], g, k);
    }
  }

  /** A row is a call when its genotype has no `0|0` anywhere in it. */
  function KeepCall(genotype: string): (keep: bool)
    ensures keep <==> forall k :: !MarkerAt(genotype, k, '0')
  {
    MarkerIsOccurrence(genotype, '0');
    !Contains(genotype, "0|0")
  }

  /** The rows of one sample column whose genotype passes `KeepCall`, in their original order. */
  function FilterSample(rows: seq<Row>): (kept: seq<Row>)
    ensures forall r :: r in kept <==> r in rows && KeepCall(r.genotype)
  {
    if rows == [] then []
    else
      var init := rows[..|rows| - 1];
      var last := rows[|rows| - 1];
      assert rows == init + [last];
      FilterSample(init) + if KeepCall(last.genotype) then [last] else []
  }

  lemma FilterAppend(rows: seq<Row>, last: Row)
    ensures FilterSample(rows + [last]) == FilterSample(rows) + if KeepCall(last.genotype) then [last] else []
  {
    assert (rows + [last])[..|rows|] == rows;
  }

  /** The filter keeps every call as many times as it occurs and drops every other row. */
  lemma {:induction false} FilterCounts(rows: seq<Row>)
    ensures forall r :: multiset(FilterSample(rows))[r] == if KeepCall(r.genotype) then multiset(rows)[r] else 0
  {
    if rows != [] {
      var init := rows[..|rows| - 1];
      var last := rows[|rows| - 1];
      assert rows == init + [last];
      FilterCounts(init);
      FilterAppend(init, last);
    }
  }

  /** Filtering an already filtered column changes nothing. */
  lemma {:induction false} FilterIdempotent(rows: seq<Row>)
    ensures FilterSample(FilterSample(rows)) == FilterSample(rows)
  {
    if rows != [] {
      var init := rows[..|rows| - 1];
      var last := rows[|rows| - 1];
      assert rows == init + [last];
      FilterIdempotent(init);
      var f := FilterSample(init);
      FilterAppend(init, last);
      if KeepCall(last.genotype) {
        FilterAppend(f, last);
        calc {
          FilterSample(FilterSample(rows));
          FilterSample(f + [last]);
          FilterSample(f) + [last];
          f + [last];
        }
      } else {
        assert FilterSample(rows) == f;
      }
    }
  }

  /** A call is homozygous when its genotype holds `1|1` somewhere. */
  function IsHomozygous(genotype: string): (h: bool)
    ensures h <==> exists k :: MarkerAt(genotype, k, '1')
  {
    MarkerIsOccurrence(genotype, '1');
    Contains(genotype, "1|1")
  }

  predicate IsDigit(c: char)
  {
    '0' <= c <= '9'
  }

  predicate AllDigits(s: string)
  {
    forall i :: 0 <= i < |s| ==> IsDigit(s[i])
  }

  /**
   * The number syntax of the score pattern: digits, optionally preceded by
   * a (possibly empty) run of digits and a point, as in `998`, `0.998`, `.5`.
   */
  predicate IsNumber(t: string)
  {
    || (|t| > 0 && AllDigits(t))
    || (exists p :: 0 <= p < |t| - 1 && t[p] == '.' && AllDigits(t[..p]) && AllDigits(t[p + 1..]))
  }

  /** A number field delimited by colons: `:` at `p`, the text `t`, then `:` again. */
  ghost predicate FieldAt(g: string, p: int, t: string)
  {
    0 <= p && p + |t| + 1 < |g| && g[p] == ':' && g[p + 1..p + 1 + |t|] == t && g[p + 1 + |t|] == ':' && IsNumber(t)
  }

  /** The index of the first `:` at or after `i`, or `|g|` when there is none. */
  function NextColon(g: string, i: nat): (q: nat)
    requires i <= |g|
    ensures i <= q <= |g|
    ensures q < |g| ==> g[q] == ':'
    ensures forall j :: i <= j < q ==> g[j] != ':'
    decreases |g| - i
  {
    if i == |g| || g[i] == ':' then i else NextColon(g, i + 1)
  }

  /** A number has no colon in it, so the field starting at a colon ends at the next one. */
  lemma FieldEndsAtNextColon(g: string, p: int, t: string)
    requires FieldAt(g, p, t)
    ensures t == g[p + 1..NextColon(g, p + 1)]
  {
    var q := NextColon(g, p + 1);
    assert forall i :: 0 <= i < |t| ==> t[i] != ':' by {
      if !(|t| > 0 && AllDigits(t)) {
        var d :| 0 <= d < |t| - 1 && t[d] == '.' && AllDigits(t[..d]) && AllDigits(t[d + 1..]);
        forall i | 0 <= i < |t| ensures t[i] != ':' {
          if i < d { assert t[..d][i] == t[i]; }
          if i > d { assert t[d + 1..][i - d - 1] == t[i]; }
        }
      }
    }
    assert forall i :: p + 1 <= i < p + 1 + |t| ==> g[i] == t[i - p - 1];
    assert q == p + 1 + |t|;
  }

  /** The colon at `from` opens a number field that ends at the next colon. */
  predicate FieldStartsAt(g: string, from: nat)
    requires from < |g|
  {
    g[from] == ':' && NextColon(g, from + 1) < |g| && IsNumber(g[from + 1..NextColon(g, from + 1)])
  }

  /** Where a field starts, it is the text up to the next colon; elsewhere no field starts. */
  lemma FieldStartsAtExactly(g: string, from: nat)
    requires from < |g|
    ensures FieldStartsAt(g, from) ==> FieldAt(g, from, g[from + 1..NextColon(g, from + 1)])
    ensures !FieldStartsAt(g, from) ==> forall t :: !FieldAt(g, from, t)
  {
    forall t | FieldAt(g, from, t)
      ensures FieldStartsAt(g, from)
    {
      FieldEndsAtNextColon(g, from, t);
    }
  }

  /** The leftmost colon-delimited number field at or after position `from`. */
  function FieldSearch(g: string, from: nat): (r: Option<string>)
    requires from <= |g|
    ensures r.None? ==> forall p, t :: from <= p ==> !FieldAt(g, p, t)
    ensures r.Some? ==> exists p :: from <= p && FieldAt(g, p, r.value) && forall p', t' :: from <= p' < p ==> !FieldAt(g, p', t')
    decreases |g| - from
  {
    if from == |g| then None
    else
      FieldStartsAtExactly(g, from);
      if FieldStartsAt(g, from) then Some(g[from + 1..NextColon(g, from + 1)])
      else FieldSearch(g, from + 1)
  }

  /**
   * The text of the score: the first match of the pattern
   * colon, number, colon in the genotype string (its first group).
   */
  function ScoreText(genotype: string): (r: Option<string>)
    ensures r.None? <==> forall p, t :: !FieldAt(genotype, p, t)
    ensures r.Some? ==> IsNumber(r.value) && exists p :: FieldAt(genotype, p, r.value) && forall p', t' :: p' < p ==> !FieldAt(genotype, p', t')
  {
    FieldSearch(genotype, 0)
  }

  function Pow10(n: nat): (r: nat)
    ensures r > 0
  {
    if n == 0 then 1 else 10 * Pow10(n - 1)
  }

  /** The value of a run of decimal digits. */
  function DigitsValue(s: string): (v: nat)
    requires AllDigits(s)
    ensures v < Pow10(|s|)
  {
    if s == [] then 0
    else DigitsValue(s[..|s| - 1]) * 10 + (s[|s| - 1] as int - '0' as int)
  }

  /** The index of the first `.` in `t`, or `|t|` when there is none. */
  function FirstDot(t: string): (p: nat)
    ensures p <= |t|
    ensures p < |t| ==> t[p] == '.'
    ensures forall j :: 0 <= j < p ==> t[j] != '.'
  {
    if t == [] then 0
    else if t[0] == '.' then 0
    else 1 + FirstDot(t[1..])
  }

  /** A number that is not all digits splits at its first `.`. */
  lemma NumberSplitsAtFirstDot(t: string)
    requires IsNumber(t) && !(|t| > 0 && AllDigits(t))
    ensures FirstDot(t) < |t| - 1 && AllDigits(t[..FirstDot(t)]) && AllDigits(t[FirstDot(t) + 1..])
  {
    var d :| 0 <= d < |t| - 1 && t[d] == '.' && AllDigits(t[..d]) && AllDigits(t[d + 1..]);
    var p := FirstDot(t);
    assert forall j :: 0 <= j < d ==> IsDigit(t[j]) by {
      forall j | 0 <= j < d ensures IsDigit(t[j]) {
        assert t[..d][j] == t[j];
      }
    }
    assert p == d;
  }

  /** The digits of `a` followed by those of `b` are worth `a` shifted by `|b|` places, plus `b`. */
  lemma {:induction false} DigitsAppend(a: string, b: string)
    requires AllDigits(a) && AllDigits(b)
    ensures AllDigits(a + b)
    ensures DigitsValue(a + b) == DigitsValue(a) * Pow10(|b|) + DigitsValue(b)
    decreases |b|
  {
    if b == [] {
      assert a + b == a;
    } else {
      var init := b[..|b| - 1];
      var d := b[|b| - 1] as int - '0' as int;
      assert (a + b)[..|a + b| - 1] == a + init;
      assert (a + b)[|a + b| - 1] == b[|b| - 1];
      DigitsAppend(a, init);
      assert DigitsValue(a + b) == DigitsValue(a + init) * 10 + d;
      assert DigitsValue(b) == DigitsValue(init) * 10 + d;
      assert Pow10(|b|) == 10 * Pow10(|init|);
      ShiftByOneDigit(DigitsValue(a), Pow10(|init|), DigitsValue(init), d);
    }
  }

  /**
   * The value of a number in the score syntax (the exact decimal, not a
   * float): a run of digits is worth its digits; otherwise the whole part is
   * the digits before the point, and the value is all the digits with the
   * point removed, over ten to the number of digits after the point.
   */
  function NumberValue(t: string): (v: real)
    requires IsNumber(t)
    ensures v >= 0.0
    ensures |t| > 0 && AllDigits(t) ==> v == DigitsValue(t) as real
    ensures !(|t| > 0 && AllDigits(t)) ==>
              var p := FirstDot(t);
              && p < |t| - 1 && AllDigits(t[..p]) && AllDigits(t[p + 1..]) && AllDigits(t[..p] + t[p + 1..])
              && DigitsValue(t[..p]) as real <= v < DigitsValue(t[..p]) as real + 1.0
              && v == Fraction(DigitsValue(t[..p] + t[p + 1..]), Pow10(|t| - p - 1))
  {
    if |t| > 0 && AllDigits(t) then DigitsValue(t) as real
    else
      NumberSplitsAtFirstDot(t);
      var p := FirstDot(t);
      var whole, frac := t[..p], t[p + 1..];
      var scale := Pow10(|frac|);
      PointRemoved(whole, frac);
      DigitsValue(whole) as real + Fraction(DigitsValue(frac), scale)
  }

  /** The fractional part `digits / scale`, in [0, 1) when the digits are fewer than the scale. */
  function Fraction(digits: nat, scale: nat): (f: real)
    requires scale > 0
    ensures 0.0 <= f
    ensures digits < scale ==> f < 1.0
  {
    digits as real / scale as real
  }

  /** The number `whole.frac` is worth the digits of `whole` and `frac` together over the scale of `frac`. */
  lemma PointRemoved(whole: string, frac: string)
    requires AllDigits(whole) && AllDigits(frac)
    ensures AllDigits(whole + frac)
    ensures DigitsValue(whole) as real + Fraction(DigitsValue(frac), Pow10(|frac|))
            == Fraction(DigitsValue(whole + frac), Pow10(|frac|))
  {
    DigitsAppend(whole, frac);
    FractionSplit(DigitsValue(whole), DigitsValue(frac), Pow10(|frac|), DigitsValue(whole + frac));
  }

  /** Appending one digit to both parts of `x * y + z` multiplies the shift by ten. */
  lemma ShiftByOneDigit(x: int, y: int, z: int, d: int)
    ensures (x * y + z) * 10 + d == x * (10 * y) + (z * 10 + d)
  {
  }

  /** Over a scale, a whole part shifted by the scale plus some digits splits into the whole part and a fraction. */
  lemma FractionSplit(whole: nat, digits: nat, scale: nat, n: nat)
    requires scale > 0 && n == whole * scale + digits
    ensures Fraction(n, scale) == whole as real + Fraction(digits, scale)
  {
    var w, d, sc := whole as real, digits as real, scale as real;
    assert n as real == w * sc + d;
    calc {
      Fraction(n, scale);
      (w * sc + d) / sc;
      w * sc / sc + d / sc;
      { assert w * sc / sc == w; }
      w + Fraction(digits, scale);
    }
  }

  /** The score of a call, or `None` when its genotype has no colon-delimited number. */
  function ScoreOf(genotype: string): (s: Option<real>)
    ensures s.Some? <==> ScoreText(genotype).Some?
  {
    match ScoreText(genotype)
    case None => None
    case Some(t) => Some(NumberValue(t))
  }

  /** Away from a colon no field starts: the search moves on. */
  lemma SearchSkips(g: string, from: nat)
    requires from < |g| && g[from] != ':'
    ensures FieldSearch(g, from) == FieldSearch(g, from + 1)
  {
  }

  /** At a colon followed by a number and a colon, the search stops with that number. */
  lemma SearchStops(g: string, from: nat, t: string)
    requires from + |t| + 1 < |g| && g[from] == ':' && g[from + 1..from + 1 + |t|] == t && g[from + 1 + |t|] == ':'
    requires IsNumber(t)
    ensures FieldSearch(g, from) == Some(t)
  {
    FieldEndsAtNextColon(g, from, t);
  }

  /** Values of numbers in the score syntax, with and without digits before the point. */
  lemma NumberValueExamples()
    ensures NumberValue("0.998") == 0.998
    ensures NumberValue(".5") == 0.5
  {
    var t := "0.998";
    assert t[1] == '.' && t[..1] == "0" && t[2..] == "998";
    assert FirstDot(t) == 1;
    assert "998"[..2] == "99" && "99"[..1] == "9" && "9"[..0] == "";
    assert DigitsValue("998") == 998;
    assert Fraction(998, 1000) == 0.998;
    var u := ".5";
    assert u[0] == '.' && u[..0] == "" && u[1..] == "5";
    assert FirstDot(u) == 0;
    assert DigitsValue("5") == 5;
    assert Fraction(5, 10) == 0.5;
  }

  /** A decimal score: `1|1:0.998:0.5` scores 0.998, the first field. */
  lemma ScoreExampleDecimal()
    ensures ScoreOf("1|1:0.998:0.5") == Some(0.998)
  {
    var g := "1|1:0.998:0.5";
    var t := "0.998";
    assert t[1] == '.' && t[..1] == "0" && t[2..] == "998";
    assert IsNumber(t);
    assert g[4..9] == t;
    SearchStops(g, 3, t);
    SearchSkips(g, 2);
    SearchSkips(g, 1);
    SearchSkips(g, 0);
    NumberValueExamples();
  }

  /** A number may start at its point: `0|1:.5:` scores 0.5. */
  lemma ScoreExampleLeadingPoint()
    ensures ScoreOf("0|1:.5:") == Some(0.5)
  {
    var g := "0|1:.5:";
    var t := ".5";
    assert t[0] == '.' && t[..0] == "" && t[1..] == "5";
    assert IsNumber(t);
    assert g[4..6] == t;
    SearchStops(g, 3, t);
    SearchSkips(g, 2);
    SearchSkips(g, 1);
    SearchSkips(g, 0);
    NumberValueExamples();
  }

  /** A field that is not a number is passed over: `1|0:x:12:` scores 12. */
  lemma ScoreExampleSkipsText()
    ensures ScoreOf("1|0:x:12:") == Some(12.0)
  {
    var g := "1|0:x:12:";
    var t := "12";
    assert AllDigits(t);
    assert g[6..8] == t;
    SearchStops(g, 5, t);
    SearchSkips(g, 4);
    assert NextColon(g, 4) == 5;
    assert g[4..5] == "x";
    assert !IsNumber("x");
    assert !FieldStartsAt(g, 3);
    SearchSkips(g, 2);
    SearchSkips(g, 1);
    SearchSkips(g, 0);
    assert DigitsValue(t) == 12;
  }

  /** A number must be closed by a colon: `1|1:0.998` has no score. */
  lemma ScoreExampleUnclosed()
    ensures ScoreOf("1|1:0.998") == None
  {
    var g := "1|1:0.998";
    assert forall p, t :: !FieldAt(g, p, t) by {
      forall p, t | FieldAt(g, p, t) ensures false {
        FieldEndsAtNextColon(g, p, t);
      }
    }
  }
}
