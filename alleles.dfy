/**
 * The allele resolver of one sample: which calls are high resolution, the
 * gene of an allele name, the two best-scoring calls, and the rule cascade
 * that turns the calls of one gene into zero or two output slots.
 */
module Alleles {
  import opened Text
  import opened Calls

  // ---------------------------------------------------------------------
  // High resolution: a name that is not contained in any other name
  // ---------------------------------------------------------------------

  /** Entry `i` of `names` is high resolution: no other entry contains it. */
  predicate IsHighRes(names: seq<string>, i: int)
    requires 0 <= i < |names|
  {
    forall j :: 0 <= j < |names| && j != i ==> !Contains(names[j], names[i])
  }

  /**
   * `find_high_res`: for every name, compare it with every name of the list,
   * discard the comparison with itself, and keep "none of them contains it".
   */
  method FindHighRes(alleleList: seq<string>) returns (highRes: seq<bool>)
    ensures |highRes| == |alleleList|
    ensures forall i :: 0 <= i < |alleleList| ==> (highRes[i] <==> IsHighRes(alleleList, i))
  {
    highRes := [];
    for i := 0 to |alleleList|
      invariant |highRes| == i
      invariant forall k :: 0 <= k < i ==> (highRes[k] <==> IsHighRes(alleleList, k))
    {
      var x := alleleList[i];
      // does name j contain name i, for every j
      var comp: seq<bool> := [];
      for j := 0 to |alleleList|
        invariant |comp| == j
        invariant forall k :: 0 <= k < j ==> comp[k] == Contains(alleleList[k], x)
      {
        comp := comp + [Contains(alleleList[j], x)];
      }
      comp := comp[i := false];  // every name contains itself: discard that entry
      assert forall k :: 0 <= k < |comp| ==> (comp[k] <==> k != i && Contains(alleleList[k], x));
      assert (true in comp) <==> exists k :: 0 <= k < |comp| && comp[k];
      highRes := highRes + [!(true in comp)];
    }
  }

  /** A name listed twice is contained in its twin, so neither copy is high resolution. */
  lemma RepeatedNameNotHighRes(names: seq<string>, i: int, j: int)
    requires 0 <= i < |names| && 0 <= j < |names| && i != j && names[i] == names[j]
    ensures !IsHighRes(names, i) && !IsHighRes(names, j)
  {
    ContainsSelf(names[i]);
  }

  /** The example of the source's documentation: the lower resolution name is covered by the higher one. */
  lemma DocumentedExample()
    ensures !IsHighRes(["A*02", "A*02:01:01:01"], 0)
    ensures IsHighRes(["A*02", "A*02:01:01:01"], 1)
  {
    var names := ["A*02", "A*02:01:01:01"];
    assert OccursAt(names[0], names[1], 0);
    assert Contains(names[1], names[0]);
  }

  ghost predicate Distinct(names: seq<string>)
  {
    forall i, j :: 0 <= i < |names| && 0 <= j < |names| && i != j ==> names[i] != names[j]
  }

  /** Among distinct names, one of maximal length is high resolution. */
  lemma LongestIsHighRes(names: seq<string>, i: int)
    requires Distinct(names)
    requires 0 <= i < |names| && forall j :: 0 <= j < |names| ==> |names[j]| <= |names[i]|
    ensures IsHighRes(names, i)
  {
    forall j | 0 <= j < |names| && j != i
      ensures !Contains(names[j], names[i])
    {
      if Contains(names[j], names[i]) {
        ContainedIsShorter(names[i], names[j]);
      }
    }
  }

  /** The position of a longest name. */
  function LongestIndex(names: seq<string>): (i: nat)
    requires |names| > 0
    ensures i < |names| && forall j :: 0 <= j < |names| ==> |names[j]| <= |names[i]|
  {
    if |names| == 1 then 0
    else
      var i := LongestIndex(names[..|names| - 1]);
      assert forall j :: 0 <= j < |names| - 1 ==> names[..|names| - 1][j] == names[j];
      if |names[|names| - 1]| > |names[i]| then |names| - 1 else i
  }

  /** A non-empty list of distinct names has at least one high resolution entry. */
  lemma SomeHighRes(names: seq<string>)
    requires Distinct(names) && |names| > 0
    ensures exists i :: 0 <= i < |names| && IsHighRes(names, i)
  {
    LongestIsHighRes(names, LongestIndex(names));
  }

  // ---------------------------------------------------------------------
  // Gene of an allele name: the run of [A-Z01] right before a `*`
  // ---------------------------------------------------------------------

  /** The character class of the gene pattern as written: `A`..`Z`, `0` and `1`. */
  predicate InGeneClass(c: char)
  {
    ('A' <= c <= 'Z') || c == '0' || c == '1'
  }

  /** Position `q` holds a `*` right after a character of the class: a match of the pattern ends there. */
  predicate StarAfterGeneChar(name: string, q: int)
  {
    0 < q < |name| && name[q] == '*' && InGeneClass(name[q - 1])
  }

  /** `g` is the whole run of class characters that ends right before the `*` at `q`. */
  ghost predicate GeneEndsAt(name: string, q: int, g: string)
  {
    && 0 < |g| <= q < |name|
    && name[q] == '*'
    && name[q - |g|..q] == g
    && (forall k :: 0 <= k < |g| ==> InGeneClass(g[k]))
    && (q == |g| || !InGeneClass(name[q - |g| - 1]))
  }

  /** The first position from `from` on where a match ends, or `|name|`. */
  function FirstGeneStar(name: string, from: nat): (q: nat)
    requires from <= |name|
    ensures from <= q <= |name|
    ensures q < |name| ==> StarAfterGeneChar(name, q)
    ensures forall q' :: from <= q' < q ==> !StarAfterGeneChar(name, q')
    decreases |name| - from
  {
    if from == |name| || StarAfterGeneChar(name, from) then from else FirstGeneStar(name, from + 1)
  }

  /** The start of the run of class characters that ends right before `q`. */
  function RunStart(name: string, q: nat): (p: nat)
    requires q <= |name|
    ensures p <= q
    ensures forall k :: p <= k < q ==> InGeneClass(name[k])
    ensures p == 0 || !InGeneClass(name[p - 1])
  {
    if q == 0 || !InGeneClass(name[q - 1]) then q else RunStart(name, q - 1)
  }

  /**
   * `get_genes` for one name: the gene captured by the leftmost match of the
   * pattern "class characters, then `*`", or `None` when nothing matches.
   */
  function GeneOf(name: string): (r: Option<string>)
    ensures r.None? <==> forall q :: !StarAfterGeneChar(name, q)
    ensures r.Some? ==> exists q :: GeneEndsAt(name, q, r.value) && forall q' :: q' < q ==> !StarAfterGeneChar(name, q')
  {
    var q := FirstGeneStar(name, 0);
    if q == |name| then None
    else
      var p := RunStart(name, q);
      assert GeneEndsAt(name, q, name[p..q]);
      Some(name[p..q])
  }

  /** Genes as the pattern is written: `A` and `DQB1` are found, `DRB3` (a digit above 1) is not. */
  lemma GeneExamples()
    ensures GeneOf("A*02:01") == Some("A")
    ensures GeneOf("DQB1*06:02") == Some("DQB1")
    ensures GeneOf("DRB3*01:01") == None
  {
    assert StarAfterGeneChar("A*02:01", 1);
    assert FirstGeneStar("A*02:01", 0) == 1;
    assert RunStart("A*02:01", 1) == 0;
    assert "A*02:01"[0..1] == "A";
    assert StarAfterGeneChar("DQB1*06:02", 4);
    assert FirstGeneStar("DQB1*06:02", 0) == 4;
    assert RunStart("DQB1*06:02", 4) == 0;
    assert "DQB1*06:02"[0..4] == "DQB1";
    assert forall q :: !StarAfterGeneChar("DRB3*01:01", q);
  }

  // ---------------------------------------------------------------------
  // The table of one sample: one entry per call, with derived columns
  // ---------------------------------------------------------------------

  /** A row of the sample's table with the columns the resolver derives. */
  datatype Entry = Entry(
    allele: string,
    genotype: string,
    score: real,
    homozygous: bool,
    highRes: bool,
    gene: Option<string>)

  function Names(df: seq<Entry>): (names: seq<string>)
    ensures |names| == |df| && forall i :: 0 <= i < |df| ==> names[i] == df[i].allele
  {
    seq(|df|, i requires 0 <= i < |df| => df[i].allele)
  }

  /** The gene column of `df` holds the gene of each allele name. */
  ghost predicate GenesTabulated(df: seq<Entry>)
  {
    forall i :: 0 <= i < |df| ==> df[i].gene == GeneOf(df[i].allele)
  }

  /** Every derived column of `df` agrees with what its source column says. */
  ghost predicate Tabulated(df: seq<Entry>)
  {
    && (forall i :: 0 <= i < |df| ==>
          && ScoreOf(df[i].genotype) == Some(df[i].score)
          && df[i].homozygous == IsHomozygous(df[i].genotype)
          && df[i].highRes == IsHighRes(Names(df), i))
    && GenesTabulated(df)
  }

  ghost predicate AllScored(rows: seq<Row>)
  {
    forall i :: 0 <= i < |rows| ==> ScoreOf(rows[i].genotype).Some?
  }

  function RowNames(rows: seq<Row>): (names: seq<string>)
    ensures |names| == |rows| && forall i :: 0 <= i < |rows| ==> names[i] == rows[i].allele
  {
    seq(|rows|, i requires 0 <= i < |rows| => rows[i].allele)
  }

  /** The table the resolver builds from a sample's calls. */
  ghost function Frame(rows: seq<Row>): (df: seq<Entry>)
    requires AllScored(rows)
    ensures |df| == |rows| && Tabulated(df)
    ensures forall i :: 0 <= i < |rows| ==> df[i].allele == rows[i].allele && df[i].genotype == rows[i].genotype
  {
    var names := RowNames(rows);
    var df := seq(|rows|, i requires 0 <= i < |rows| =>
      Entry(rows[i].allele, rows[i].genotype, ScoreOf(rows[i].genotype).value,
            IsHomozygous(rows[i].genotype), IsHighRes(names, i), GeneOf(rows[i].allele)));
    assert Names(df) == names;
    df
  }

  /** Some entry of `df` has gene `g`. */
  ghost predicate HasGene(df: seq<Entry>, g: string)
  {
    exists i :: 0 <= i < |df| && df[i].gene == Some(g)
  }

  /** The gene column, without the names that have no gene. */
  function GeneLabels(df: seq<Entry>): (gs: seq<string>)
    ensures forall g :: g in gs <==> HasGene(df, g)
    ensures |gs| <= |df|
  {
    if df == [] then []
    else
      var init := df[..|df| - 1];
      var last := df[|df| - 1];
      var gs := GeneLabels(init);
      assert forall g :: HasGene(df, g) <==> HasGene(init, g) || last.gene == Some(g) by {
        forall g ensures HasGene(df, g) <==> HasGene(init, g) || last.gene == Some(g) {
          if HasGene(df, g) {
            var i :| 0 <= i < |df| && df[i].gene == Some(g);
            if i < |df| - 1 { assert init[i] == df[i]; }
          }
          if HasGene(init, g) {
            var i :| 0 <= i < |init| && init[i].gene == Some(g);
            assert df[i] == init[i];
          }
        }
      }
      if last.gene.Some? then gs + [last.gene.value] else gs
  }

  /** The genes of the sample, each once, in ascending order. */
  function SortedGenes(df: seq<Entry>): (genes: seq<string>)
    ensures StrictlySorted(genes)
    ensures forall g :: g in genes <==> HasGene(df, g)
    ensures |genes| <= |df|
  {
    SortedDistinct(GeneLabels(df))
  }

  /** The rows of gene `g`, in table order. */
  function GeneRows(df: seq<Entry>, g: string): (rows: seq<Entry>)
    ensures forall e :: e in rows <==> e in df && e.gene == Some(g)
  {
    if df == [] then []
    else
      var last := df[|df| - 1];
      assert df == df[..|df| - 1] + [last];
      GeneRows(df[..|df| - 1], g) + if last.gene == Some(g) then [last] else []
  }

  /** The high resolution rows of `rows`, in order. */
  function HighResCalls(rows: seq<Entry>): (h: seq<Entry>)
    ensures forall e :: e in h <==> e in rows && e.highRes
  {
    if rows == [] then []
    else
      var last := rows[|rows| - 1];
      assert rows == rows[..|rows| - 1] + [last];
      HighResCalls(rows[..|rows| - 1]) + if last.highRes then [last] else []
  }

  /** The rows of `rows` that are both high resolution and homozygous, in order. */
  function HomozygousHighRes(rows: seq<Entry>): (hz: seq<Entry>)
    ensures forall e :: e in hz <==> e in rows && e.highRes && e.homozygous
  {
    if rows == [] then []
    else
      var last := rows[|rows| - 1];
      assert rows == rows[..|rows| - 1] + [last];
      HomozygousHighRes(rows[..|rows| - 1]) + if last.highRes && last.homozygous then [last] else []
  }

  /** `df.loc[[gene]]` keeps every entry of the gene as often as it occurs and no other entry. */
  lemma {:induction false} GeneRowsCounts(df: seq<Entry>, g: string)
    ensures forall e :: multiset(GeneRows(df, g))[e] == if e.gene == Some(g) then multiset(df)[e] else 0
  {
    if df != [] {
      var init := df[..|df| - 1];
      var last := df[|df| - 1];
      assert df == init + [last];
      GeneRowsCounts(init, g);
    }
  }

  /** The high resolution selection keeps every high resolution entry as often as it occurs and no other entry. */
  lemma {:induction false} HighResCounts(rows: seq<Entry>)
    ensures forall e :: multiset(HighResCalls(rows))[e] == if e.highRes then multiset(rows)[e] else 0
  {
    if rows != [] {
      var init := rows[..|rows| - 1];
      var last := rows[|rows| - 1];
      assert rows == init + [last];
      HighResCounts(init);
    }
  }

  /** The homozygous selection keeps every homozygous high resolution entry as often as it occurs and no other entry. */
  lemma {:induction false} HomozygousHighResCounts(rows: seq<Entry>)
    ensures forall e :: multiset(HomozygousHighRes(rows))[e] == if e.highRes && e.homozygous then multiset(rows)[e] else 0
  {
    if rows != [] {
      var init := rows[..|rows| - 1];
      var last := rows[|rows| - 1];
      assert rows == init + [last];
      HomozygousHighResCounts(init);
    }
  }

  // ---------------------------------------------------------------------
  // The two largest scores
  // ---------------------------------------------------------------------

  /**
   * Positions `i` and `j` of `h` hold the two largest scores, the larger at
   * `i`: every other score is at most the one at `j`. Ties may be broken
   * either way.
   */
  ghost predicate TopPair(h: seq<Entry>, i: int, j: int)
  {
    && 0 <= i < |h| && 0 <= j < |h| && i != j
    && h[i].score >= h[j].score
    && forall k :: 0 <= k < |h| && k != i && k != j ==> h[k].score <= h[j].score
  }

  /** `nlargest(2, columns="scores")`: the positions of the two largest scores (fewer if `h` is shorter), largest first. */
  function NLargestTwo(h: seq<Entry>): (top: seq<nat>)
    ensures |top| == if |h| < 2 then |h| else 2
    ensures forall k :: 0 <= k < |top| ==> top[k] < |h|
    ensures |top| == 2 ==> TopPair(h, top[0], top[1])
  {
    if h == [] then []
    else
      var n := |h| - 1;
      var top := NLargestTwo(h[..n]);
      assert forall k :: 0 <= k < n ==> h[..n][k] == h[k];
      if |top| == 0 then [n]
      else if |top| == 1 then
        if h[n].score > h[top[0]].score then [n, top[0]] else [top[0], n]
      else if h[n].score > h[top[0]].score then [n, top[0]]
      else if h[n].score > h[top[1]].score then [top[0], n]
      else top
  }

  /** Whichever way ties are broken, the two selected scores are the same. */
  lemma TopPairScoresDetermined(h: seq<Entry>, i: int, j: int, i': int, j': int)
    requires TopPair(h, i, j) && TopPair(h, i', j')
    ensures h[i].score == h[i'].score && h[j].score == h[j'].score
  {
    if i != i' && i != j' {
      assert h[i].score <= h[j'].score;
    }
    if i' != i && i' != j {
      assert h[i'].score <= h[j].score;
    }
  }

  // ---------------------------------------------------------------------
  // The selection for one gene
  // ---------------------------------------------------------------------

  /** The sentinel that fills the second slot of a gene with a single call. */
  const NotAvailable := "NA"

  /**
   * The slots one gene contributes, by the cascade of `sort_and_fill`:
   * exactly one high resolution homozygous call gives that name twice;
   * otherwise two or more high resolution calls give the two best scored
   * names, best first; otherwise one high resolution call gives its name
   * and "NA"; otherwise the gene contributes nothing.
   */
  ghost predicate GeneSelection(df: seq<Entry>, g: string, slice: seq<string>)
  {
    var rows := GeneRows(df, g);
    var h := HighResCalls(rows);
    var hz := HomozygousHighRes(rows);
    if |hz| == 1 then slice == [hz[0].allele, hz[0].allele]
    else if |h| >= 2 then exists i, j :: TopPair(h, i, j) && slice == [h[i].allele, h[j].allele]
    else if |h| == 1 then slice == [h[0].allele, NotAvailable]
    else slice == []
  }

  /** Entry `i` of `df` is a high resolution call of gene `g` named `name`. */
  ghost predicate IsHighResCallAt(df: seq<Entry>, g: string, name: string, i: int)
  {
    0 <= i < |df| && df[i].gene == Some(g) && df[i].highRes && df[i].allele == name
  }

  /** `name` is a high resolution call of gene `g` in `df`. */
  ghost predicate HighResAlleleOf(df: seq<Entry>, g: string, name: string)
  {
    exists i :: IsHighResCallAt(df, g, name, i)
  }

  lemma HighResCallIsAllele(df: seq<Entry>, g: string, e: Entry)
    requires e in HighResCalls(GeneRows(df, g))
    ensures HighResAlleleOf(df, g, e.allele)
  {
    var i :| 0 <= i < |df| && df[i] == e;
    assert IsHighResCallAt(df, g, e.allele, i);
  }

  /**
   * The shape of one gene's slots: none or two; the first is a high
   * resolution call of the gene, the second another one or "NA"; none
   * exactly when the gene has no high resolution call.
   */
  lemma SelectionShape(df: seq<Entry>, g: string, slice: seq<string>)
    requires GeneSelection(df, g, slice)
    ensures |slice| == 0 || |slice| == 2
    ensures |slice| == 0 <==> HighResCalls(GeneRows(df, g)) == []
    ensures |slice| == 2 ==> HighResAlleleOf(df, g, slice[0])
    ensures |slice| == 2 ==> slice[1] == NotAvailable || HighResAlleleOf(df, g, slice[1])
  {
    var rows := GeneRows(df, g);
    var h := HighResCalls(rows);
    var hz := HomozygousHighRes(rows);
    if |hz| == 1 {
      assert hz[0] in h;
      HighResCallIsAllele(df, g, hz[0]);
    } else if |h| >= 2 {
      var i, j :| TopPair(h, i, j) && slice == [h[i].allele, h[j].allele];
      HighResCallIsAllele(df, g, h[i]);
      HighResCallIsAllele(df, g, h[j]);
    } else if |h| == 1 {
      HighResCallIsAllele(df, g, h[0]);
    }
  }

  // ---------------------------------------------------------------------
  // The result of one sample: the genes' slots, genes in ascending order
  // ---------------------------------------------------------------------

  /** The slots of all genes, one after the other. */
  function Flatten(slices: seq<seq<string>>): (out: seq<string>)
  {
    if slices == [] then [] else Flatten(slices[..|slices| - 1]) + slices[|slices| - 1]
  }

  /**
   * `out` is what `sort_and_fill` returns for `df`, `slices[k]` being the
   * slots of the `k`-th gene in ascending order.
   */
  ghost predicate ResolvedBy(df: seq<Entry>, out: seq<string>, slices: seq<seq<string>>)
  {
    var genes := SortedGenes(df);
    && |slices| == |genes|
    && (forall k :: 0 <= k < |genes| ==> GeneSelection(df, genes[k], slices[k]))
    && out == Flatten(slices)
  }

  /** Slots `2m` and `2m + 1` of `out` hold `a` and `b`. */
  ghost predicate PairAt(out: seq<string>, m: int, a: string, b: string)
  {
    0 <= m && 2 * m + 2 <= |out| && out[2 * m] == a && out[2 * m + 1] == b
  }

  /** Pair `m` of `out` belongs to gene `g`: a high resolution call of `g`, then another one or "NA". */
  ghost predicate PairOfGene(df: seq<Entry>, out: seq<string>, m: int, g: string)
  {
    0 <= m && 2 * m + 2 <= |out|
    && HighResAlleleOf(df, g, out[2 * m])
    && (out[2 * m + 1] == NotAvailable || HighResAlleleOf(df, g, out[2 * m + 1]))
  }

  /** Pair `m` of `out` belongs to one of the first `n` genes. */
  ghost predicate PairBelongs(df: seq<Entry>, out: seq<string>, m: int, genes: seq<string>, n: int)
  {
    exists k :: 0 <= k < n && k < |genes| && PairOfGene(df, out, m, genes[k])
  }

  /** Of two pairs, the later one belongs to a later gene among the first `n`. */
  ghost predicate PairsAscend(df: seq<Entry>, out: seq<string>, genes: seq<string>, n: int)
  {
    forall m, m', k, k' ::
      (&& 0 <= m < m' < |out| / 2 && 0 <= k < n && 0 <= k' < n && k < |genes| && k' < |genes|
       && PairOfGene(df, out, m, genes[k]) && PairOfGene(df, out, m', genes[k']))
      ==> k < k'
  }

  /** `out` is made of pairs, each belonging to one of the first `n` genes, later pairs to later genes. */
  ghost predicate GroupedUpTo(df: seq<Entry>, out: seq<string>, genes: seq<string>, n: int)
  {
    && |out| % 2 == 0
    && |out| <= 2 * n
    && (forall m :: 0 <= m < |out| / 2 ==> PairBelongs(df, out, m, genes, n))
    && PairsAscend(df, out, genes, n)
  }

  /**
   * `out` is made of pairs, at most one per gene of `genes`, each pair a
   * call of its gene, the genes of the pairs strictly ascending.
   */
  ghost predicate GroupedByGene(df: seq<Entry>, out: seq<string>, genes: seq<string>)
  {
    GroupedUpTo(df, out, genes, |genes|)
  }

  /** In a consistent table the gene of a call is its own: a pair belongs to one gene only. */
  lemma PairGeneUnique(df: seq<Entry>, out: seq<string>, m: int, g: string, g': string)
    requires GenesTabulated(df)
    requires PairOfGene(df, out, m, g) && PairOfGene(df, out, m, g')
    ensures g == g'
  {
    var i :| IsHighResCallAt(df, g, out[2 * m], i);
    var i' :| IsHighResCallAt(df, g', out[2 * m], i');
  }

  /** A strictly sorted list holds each gene at one position only. */
  lemma SortedIndexUnique(genes: seq<string>, k: int, k': int)
    requires StrictlySorted(genes) && 0 <= k < |genes| && 0 <= k' < |genes| && genes[k] == genes[k']
    ensures k == k'
  {
    if k < k' || k' < k {
      BelowIrreflexive(genes[k]);
    }
  }

  /** The pairs already in `out` keep their genes when slots are appended. */
  lemma PairOfGeneExtends(df: seq<Entry>, out: seq<string>, s: seq<string>, m: int, g: string)
    requires 0 <= m < |out| / 2 && |out| % 2 == 0
    ensures PairOfGene(df, out, m, g) <==> PairOfGene(df, out + s, m, g)
  {
    assert (out + s)[2 * m] == out[2 * m] && (out + s)[2 * m + 1] == out[2 * m + 1];
  }

  /** An old pair, grouped among the first `n - 1` genes, is not a pair of gene `n - 1`. */
  lemma OldPairNotLast(df: seq<Entry>, out: seq<string>, s: seq<string>, genes: seq<string>, n: int, m: int, k': int)
    requires GenesTabulated(df) && StrictlySorted(genes) && 0 < n <= |genes|
    requires GroupedUpTo(df, out, genes, n - 1)
    requires 0 <= m < |out| / 2 && 0 <= k' < n && PairOfGene(df, out + s, m, genes[k'])
    ensures k' < n - 1 && PairOfGene(df, out, m, genes[k'])
  {
    assert PairBelongs(df, out, m, genes, n - 1);
    var k :| 0 <= k < n - 1 && PairOfGene(df, out, m, genes[k]);
    PairOfGeneExtends(df, out, s, m, genes[k]);
    PairOfGeneExtends(df, out, s, m, genes[k']);
    PairGeneUnique(df, out, m, genes[k], genes[k']);
    SortedIndexUnique(genes, k, k');
  }

  /** After appending the slots of gene `n - 1`, every pair belongs to one of the first `n` genes. */
  lemma StepBelongs(df: seq<Entry>, out: seq<string>, s: seq<string>, genes: seq<string>, n: int)
    requires 0 < n <= |genes|
    requires GroupedUpTo(df, out, genes, n - 1)
    requires |s| == 0 || |s| == 2
    requires |s| == 2 ==> HighResAlleleOf(df, genes[n - 1], s[0])
    requires |s| == 2 ==> s[1] == NotAvailable || HighResAlleleOf(df, genes[n - 1], s[1])
    ensures forall m :: 0 <= m < |out + s| / 2 ==> PairBelongs(df, out + s, m, genes, n)
  {
    var out' := out + s;
    var last := |out| / 2;
    forall m | 0 <= m < |out'| / 2
      ensures PairBelongs(df, out', m, genes, n)
    {
      if m < last {
        assert PairBelongs(df, out, m, genes, n - 1);
        var k :| 0 <= k < n - 1 && PairOfGene(df, out, m, genes[k]);
        PairOfGeneExtends(df, out, s, m, genes[k]);
      } else {
        assert out'[2 * last] == s[0] && out'[2 * last + 1] == s[1];
        assert PairOfGene(df, out', last, genes[n - 1]);
      }
    }
  }

  /** One instance of `StepAscends`: pairs `m < m'` of genes `k` and `k'`. */
  lemma StepAscendsAt(df: seq<Entry>, out: seq<string>, s: seq<string>, genes: seq<string>, n: int,
                      m: int, m': int, k: int, k': int)
    requires GenesTabulated(df) && StrictlySorted(genes) && 0 < n <= |genes|
    requires GroupedUpTo(df, out, genes, n - 1)
    requires |s| == 0 || |s| == 2
    requires 0 <= m < m' < |out + s| / 2 && 0 <= k < n && 0 <= k' < n
    requires PairOfGene(df, out + s, m, genes[k]) && PairOfGene(df, out + s, m', genes[k'])
    requires |s| == 2 ==> HighResAlleleOf(df, genes[n - 1], s[0])
    ensures k < k'
  {
    OldPairNotLast(df, out, s, genes, n, m, k);
    if m' < |out| / 2 {
      OldPairNotLast(df, out, s, genes, n, m', k');
      assert PairsAscend(df, out, genes, n - 1);
    } else {
      assert (out + s)[2 * m'] == s[0];
      var i :| IsHighResCallAt(df, genes[n - 1], s[0], i);
      var i' :| IsHighResCallAt(df, genes[k'], s[0], i');
      SortedIndexUnique(genes, n - 1, k');
    }
  }

  /** After appending the slots of gene `n - 1`, later pairs still belong to later genes. */
  lemma StepAscends(df: seq<Entry>, out: seq<string>, s: seq<string>, genes: seq<string>, n: int)
    requires GenesTabulated(df) && StrictlySorted(genes) && 0 < n <= |genes|
    requires GroupedUpTo(df, out, genes, n - 1)
    requires |s| == 0 || |s| == 2
    requires |s| == 2 ==> HighResAlleleOf(df, genes[n - 1], s[0])
    ensures PairsAscend(df, out + s, genes, n)
  {
    forall m, m', k, k' |
      && 0 <= m < m' < |out + s| / 2 && 0 <= k < n && 0 <= k' < n
      && PairOfGene(df, out + s, m, genes[k]) && PairOfGene(df, out + s, m', genes[k'])
      ensures k < k'
    {
      StepAscendsAt(df, out, s, genes, n, m, m', k, k');
    }
  }

  lemma EvenPlusPair(a: int, b: int)
    requires a % 2 == 0 && (b == 0 || b == 2)
    ensures (a + b) % 2 == 0 && (a + b) / 2 == a / 2 + b / 2
  {
  }

  /** The slots of the first `n` genes are grouped by gene, in ascending order. */
  lemma {:induction false} GroupedPrefix(df: seq<Entry>, genes: seq<string>, slices: seq<seq<string>>, n: nat)
    requires GenesTabulated(df) && StrictlySorted(genes)
    requires |slices| == |genes| && n <= |genes|
    requires forall k :: 0 <= k < |genes| ==> GeneSelection(df, genes[k], slices[k])
    ensures GroupedUpTo(df, Flatten(slices[..n]), genes, n)
  {
    if n > 0 {
      GroupedPrefix(df, genes, slices, n - 1);
      var out := Flatten(slices[..n - 1]);
      var s := slices[n - 1];
      assert slices[..n][..n - 1] == slices[..n - 1];
      assert Flatten(slices[..n]) == out + s;
      GroupedStep(df, genes, out, s, n);
    }
  }

  /** Appending the slots of the `n`-th gene to a result grouped by the first `n - 1` genes keeps it grouped. */
  lemma GroupedStep(df: seq<Entry>, genes: seq<string>, out: seq<string>, s: seq<string>, n: nat)
    requires GenesTabulated(df) && StrictlySorted(genes) && 0 < n <= |genes|
    requires GroupedUpTo(df, out, genes, n - 1)
    requires GeneSelection(df, genes[n - 1], s)
    ensures GroupedUpTo(df, out + s, genes, n)
  {
    SelectionShape(df, genes[n - 1], s);
    assert |s| == 0 || |s| == 2;
    EvenPlusPair(|out|, |s|);
    StepBelongs(df, out, s, genes, n);
    StepAscends(df, out, s, genes, n);
  }

  /**
   * The result of a sample is grouped by gene: pairs of slots, each a high
   * resolution call of one gene followed by another one or "NA", genes
   * strictly ascending, so the length is even and at most twice the number
   * of genes.
   */
  lemma ResultGroupedByGene(df: seq<Entry>, out: seq<string>, slices: seq<seq<string>>)
    requires GenesTabulated(df) && ResolvedBy(df, out, slices)
    ensures GroupedByGene(df, out, SortedGenes(df))
  {
    var genes := SortedGenes(df);
    GroupedPrefix(df, genes, slices, |genes|);
    assert slices[..|genes|] == slices;
  }

  /** "NA" has no `*`, so it has no gene and is never the name of a call of a gene. */
  lemma NotAvailableHasNoGene()
    ensures GeneOf(NotAvailable) == None
  {
    assert forall q :: !StarAfterGeneChar(NotAvailable, q);
  }

  /** In slots grouped by gene, "NA" can only be the second slot of a pair. */
  lemma GroupedNotAvailable(df: seq<Entry>, out: seq<string>, genes: seq<string>, p: int)
    requires GenesTabulated(df) && GroupedByGene(df, out, genes)
    requires 0 <= p < |out| && out[p] == NotAvailable
    ensures p % 2 == 1
  {
    if p % 2 == 0 {
      var m := p / 2;
      assert 2 * m == p;
      assert PairBelongs(df, out, m, genes, |genes|);
      var k :| 0 <= k < |genes| && PairOfGene(df, out, m, genes[k]);
      var i :| IsHighResCallAt(df, genes[k], out[2 * m], i);
      NotAvailableHasNoGene();
    }
  }

  /** "NA" is never the first slot of a pair: it only pads a gene with a single call. */
  lemma NotAvailableOnlySecond(df: seq<Entry>, out: seq<string>, slices: seq<seq<string>>)
    requires GenesTabulated(df) && ResolvedBy(df, out, slices)
    ensures forall p :: 0 <= p < |out| && out[p] == NotAvailable ==> p % 2 == 1
  {
    ResultGroupedByGene(df, out, slices);
    forall p | 0 <= p < |out| && out[p] == NotAvailable
      ensures p % 2 == 1
    {
      GroupedNotAvailable(df, out, SortedGenes(df), p);
    }
  }

  lemma {:induction false} FlattenAppend(a: seq<seq<string>>, b: seq<seq<string>>)
    ensures Flatten(a + b) == Flatten(a) + Flatten(b)
    decreases |b|
  {
    if b == [] {
      assert a + b == a;
    } else {
      var init := b[..|b| - 1];
      assert (a + b)[..|a + b| - 1] == a + init;
      FlattenAppend(a, init);
    }
  }

  lemma {:induction false} FlattenEven(slices: seq<seq<string>>)
    requires forall k :: 0 <= k < |slices| ==> |slices[k]| % 2 == 0
    ensures |Flatten(slices)| % 2 == 0
  {
    if slices != [] {
      FlattenEven(slices[..|slices| - 1]);
    }
  }

  /** The two slots of gene `k` stand as one pair of the flattened result. */
  lemma SlotsArePair(slices: seq<seq<string>>, k: int)
    requires 0 <= k < |slices| && |slices[k]| == 2
    requires forall j :: 0 <= j < |slices| ==> |slices[j]| % 2 == 0
    ensures exists m :: PairAt(Flatten(slices), m, slices[k][0], slices[k][1])
  {
    var before := slices[..k];
    var after := slices[k + 1..];
    assert slices == before + [slices[k]] + after;
    FlattenAppend(before + [slices[k]], after);
    FlattenAppend(before, [slices[k]]);
    assert Flatten([slices[k]]) == slices[k] by {
      assert [slices[k]][..0] == [];
    }
    FlattenEven(before);
    var m := |Flatten(before)| / 2;
    assert PairAt(Flatten(slices), m, slices[k][0], slices[k][1]);
  }

  lemma SlicesEven(df: seq<Entry>, genes: seq<string>, slices: seq<seq<string>>)
    requires |slices| == |genes|
    requires forall k :: 0 <= k < |genes| ==> GeneSelection(df, genes[k], slices[k])
    ensures forall j :: 0 <= j < |slices| ==> |slices[j]| % 2 == 0
  {
    forall j | 0 <= j < |slices| ensures |slices[j]| % 2 == 0 {
      SelectionShape(df, genes[j], slices[j]);
      assert |slices[j]| == 0 || |slices[j]| == 2;
    }
  }

  /** A gene of the sample has its slots, as selected, at some position of the result. */
  lemma GeneSlotsInResult(df: seq<Entry>, out: seq<string>, slices: seq<seq<string>>, g: string) returns (s: seq<string>)
    requires ResolvedBy(df, out, slices) && HasGene(df, g)
    ensures GeneSelection(df, g, s)
    ensures |s| == 2 ==> exists m :: PairAt(out, m, s[0], s[1])
  {
    var genes := SortedGenes(df);
    assert g in genes;
    var k :| 0 <= k < |genes| && genes[k] == g;
    s := slices[k];
    SlicesEven(df, genes, slices);
    if |s| == 2 {
      SlotsArePair(slices, k);
    }
  }

  lemma GeneOfGeneRow(df: seq<Entry>, g: string, e: Entry)
    requires e in GeneRows(df, g)
    ensures HasGene(df, g)
  {
    var i :| 0 <= i < |df| && df[i] == e;
  }

  /**
   * Rule A: when exactly one high resolution call of a gene is homozygous,
   * the result holds that name twice as a pair, whatever the scores.
   */
  lemma HomozygousRule(df: seq<Entry>, out: seq<string>, slices: seq<seq<string>>, g: string)
    requires ResolvedBy(df, out, slices)
    requires |HomozygousHighRes(GeneRows(df, g))| == 1
    ensures var e := HomozygousHighRes(GeneRows(df, g))[0];
            exists m :: PairAt(out, m, e.allele, e.allele)
  {
    GeneOfGeneRow(df, g, HomozygousHighRes(GeneRows(df, g))[0]);
    var s := GeneSlotsInResult(df, out, slices, g);
  }

  /**
   * Rule B: otherwise, when a gene has two or more high resolution calls,
   * the result holds a pair of two of them with the two largest scores,
   * the larger first.
   */
  lemma TopTwoRule(df: seq<Entry>, out: seq<string>, slices: seq<seq<string>>, g: string)
    requires ResolvedBy(df, out, slices)
    requires |HomozygousHighRes(GeneRows(df, g))| != 1
    requires |HighResCalls(GeneRows(df, g))| >= 2
    ensures var h := HighResCalls(GeneRows(df, g));
            exists m, i, j :: TopPair(h, i, j) && PairAt(out, m, h[i].allele, h[j].allele)
  {
    var h := HighResCalls(GeneRows(df, g));
    GeneOfGeneRow(df, g, h[0]);
    var s := GeneSlotsInResult(df, out, slices, g);
    var i, j :| TopPair(h, i, j) && s == [h[i].allele, h[j].allele];
    var m :| PairAt(out, m, s[0], s[1]);
    assert TopPair(h, i, j) && PairAt(out, m, h[i].allele, h[j].allele);
  }

  /**
   * Rule C: otherwise, when a gene has exactly one high resolution call,
   * the result holds that name paired with "NA".
   */
  lemma SingleCallRule(df: seq<Entry>, out: seq<string>, slices: seq<seq<string>>, g: string)
    requires ResolvedBy(df, out, slices)
    requires |HomozygousHighRes(GeneRows(df, g))| != 1
    requires |HighResCalls(GeneRows(df, g))| == 1
    ensures exists m :: PairAt(out, m, HighResCalls(GeneRows(df, g))[0].allele, NotAvailable)
  {
    GeneOfGeneRow(df, g, HighResCalls(GeneRows(df, g))[0]);
    var s := GeneSlotsInResult(df, out, slices, g);
  }

  /** A gene without a high resolution call contributes nothing: no pair of the result is of that gene. */
  lemma NoCallNoSlots(df: seq<Entry>, out: seq<string>, slices: seq<seq<string>>, g: string)
    requires GenesTabulated(df) && ResolvedBy(df, out, slices)
    requires HighResCalls(GeneRows(df, g)) == []
    ensures forall m, a, b :: PairAt(out, m, a, b) ==> GeneOf(a) != Some(g)
  {
    ResultGroupedByGene(df, out, slices);
    forall m, a, b | PairAt(out, m, a, b)
      ensures GeneOf(a) != Some(g)
    {
      PairNotOfCallLessGene(df, out, SortedGenes(df), g, m, a, b);
    }
  }

  /** In slots grouped by gene, the first slot of a pair is never of a gene without high resolution calls. */
  lemma PairNotOfCallLessGene(df: seq<Entry>, out: seq<string>, genes: seq<string>, g: string, m: int, a: string, b: string)
    requires GenesTabulated(df) && GroupedByGene(df, out, genes)
    requires HighResCalls(GeneRows(df, g)) == []
    requires PairAt(out, m, a, b)
    ensures GeneOf(a) != Some(g)
  {
    assert PairBelongs(df, out, m, genes, |genes|);
    var k :| 0 <= k < |genes| && PairOfGene(df, out, m, genes[k]);
    var i :| IsHighResCallAt(df, genes[k], a, i);
    assert df[i] in HighResCalls(GeneRows(df, genes[k]));
  }
}
