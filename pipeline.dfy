/**
 * The per-sample driver: an `AlleleList` object builds the sample's table
 * (scores, homozygosity, high resolution flags, genes) from its calls and
 * resolves it into the diploid allele list; `GetTrueAlleles` does this for
 * every sample column of the VCF table.
 */
module Pipeline {
  import opened Text
  import opened Calls
  import opened Alleles

  /** Some name of the table has no gene. */
  predicate MissingGene(df: seq<Entry>)
  {
    exists i :: 0 <= i < |df| && df[i].gene.None?
  }

  /**
   * What `sort_and_fill` gives: the allele list, or `Unsortable` when a name
   * without a gene makes the sorting of the genes fail.
   */
  datatype Resolution = Resolved(alleles: seq<string>) | Unsortable

  /** The resolver of one sample, over the table it builds at construction. */
  class AlleleList {
    var df: seq<Entry>

    /**
     * Builds the table of the sample's calls column by column: the scores,
     * the homozygosity flags, the high resolution flags over the whole list
     * of names, and the genes.
     */
    constructor (alleles: seq<Row>)
      requires AllScored(alleles)
      ensures df == Frame(alleles)
    {
      var n := |alleles|;
      var scores := seq(n, i requires 0 <= i < n => ScoreOf(alleles[i].genotype).value);
      var homozygous := seq(n, i requires 0 <= i < n => IsHomozygous(alleles[i].genotype));
      var highRes := FindHighRes(RowNames(alleles));
      var genes := seq(n, i requires 0 <= i < n => GeneOf(alleles[i].allele));
      var table := seq(n, i requires 0 <= i < n =>
        Entry(alleles[i].allele, alleles[i].genotype, scores[i], homozygous[i], highRes[i], genes[i]));
      ghost var frame := Frame(alleles);
      forall i | 0 <= i < n ensures table[i] == frame[i] {
        assert table[i].highRes == IsHighRes(RowNames(alleles), i);
      }
      df := table;
    }

    /**
     * `sort_and_fill`: visits the genes in ascending order and appends, per
     * gene, the slots chosen by the rule cascade; `slices` records the slots
     * of each gene.
     */
    method SortAndFill() returns (r: Resolution, ghost slices: seq<seq<string>>)
      ensures r.Unsortable? <==> MissingGene(df)
      ensures r.Resolved? ==> ResolvedBy(df, r.alleles, slices)
    {
      slices := [];
      if MissingGene(df) {
        // `sorted` cannot order a missing gene against the gene names
        return Unsortable, slices;
      }
      var results: seq<string> := [];
      var genes := SortedGenes(df);
      for k := 0 to |genes|
        invariant |slices| == k
        invariant forall j :: 0 <= j < k ==> GeneSelection(df, genes[j], slices[j])
        invariant results == Flatten(slices)
      {
        var alleles := GeneRows(df, genes[k]);
        var homozygous := HomozygousHighRes(alleles);
        var high := HighResCalls(alleles);
        var allele := NLargestTwo(high);
        var toAppend: seq<string> := [];
        if |homozygous| == 1 {
          toAppend := [homozygous[0].allele, homozygous[0].allele];
        } else if |allele| == 2 {
          assert TopPair(high, allele[0], allele[1]);
          toAppend := [high[allele[0]].allele, high[allele[1]].allele];
        } else if |allele| == 1 {
          toAppend := [high[allele[0]].allele, NotAvailable];
        }
        assert GeneSelection(df, genes[k], toAppend);
        results := results + toAppend;
        ghost var before := slices;
        slices := slices + [toAppend];
        forall j | 0 <= j < k + 1 ensures GeneSelection(df, genes[j], slices[j]) {
          if j < k {
            assert slices[j] == before[j];
          }
        }
        assert slices[..k] == before;
      }
      r := Resolved(results);
    }
  }

  /** One sample column of the VCF table: the sample's name and one genotype per allele row. */
  datatype Column = Column(sample: string, cells: seq<string>)

  /** The rows of one sample: each allele name with that sample's genotype. */
  function SampleRows(ids: seq<string>, cells: seq<string>): (rows: seq<Row>)
    requires |cells| == |ids|
    ensures |rows| == |ids| && forall i :: 0 <= i < |ids| ==> rows[i] == Row(ids[i], cells[i])
  {
    seq(|ids|, i requires 0 <= i < |ids| => Row(ids[i], cells[i]))
  }

  /** The calls of a sample that the resolver sees: its rows without the `0|0` ones. */
  function SampleCalls(ids: seq<string>, column: Column): (calls: seq<Row>)
    requires |column.cells| == |ids|
    ensures forall r :: r in calls <==> r in SampleRows(ids, column.cells) && KeepCall(r.genotype)
  {
    FilterSample(SampleRows(ids, column.cells))
  }

  /** The resolution of one sample column: its calls, the resolver built on them, and its allele list. */
  method ResolveColumn(ids: seq<string>, column: Column) returns (out: Option<seq<string>>, ghost slices: seq<seq<string>>)
    requires |column.cells| == |ids|
    requires AllScored(SampleCalls(ids, column))
    ensures out.None? <==> MissingGene(Frame(SampleCalls(ids, column)))
    ensures out.Some? ==> ResolvedBy(Frame(SampleCalls(ids, column)), out.value, slices)
  {
    var alleles := SampleCalls(ids, column);
    var list := new AlleleList(alleles);
    var res;
    res, slices := list.SortAndFill();
    if res.Unsortable? {
      return None, slices;
    }
    return Some(res.alleles), slices;
  }

  /** What `get_true_alleles` is given: one cell per allele row in every column, and scored calls. */
  ghost predicate WellFormedTable(ids: seq<string>, columns: seq<Column>)
  {
    && (forall c :: 0 <= c < |columns| ==> |columns[c].cells| == |ids|)
    && (forall c :: 0 <= c < |columns| ==> AllScored(SampleCalls(ids, columns[c])))
  }

  /** Every name among the sample's calls has a gene, so its genes can be sorted. */
  ghost predicate Resolvable(ids: seq<string>, column: Column)
    requires |column.cells| == |ids| && AllScored(SampleCalls(ids, column))
  {
    !MissingGene(Frame(SampleCalls(ids, column)))
  }

  /**
   * The dictionary built by assigning `outs[d]` under the name of sample `d`,
   * for `d` in order: a later sample of the same name overwrites an earlier one.
   */
  function Dict(columns: seq<Column>, outs: seq<seq<string>>): (m: map<string, seq<string>>)
    requires |outs| <= |columns|
  {
    if outs == [] then map[]
    else Dict(columns, outs[..|outs| - 1])[columns[|outs| - 1].sample := outs[|outs| - 1]]
  }

  /** Assigning one more sample extends the dictionary by that assignment. */
  lemma DictNext(columns: seq<Column>, outs: seq<seq<string>>, out: seq<string>)
    requires |outs| < |columns|
    ensures Dict(columns, outs + [out]) == Dict(columns, outs)[columns[|outs|].sample := out]
  {
    assert (outs + [out])[..|outs|] == outs;
  }

  /** No column after `d` and before `n` bears the sample name of column `d`. */
  ghost predicate LastOfName(columns: seq<Column>, d: int, n: int)
    requires 0 <= d < n <= |columns|
  {
    forall e :: d < e < n ==> columns[e].sample != columns[d].sample
  }

  /** The keys of the dictionary are the names of the samples. */
  lemma {:induction false} DictKeys(columns: seq<Column>, outs: seq<seq<string>>)
    requires |outs| <= |columns|
    ensures Dict(columns, outs).Keys == set d | 0 <= d < |outs| :: columns[d].sample
  {
    if outs != [] {
      var n := |outs| - 1;
      DictKeys(columns, outs[..n]);
      assert (set d | 0 <= d < n + 1 :: columns[d].sample) == (set d | 0 <= d < n :: columns[d].sample) + {columns[n].sample};
    }
  }

  /** Under the name of each sample stands the list of the last sample of that name. */
  lemma {:induction false} DictValues(columns: seq<Column>, outs: seq<seq<string>>)
    requires |outs| <= |columns|
    ensures forall d :: 0 <= d < |outs| && LastOfName(columns, d, |outs|) ==>
              columns[d].sample in Dict(columns, outs) && Dict(columns, outs)[columns[d].sample] == outs[d]
  {
    if outs != [] {
      var n := |outs| - 1;
      var init := outs[..n];
      DictValues(columns, init);
      forall d | 0 <= d < n + 1 && LastOfName(columns, d, n + 1)
        ensures columns[d].sample in Dict(columns, outs) && Dict(columns, outs)[columns[d].sample] == outs[d]
      {
        if d < n {
          assert columns[d].sample != columns[n].sample;
          assert LastOfName(columns, d, n);
          assert init[d] == outs[d];
        }
      }
    }
  }

  /** With distinct sample names, every sample's list stands under its own name. */
  lemma DictDistinct(columns: seq<Column>, outs: seq<seq<string>>)
    requires |outs| == |columns|
    requires forall c, d :: 0 <= c < d < |columns| ==> columns[c].sample != columns[d].sample
    ensures forall d :: 0 <= d < |outs| ==> columns[d].sample in Dict(columns, outs) && Dict(columns, outs)[columns[d].sample] == outs[d]
  {
    DictValues(columns, outs);
    forall d | 0 <= d < |outs|
      ensures columns[d].sample in Dict(columns, outs) && Dict(columns, outs)[columns[d].sample] == outs[d]
    {
      assert LastOfName(columns, d, |outs|);
    }
  }

  /** A proof helper: `ResolvedBy` carries over to equal arguments without being unfolded. */
  lemma ResolvedBySame(df: seq<Entry>, out: seq<string>, out': seq<string>,
                       slices: seq<seq<string>>, slices': seq<seq<string>>)
    requires ResolvedBy(df, out, slices) && out == out' && slices == slices'
    ensures ResolvedBy(df, out', slices')
  {
  }

  /**
   * `get_true_alleles`: for every sample column, filters the calls, builds
   * the resolver and records its allele list under the sample's name;
   * `None` when the resolution of some sample fails. `outs[c]` is the list
   * of sample `c` and `slots[c]` the slots of each of its genes.
   */
  method GetTrueAlleles(ids: seq<string>, columns: seq<Column>)
    returns (r: Option<map<string, seq<string>>>, ghost outs: seq<seq<string>>, ghost slots: seq<seq<seq<string>>>)
    requires WellFormedTable(ids, columns)
    ensures r.Some? <==> forall c :: 0 <= c < |columns| ==> Resolvable(ids, columns[c])
    ensures r.Some? ==> |outs| == |columns| && |slots| == |columns| && r.value == Dict(columns, outs)
    ensures r.Some? ==> forall c :: 0 <= c < |columns| ==>
              ResolvedBy(Frame(SampleCalls(ids, columns[c])), outs[c], slots[c])
  {
    var trueAlleles: map<string, seq<string>> := map[];
    outs, slots := [], [];
    for c := 0 to |columns|
      invariant |outs| == c && |slots| == c
      invariant trueAlleles == Dict(columns, outs)
      invariant forall d :: 0 <= d < c ==> !MissingGene(Frame(SampleCalls(ids, columns[d])))
      invariant forall d :: 0 <= d < c ==> ResolvedBy(Frame(SampleCalls(ids, columns[d])), outs[d], slots[d])
    {
      var out, slices := ResolveColumn(ids, columns[c]);
      if out.None? {
        assert !Resolvable(ids, columns[c]);
        return None, outs, slots;
      }
      trueAlleles := trueAlleles[columns[c].sample := out.value];
      ghost var outsBefore, slotsBefore := outs, slots;
      DictNext(columns, outs, out.value);
      outs, slots := outs + [out.value], slots + [slices];
      forall d | 0 <= d < c + 1
        ensures ResolvedBy(Frame(SampleCalls(ids, columns[d])), outs[d], slots[d])
      {
        if d < c {
          ResolvedBySame(Frame(SampleCalls(ids, columns[d])), outsBefore[d], outs[d], slotsBefore[d], slots[d]);
        } else {
          ResolvedBySame(Frame(SampleCalls(ids, columns[d])), out.value, outs[d], slices, slots[d]);
        }
      }
    }
    return Some(trueAlleles), outs, slots;
  }
}
