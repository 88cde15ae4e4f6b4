/** The coordinate projection (`gene_location`): every chromosome of a length
    table gets the sum of the lengths before it, in table order, as its
    offset on one linear genome axis, and every annotated gene on a known
    chromosome is placed at `(offset + value) * step`, where `value` is the
    column the caller selects. */
module GeneLocation {

  /** The annotation column the caller selects (`position`). */
  datatype Position = StartColumn | EndColumn | OrderColumn

  /** One annotation row, as the GFF loader types it: string chromosome and
      gene ids, numeric coordinates and an integer order index. */
  datatype Gene = Gene(chr: string, id: string, start: real, end: real, order: int)

  function Value(g: Gene, position: Position): real {
    match position
    case StartColumn => g.start
    case EndColumn => g.end
    case OrderColumn => g.order as real
  }

  /** The length table: chromosome id and length, in table order. */
  type LengthTable = seq<(string, int)>

  predicate DistinctIds(lens: LengthTable) {
    forall i, j :: 0 <= i < j < |lens| ==> lens[i].0 != lens[j].0
  }

  /** The sum of the lengths. */
  function Total(lens: LengthTable): int {
    if lens == [] then 0 else Total(lens[..|lens| - 1]) + lens[|lens| - 1].1
  }

  /** `dict_chr`: each chromosome is mapped to the running total reached just
      before it (a later duplicate of an id overwrites the earlier entry). */
  function Offsets(lens: LengthTable): map<string, int> {
    if lens == [] then map[]
    else
      var init := lens[..|lens| - 1];
      Offsets(init)[lens[|lens| - 1].0 := Total(init)]
  }

  /** Where gene `g` sits on the linear axis. */
  function Coordinate(offsets: map<string, int>, g: Gene, step: real, position: Position): real
    requires g.chr in offsets
  {
    (offsets[g.chr] as real + Value(g, position)) * step
  }

  /** `loc_gene` after the rows of `gff`: rows on unknown chromosomes are
      skipped and a later row with the same gene id overwrites an earlier one. */
  function Locations(gff: seq<Gene>, offsets: map<string, int>, step: real, position: Position): map<string, real> {
    if gff == [] then map[]
    else
      var g := gff[|gff| - 1];
      var m := Locations(gff[..|gff| - 1], offsets, step, position);
      if g.chr in offsets then m[g.id := Coordinate(offsets, g, step, position)] else m
  }

  /** What `gene_location` returns. */
  function Project(gff: seq<Gene>, lens: LengthTable, step: real, position: Position): map<string, real> {
    Locations(gff, Offsets(lens), step, position)
  }

  method ComputeGeneLocation(gff: seq<Gene>, lens: LengthTable, step: real, position: Position)
    returns (locGene: map<string, real>)
    ensures locGene == Project(gff, lens, step, position)
  {
    var dictChr: map<string, int> := map[];
    var n := 0;
    locGene := map[];
    for i := 0 to |lens|
      invariant dictChr == Offsets(lens[..i]) && n == Total(lens[..i])
    {
      assert lens[..i + 1][..i] == lens[..i];
      dictChr := dictChr[lens[i].0 := n];
      n := n + lens[i].1;
    }
    assert lens[..|lens|] == lens;
    for k := 0 to |gff|
      invariant locGene == Locations(gff[..k], dictChr, step, position)
    {
      assert gff[..k + 1][..k] == gff[..k] && gff[..k + 1][k] == gff[k];
      if gff[k].chr !in dictChr {
        continue;
      }
      var loc := (dictChr[gff[k].chr] as real + Value(gff[k], position)) * step;
      assert loc == Coordinate(dictChr, gff[k], step, position);
      locGene := locGene[gff[k].id := loc];
    }
    assert gff[..|gff|] == gff;
  }

  /** The chromosomes with an offset are exactly those of the table. */
  lemma {:induction false} OffsetsKeys(lens: LengthTable)
    ensures Offsets(lens).Keys == set i | 0 <= i < |lens| :: lens[i].0
    decreases |lens|
  {
    if lens != [] {
      var init := lens[..|lens| - 1];
      OffsetsKeys(init);
      assert forall i :: 0 <= i < |init| ==> init[i] == lens[i];
      assert (set i | 0 <= i < |lens| :: lens[i].0) == (set i | 0 <= i < |init| :: init[i].0) + {lens[|lens| - 1].0};
    }
  }

  /** With distinct ids, chromosome `i`'s offset is the sum of the lengths of
      the chromosomes before it. */
  lemma {:induction false} OffsetIsPrefixSum(lens: LengthTable, i: nat)
    requires DistinctIds(lens) && i < |lens|
    ensures lens[i].0 in Offsets(lens) && Offsets(lens)[lens[i].0] == Total(lens[..i])
    decreases |lens|
  {
    var init := lens[..|lens| - 1];
    if i < |lens| - 1 {
      assert DistinctIds(init) by {
        forall a, b | 0 <= a < b < |init| ensures init[a].0 != init[b].0 {
          assert init[a] == lens[a] && init[b] == lens[b];
        }
      }
      OffsetIsPrefixSum(init, i);
      assert init[i] == lens[i] && init[..i] == lens[..i];
      assert lens[i].0 != lens[|lens| - 1].0;
    } else {
      assert init == lens[..i];
    }
  }

  /** The first chromosome starts the axis at 0. */
  lemma FirstOffsetZero(lens: LengthTable)
    requires DistinctIds(lens) && lens != []
    ensures lens[0].0 in Offsets(lens) && Offsets(lens)[lens[0].0] == 0
  {
    OffsetIsPrefixSum(lens, 0);
  }

  /** Consecutive chromosomes abut: the next one starts where this one ends. */
  lemma NextChromosomeAbuts(lens: LengthTable, i: nat)
    requires DistinctIds(lens) && i + 1 < |lens|
    ensures lens[i].0 in Offsets(lens) && lens[i + 1].0 in Offsets(lens)
    ensures Offsets(lens)[lens[i + 1].0] == Offsets(lens)[lens[i].0] + lens[i].1
  {
    OffsetIsPrefixSum(lens, i);
    OffsetIsPrefixSum(lens, i + 1);
    assert lens[..i + 1][..i] == lens[..i];
  }

  /** With non-negative lengths the running total never falls. */
  lemma {:induction false} TotalGrows(lens: LengthTable, i: nat, j: nat)
    requires i <= j <= |lens|
    requires forall k :: 0 <= k < |lens| ==> lens[k].1 >= 0
    ensures Total(lens[..i]) <= Total(lens[..j])
    decreases j - i
  {
    if i < j {
      TotalGrows(lens, i, j - 1);
      assert lens[..j][..j - 1] == lens[..j - 1];
    }
  }

  /** With non-negative lengths, offsets do not decrease along the table. */
  lemma OffsetsNonDecreasing(lens: LengthTable, i: nat, j: nat)
    requires DistinctIds(lens) && i <= j < |lens|
    requires forall k :: 0 <= k < |lens| ==> lens[k].1 >= 0
    ensures lens[i].0 in Offsets(lens) && lens[j].0 in Offsets(lens)
    ensures Offsets(lens)[lens[i].0] <= Offsets(lens)[lens[j].0]
  {
    OffsetIsPrefixSum(lens, i);
    OffsetIsPrefixSum(lens, j);
    TotalGrows(lens, i, j);
  }

  /** The genes placed are exactly those of rows on a known chromosome. */
  lemma {:induction false} LocationsKeys(gff: seq<Gene>, offsets: map<string, int>, step: real, position: Position)
    ensures Locations(gff, offsets, step, position).Keys
            == set k | 0 <= k < |gff| && gff[k].chr in offsets :: gff[k].id
    decreases |gff|
  {
    if gff != [] {
      var init := gff[..|gff| - 1];
      LocationsKeys(init, offsets, step, position);
      assert forall k :: 0 <= k < |init| ==> init[k] == gff[k];
      var g := gff[|gff| - 1];
      var s := set k | 0 <= k < |init| && init[k].chr in offsets :: init[k].id;
      assert (set k | 0 <= k < |gff| && gff[k].chr in offsets :: gff[k].id)
             == s + (if g.chr in offsets then {g.id} else {});
    }
  }

  /** Each placed gene sits where its last row on a known chromosome puts it. */
  lemma {:induction false} LastRowWins(gff: seq<Gene>, offsets: map<string, int>, step: real, position: Position, id: string)
    requires id in Locations(gff, offsets, step, position)
    ensures exists k :: 0 <= k < |gff| && gff[k].id == id && gff[k].chr in offsets
              && Locations(gff, offsets, step, position)[id] == Coordinate(offsets, gff[k], step, position)
              && forall k' :: k < k' < |gff| && gff[k'].id == id ==> gff[k'].chr !in offsets
    decreases |gff|
  {
    var init := gff[..|gff| - 1];
    var g := gff[|gff| - 1];
    if g.chr in offsets && g.id == id {
      assert gff[|gff| - 1].id == id;
    } else {
      LastRowWins(init, offsets, step, position, id);
      var k :| 0 <= k < |init| && init[k].id == id && init[k].chr in offsets
              && Locations(init, offsets, step, position)[id] == Coordinate(offsets, init[k], step, position)
              && forall k' :: k < k' < |init| && init[k'].id == id ==> init[k'].chr !in offsets;
      assert gff[k] == init[k];
      forall k' | k < k' < |gff| && gff[k'].id == id ensures gff[k'].chr !in offsets {
        if k' < |init| {
          assert init[k'] == gff[k'];
        }
      }
    }
  }

  /** The documented example: chromosomes "1" of length 10 and "2" of length 5,
      step 1; a gene on "2" at value 3 lands at 13, and a gene on "3" is dropped,
      even when it repeats the first gene's id. */
  lemma ProjectionExample(position: Position, a: Gene, b: Gene)
    requires a.chr == "2" && Value(a, position) == 3.0
    requires b.chr == "3"
    ensures var r := Project([a, b], [("1", 10), ("2", 5)], 1.0, position);
            r == map[a.id := 13.0]
  {
    var lens: LengthTable := [("1", 10), ("2", 5)];
    assert lens[..1] == [("1", 10)] && lens[..1][..0] == [];
    var offsets := Offsets(lens);
    assert Offsets(lens[..1]) == map["1" := 0];
    assert Total(lens[..1]) == 10;
    assert offsets == map["1" := 0, "2" := 10];
    assert [a, b][..1] == [a] && [a][..0] == [];
    assert Locations([a], offsets, 1.0, position) == map[a.id := Coordinate(offsets, a, 1.0, position)];
    assert Coordinate(offsets, a, 1.0, position) == 13.0;
    assert b.chr !in offsets;
  }

  /** The genes `gene_location` places are exactly the ids of annotation rows
      whose chromosome is in the length table, no more and no fewer. */
  lemma ProjectKeys(gff: seq<Gene>, lens: LengthTable, step: real, position: Position)
    ensures Project(gff, lens, step, position).Keys
            == set k | 0 <= k < |gff| && gff[k].chr in (set i | 0 <= i < |lens| :: lens[i].0) :: gff[k].id
  {
    OffsetsKeys(lens);
    LocationsKeys(gff, Offsets(lens), step, position);
  }
}
