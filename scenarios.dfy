/**
  Concrete inputs and what the writer makes of them: an input with no
  records, two chromosomes in two runs, and a chromosome that comes back
  after another one.
 */
module EqtlScenarios {
  import opened Wrappers
  import opened Bytes
  import opened EqtlFormat
  import opened EqtlIndexReader

  /**
    No records: the file is the header and an index holding only its
    zero count, and the pointer locates that 4-byte index right after the header.
   */
  lemma EmptyInput()
    ensures Runs([]) == [] && IndexMap([]) == map[]
    ensures |Container([], [])| == HeaderSize + 4
    ensures Container([], [])[HeaderSize..] == Int32LE(0)
    ensures ReadPointer(Container([], [])) == Some((HeaderSize, 4))
  {
    assert EntriesLength({}) == 0;
    PointerRoundTrip([], [], []);
    OverwriteParts(Header(), IndexBytes(map[], []), Pointer(HeaderSize, 4));
  }

  /** The block of a run of one record is that record's encoding. */
  lemma SingleRun(f: Feature)
    ensures RunBytes(Run(f.chr, [f])) == f.binary
  {
    RunBytesSnoc(Run(f.chr, []), f);
    assert [] + [f] == [f];
  }

  /** The runs and block bytes of the records a, a (one run). */
  lemma OneRun(f1: Feature, f2: Feature)
    requires f1.chr == f2.chr
    ensures Runs([f1, f2]) == [Run(f1.chr, [f1, f2])]
    ensures RunBytes(Run(f1.chr, [f1, f2])) == f1.binary + f2.binary
  {
    assert [] + [f1] == [f1] && [f1] + [f2] == [f1, f2];
    RunsSnoc([], f1);
    RunsSnoc([f1], f2);
    SingleRun(f1);
    RunBytesSnoc(Run(f1.chr, [f1]), f2);
  }

  /** The runs of the records a, a, b. */
  lemma TwoRuns(f1: Feature, f2: Feature, f3: Feature)
    requires f1.chr == f2.chr && f2.chr != f3.chr
    ensures Runs([f1, f2, f3]) == [Run(f1.chr, [f1, f2]), Run(f3.chr, [f3])]
  {
    OneRun(f1, f2);
    assert [f1, f2] + [f3] == [f1, f2, f3];
    RunsSnoc([f1, f2], f3);
  }

  /** The blocks and index map of the records a, a, b. */
  lemma TwoRunsIndex(f1: Feature, f2: Feature, f3: Feature)
    requires f1.chr == f2.chr && f2.chr != f3.chr
    ensures BlocksBytes(Runs([f1, f2, f3])) == f1.binary + f2.binary + f3.binary
    ensures IndexMap(Runs([f1, f2, f3]))
            == map[f1.chr := IndexEntry(HeaderSize, |f1.binary| + |f2.binary|),
                   f3.chr := IndexEntry(HeaderSize + |f1.binary| + |f2.binary|, |f3.binary|)]
  {
    TwoRuns(f1, f2, f3);
    OneRun(f1, f2);
    SingleRun(f3);
    var rs := Runs([f1, f2, f3]);
    var r0, r1 := rs[0], rs[1];
    assert rs[..1] == [r0] && rs[..0] == [] && rs[..2] == rs;
    assert BlocksBytes([r0]) == RunBytes(r0) by {
      assert [r0][..0] == [];
    }
    assert IndexMap([r0]) == map[f1.chr := IndexEntry(HeaderSize, |RunBytes(r0)|)];
    assert BlocksBytes(rs) == BlocksBytes([r0]) + RunBytes(r1);
  }

  /**
    Records of chromosomes a, a, b: two blocks, two index entries, and the
    index starts right after both blocks.
   */
  lemma TwoChromosomes(f1: Feature, f2: Feature, f3: Feature, order: seq<Name>)
    requires f1.chr == f2.chr && f2.chr != f3.chr
    requires IsOrdering(order, {f1.chr, f3.chr})
    requires ContainerLength([f1, f2, f3]) < IntLimit
    ensures Runs([f1, f2, f3]) == [Run(f1.chr, [f1, f2]), Run(f3.chr, [f3])]
    ensures IndexMap(Runs([f1, f2, f3]))
            == map[f1.chr := IndexEntry(HeaderSize, |f1.binary| + |f2.binary|),
                   f3.chr := IndexEntry(HeaderSize + |f1.binary| + |f2.binary|, |f3.binary|)]
    ensures ReadPointer(Container(Runs([f1, f2, f3]), order)).Some?
    ensures ReadPointer(Container(Runs([f1, f2, f3]), order)).value.0
            == HeaderSize + |f1.binary| + |f2.binary| + |f3.binary|
  {
    var fs := [f1, f2, f3];
    var rs := Runs(fs);
    TwoRuns(f1, f2, f3);
    TwoRunsIndex(f1, f2, f3);
    RunsPartition(fs);
    BlocksAreRecords(rs, fs);
    assert IndexMap(rs).Keys == {f1.chr, f3.chr};
    PointerRoundTrip(rs, fs, order);
  }

  /** The runs and index map of the records a, a, b, a. */
  lemma ReturnRunsIndex(f1: Feature, f2: Feature, f3: Feature, f4: Feature)
    requires f1.chr == f2.chr == f4.chr && f1.chr != f3.chr
    ensures Runs([f1, f2, f3, f4]) == Runs([f1, f2, f3]) + [Run(f1.chr, [f4])]
    ensures IndexMap(Runs([f1, f2, f3, f4]))
            == map[f1.chr := IndexEntry(HeaderSize + |f1.binary| + |f2.binary| + |f3.binary|, |f4.binary|),
                   f3.chr := IndexEntry(HeaderSize + |f1.binary| + |f2.binary|, |f3.binary|)]
  {
    TwoRuns(f1, f2, f3);
    TwoRunsIndex(f1, f2, f3);
    SingleRun(f4);
    assert [f1, f2, f3] + [f4] == [f1, f2, f3, f4];
    RunsSnoc([f1, f2, f3], f4);
    var rs := Runs([f1, f2, f3, f4]);
    assert rs[..2] == Runs([f1, f2, f3]);
  }

  /**
    Records of chromosomes a, a, b, a: three blocks are written but the
    index has two entries, and a's entry locates its last run, which is
    the block read back for a.
   */
  lemma ChromosomeReturns(f1: Feature, f2: Feature, f3: Feature, f4: Feature, order: seq<Name>)
    requires f1.chr == f2.chr == f4.chr && f1.chr != f3.chr
    requires 0 !in f1.chr && 0 !in f3.chr
    requires IsOrdering(order, {f1.chr, f3.chr})
    requires ContainerLength([f1, f2, f3, f4]) < IntLimit
    ensures |Runs([f1, f2, f3, f4])| == 3
    ensures |IndexMap(Runs([f1, f2, f3, f4]))| == 2
    ensures IndexMap(Runs([f1, f2, f3, f4]))[f1.chr]
            == IndexEntry(HeaderSize + |f1.binary| + |f2.binary| + |f3.binary|, |f4.binary|)
    ensures ReadBlock(Container(Runs([f1, f2, f3, f4]), order), f1.chr) == Some(f4.binary)
  {
    var fs := [f1, f2, f3, f4];
    TwoRuns(f1, f2, f3);
    ReturnRunsIndex(f1, f2, f3, f4);
    SingleRun(f4);
    var rs := Runs(fs);
    assert |rs| == 3 && rs[2] == Run(f1.chr, [f4]);
    assert IndexMap(rs).Keys == {f1.chr, f3.chr};
    RunsPartition(fs);
    assert LastRun(rs, f1.chr) == 2;
    ReadBlockOfContainer(rs, fs, order, f1.chr);
  }
}
