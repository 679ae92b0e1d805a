/**
  The byte layout of an EQTL binary container, as pure functions of the
  decoded records: the 20-byte header, one block per maximal run of records
  on the same chromosome, the index keyed by chromosome name, and the
  back-patched index pointer. The writer in module Gwas is proved to
  produce exactly `Container(features, order)`.
 */
module EqtlFormat {
  import opened Bytes

  /**
    A chromosome name, as the bytes `putNullTerminatedString` writes for it.
    Names are compared as these bytes, which assumes distinct names encode
    to distinct bytes.
   */
  type Name = seq<byte>

  /**
    A decoded association record as the writer sees it: its chromosome
    (`getChr`) and its binary encoding (`encodeBinary`, whose layout is not
    part of this model).
   */
  datatype Feature = Feature(chr: Name, binary: seq<byte>)

  /** A maximal run of consecutive records with the same chromosome name. */
  datatype Run = Run(chr: Name, features: seq<Feature>)

  /** Where a chromosome's block starts in the file, and how many bytes it has. */
  datatype IndexEntry = IndexEntry(position: int, size: int)

  const Version: int := 0
  /** 'E', 'Q', 'T', 'L' */
  const Magic: seq<byte> := [0x45, 0x51, 0x54, 0x4C]
  /** Offset of the reserved index pointer inside the header (`indexPositionPosition`). */
  const IndexPointerSlot: nat := 8
  const HeaderSize: nat := 20
  /** One past the largest Java `int`: every offset and size the writer keeps is an `int`. */
  const IntLimit: int := 0x8000_0000

  /**
    The header as first written: the magic, the version as an int, then the
    index pointer placeholder (a zero long and a zero int) at IndexPointerSlot.
   */
  function Header(): (h: seq<byte>)
    ensures |h| == HeaderSize
  {
    Magic + Int32LE(Version) + Pointer(0, 0)
  }

  /**
    The header's fields: the magic, the version, and a zero pointer at
    IndexPointerSlot; as bytes, "EQTL" followed by sixteen zero bytes.
   */
  lemma HeaderFields()
    ensures Header()[..4] == Magic
    ensures Header()[4..IndexPointerSlot] == Int32LE(Version)
    ensures Header()[IndexPointerSlot..] == Pointer(0, 0)
    ensures Header() == [0x45, 0x51, 0x54, 0x4C, 0, 0, 0, 0, 0, 0, 0, 0, 0, 0, 0, 0, 0, 0, 0, 0]
  {
    var h := Header();
    assert h == Magic + Int32LE(Version) + Pointer(0, 0);
    assert h[..4] == Magic;
    assert h[4..IndexPointerSlot] == Int32LE(Version);
    LEOfZero(4);
    LEOfZero(8);
  }

  /** The index pointer: where the index starts, as a long, then its length, as an int. */
  function Pointer(start: int, len: int): (p: seq<byte>)
    ensures |p| == 12
  {
    Int64LE(start) + Int32LE(len)
  }

  // ---------------------------------------------------------------------------
  // Records, runs and blocks

  /** The encodings of the records, concatenated in input order. */
  function Concat(fs: seq<Feature>): seq<byte>
  {
    if fs == [] then [] else Concat(fs[..|fs| - 1]) + fs[|fs| - 1].binary
  }

  /** The records of the runs, in order. */
  function Flatten(rs: seq<Run>): seq<Feature>
  {
    if rs == [] then [] else Flatten(rs[..|rs| - 1]) + rs[|rs| - 1].features
  }

  /**
    rs cuts fs into maximal runs: read in order the runs give back fs, no
    run is empty, every record of a run has the run's chromosome, and two
    neighbouring runs have different chromosomes.
   */
  ghost predicate IsRunPartition(rs: seq<Run>, fs: seq<Feature>)
  {
    && Flatten(rs) == fs
    && (forall k :: 0 <= k < |rs| ==> rs[k].features != [])
    && (forall k, f :: 0 <= k < |rs| && f in rs[k].features ==> f.chr == rs[k].chr)
    && (forall k :: 0 < k < |rs| ==> rs[k - 1].chr != rs[k].chr)
  }

  lemma FlattenSnoc(rs: seq<Run>, r: Run)
    ensures Flatten(rs + [r]) == Flatten(rs) + r.features
  {
    assert (rs + [r])[..|rs|] == rs;
  }

  /**
    The runs of the record stream, grown one record at a time as the
    writer's loop does: a record whose chromosome equals the current run's
    joins that run, any other record opens a new one.
   */
  function Runs(fs: seq<Feature>): (rs: seq<Run>)
    ensures fs == [] <==> rs == []
    ensures fs != [] ==> rs[|rs| - 1].chr == fs[|fs| - 1].chr
  {
    if fs == [] then []
    else
      var prev := Runs(fs[..|fs| - 1]);
      var f := fs[|fs| - 1];
      if prev != [] && prev[|prev| - 1].chr == f.chr then
        prev[..|prev| - 1] + [Run(f.chr, prev[|prev| - 1].features + [f])]
      else
        prev + [Run(f.chr, [f])]
  }

  /** A record with the current run's chromosome extends that run. */
  lemma PartitionJoin(prev: seq<Run>, xs: seq<Feature>, f: Feature)
    requires IsRunPartition(prev, xs)
    requires prev != [] && prev[|prev| - 1].chr == f.chr
    ensures IsRunPartition(prev[..|prev| - 1] + [Run(f.chr, prev[|prev| - 1].features + [f])], xs + [f])
  {
    var init, last := prev[..|prev| - 1], prev[|prev| - 1];
    var r := Run(f.chr, last.features + [f]);
    var rs := init + [r];
    assert prev == init + [last];
    FlattenSnoc(init, last);
    FlattenSnoc(init, r);
    forall k | 0 <= k < |rs|
      ensures rs[k].features != []
      ensures forall g :: g in rs[k].features ==> g.chr == rs[k].chr
    {
      if k < |init| {
        assert rs[k] == prev[k];
      } else {
        assert forall g :: g in last.features ==> g.chr == last.chr;
      }
    }
    forall k | 0 < k < |rs|
      ensures rs[k - 1].chr != rs[k].chr
    {
      assert rs[k - 1] == prev[k - 1];
      assert rs[k].chr == prev[k].chr;
    }
  }

  /** A record with any other chromosome opens a new run. */
  lemma PartitionOpen(prev: seq<Run>, xs: seq<Feature>, f: Feature)
    requires IsRunPartition(prev, xs)
    requires prev == [] || prev[|prev| - 1].chr != f.chr
    ensures IsRunPartition(prev + [Run(f.chr, [f])], xs + [f])
  {
    var rs := prev + [Run(f.chr, [f])];
    FlattenSnoc(prev, Run(f.chr, [f]));
    forall k | 0 <= k < |rs|
      ensures rs[k].features != []
      ensures forall g :: g in rs[k].features ==> g.chr == rs[k].chr
    {
      if k < |prev| {
        assert rs[k] == prev[k];
      }
    }
    forall k | 0 < k < |rs|
      ensures rs[k - 1].chr != rs[k].chr
    {
      assert rs[k - 1] == prev[k - 1];
    }
  }

  /** Runs cuts the records into maximal runs of one chromosome, in order. */
  lemma {:induction false} RunsPartition(fs: seq<Feature>)
    ensures IsRunPartition(Runs(fs), fs)
  {
    if fs != [] {
      var n := |fs| - 1;
      var prev, f := Runs(fs[..n]), fs[n];
      RunsPartition(fs[..n]);
      assert fs == fs[..n] + [f];
      if prev != [] && prev[|prev| - 1].chr == f.chr {
        PartitionJoin(prev, fs[..n], f);
      } else {
        PartitionOpen(prev, fs[..n], f);
      }
    }
  }

  /**
    One more record either joins the last run, when it has the last run's
    chromosome, or opens a run of its own.
   */
  lemma RunsSnoc(xs: seq<Feature>, f: Feature)
    ensures var rs := Runs(xs);
      Runs(xs + [f]) ==
        if rs != [] && rs[|rs| - 1].chr == f.chr
        then rs[..|rs| - 1] + [Run(f.chr, rs[|rs| - 1].features + [f])]
        else rs + [Run(f.chr, [f])]
  {
    assert (xs + [f])[..|xs|] == xs;
  }

  /** A block: the encodings of one run's records, stored uncompressed. */
  function RunBytes(r: Run): seq<byte>
  {
    Concat(r.features)
  }

  /** A run grown by one record has that record's encoding appended to its block. */
  lemma RunBytesSnoc(r: Run, f: Feature)
    ensures RunBytes(Run(r.chr, r.features + [f])) == RunBytes(r) + f.binary
  {
    assert (r.features + [f])[..|r.features|] == r.features;
  }

  /** The blocks of the runs, written one after the other. */
  function BlocksBytes(rs: seq<Run>): seq<byte>
  {
    if rs == [] then [] else BlocksBytes(rs[..|rs| - 1]) + RunBytes(rs[|rs| - 1])
  }

  /** File offset of block k: the header, then the blocks before it. */
  function Offset(rs: seq<Run>, k: nat): (p: int)
    requires k <= |rs|
    ensures p >= HeaderSize
  {
    HeaderSize + |BlocksBytes(rs[..k])|
  }

  lemma {:induction false} ConcatAppend(a: seq<Feature>, b: seq<Feature>)
    ensures Concat(a + b) == Concat(a) + Concat(b)
  {
    if b != [] {
      var n := |b| - 1;
      assert (a + b)[..|a + b| - 1] == a + b[..n];
      ConcatAppend(a, b[..n]);
    } else {
      assert a + b == a;
    }
  }

  lemma {:induction false} BlocksAppend(a: seq<Run>, b: seq<Run>)
    ensures BlocksBytes(a + b) == BlocksBytes(a) + BlocksBytes(b)
  {
    if b != [] {
      var n := |b| - 1;
      assert (a + b)[..|a + b| - 1] == a + b[..n];
      BlocksAppend(a, b[..n]);
    } else {
      assert a + b == a;
    }
  }

  /** Writing the blocks of the runs writes the runs' records, nothing else and in order. */
  lemma {:induction false} BlocksOfFlatten(rs: seq<Run>)
    ensures BlocksBytes(rs) == Concat(Flatten(rs))
  {
    if rs != [] {
      var n := |rs| - 1;
      BlocksOfFlatten(rs[..n]);
      ConcatAppend(Flatten(rs[..n]), rs[n].features);
    }
  }

  /**
    The block section of the file is every record's encoding, in input
    order: grouping into runs neither drops, repeats nor reorders a record.
   */
  lemma BlocksAreRecords(rs: seq<Run>, fs: seq<Feature>)
    requires IsRunPartition(rs, fs)
    ensures BlocksBytes(rs) == Concat(fs)
  {
    BlocksOfFlatten(rs);
  }

  /** A prefix of the input contributes a prefix of the record bytes. */
  lemma ConcatPrefix(fs: seq<Feature>, i: nat)
    requires i <= |fs|
    ensures |Concat(fs[..i])| <= |Concat(fs)|
  {
    assert fs == fs[..i] + fs[i..];
    ConcatAppend(fs[..i], fs[i..]);
  }

  /** Block offsets are prefix sums of block sizes, starting right after the header. */
  lemma OffsetIsPrefixSum(rs: seq<Run>, k: nat)
    requires k < |rs|
    ensures Offset(rs, 0) == HeaderSize
    ensures Offset(rs, k + 1) == Offset(rs, k) + |RunBytes(rs[k])|
  {
    assert rs[..k + 1][..k] == rs[..k];
  }

  lemma BlocksSnoc(rs: seq<Run>, k: nat)
    requires k < |rs|
    ensures BlocksBytes(rs[..k + 1]) == BlocksBytes(rs[..k]) + RunBytes(rs[k])
  {
    assert rs[..k + 1][..k] == rs[..k];
  }

  /** Block k follows the blocks before it inside the block section. */
  lemma BlockInBlocks(rs: seq<Run>, k: nat)
    requires k < |rs|
    ensures |BlocksBytes(rs[..k])| + |RunBytes(rs[k])| <= |BlocksBytes(rs)|
    ensures BlocksBytes(rs)[|BlocksBytes(rs[..k])|..|BlocksBytes(rs[..k])| + |RunBytes(rs[k])|] == RunBytes(rs[k])
  {
    var a, r, b := BlocksBytes(rs[..k]), RunBytes(rs[k]), BlocksBytes(rs[k + 1..]);
    assert rs == rs[..k + 1] + rs[k + 1..];
    BlocksAppend(rs[..k + 1], rs[k + 1..]);
    BlocksSnoc(rs, k);
    assert BlocksBytes(rs) == (a + r) + b;
    assert (a + r + b)[|a|..|a| + |r|] == r;
  }

  /**
    Block k sits at Offset(rs, k), byte for byte, behind any header of
    HeaderSize bytes.
   */
  lemma BlockAt(head: seq<byte>, rs: seq<Run>, k: nat)
    requires |head| == HeaderSize
    requires k < |rs|
    ensures Offset(rs, k) + |RunBytes(rs[k])| <= HeaderSize + |BlocksBytes(rs)|
    ensures (head + BlocksBytes(rs))[Offset(rs, k)..Offset(rs, k) + |RunBytes(rs[k])|] == RunBytes(rs[k])
  {
    BlockInBlocks(rs, k);
    SliceAfter(head, BlocksBytes(rs), |BlocksBytes(rs[..k])|, |BlocksBytes(rs[..k])| + |RunBytes(rs[k])|);
  }

  /** A slice of the second part of a concatenation, read at its offset in the whole. */
  lemma SliceAfter<T>(a: seq<T>, b: seq<T>, lo: int, hi: int)
    requires 0 <= lo <= hi <= |b|
    ensures (a + b)[|a| + lo..|a| + hi] == b[lo..hi]
  {
    assert forall i :: 0 <= i < hi - lo ==> (a + b)[|a| + lo..|a| + hi][i] == b[lo..hi][i];
  }

  // ---------------------------------------------------------------------------
  // The index map

  /**
    The index of run k's chromosome, if no later run has the same
    chromosome; -1 if no run has chromosome c.
   */
  function LastRun(rs: seq<Run>, c: Name): (k: int)
    ensures -1 <= k < |rs|
    ensures k >= 0 ==> rs[k].chr == c && forall j :: k < j < |rs| ==> rs[j].chr != c
    ensures k < 0 <==> forall j :: 0 <= j < |rs| ==> rs[j].chr != c
  {
    if rs == [] then -1
    else if rs[|rs| - 1].chr == c then |rs| - 1
    else LastRun(rs[..|rs| - 1], c)
  }

  /**
    `chrPositionMap` after flushing the runs in order: each flush puts
    (name -> offset, size), replacing an earlier entry with the same name.
   */
  function IndexMap(rs: seq<Run>): map<Name, IndexEntry>
  {
    if rs == [] then map[]
    else
      var n := |rs| - 1;
      IndexMap(rs[..n])[rs[n].chr := IndexEntry(Offset(rs, n), |RunBytes(rs[n])|)]
  }

  /**
    A name is in the index exactly when some run has it, and its entry
    points at the LAST such run: an earlier, non-contiguous run with the
    same name is overwritten.
   */
  lemma {:induction false} IndexMapLookup(rs: seq<Run>, c: Name)
    ensures c in IndexMap(rs) <==> LastRun(rs, c) >= 0
    ensures c in IndexMap(rs) ==>
      IndexMap(rs)[c] == IndexEntry(Offset(rs, LastRun(rs, c)), |RunBytes(rs[LastRun(rs, c)])|)
  {
    if rs != [] {
      var n := |rs| - 1;
      if rs[n].chr != c {
        IndexMapLookup(rs[..n], c);
        if LastRun(rs, c) >= 0 {
          var k := LastRun(rs, c);
          assert rs[..n][..k] == rs[..k];
        }
      }
    }
  }

  /**
    Closing the last run appends its block after the blocks before it, and
    puts its entry (its offset and size) into the index map.
   */
  lemma CloseLastRun(rs: seq<Run>)
    requires rs != []
    ensures var n := |rs| - 1;
      && BlocksBytes(rs) == BlocksBytes(rs[..n]) + RunBytes(rs[n])
      && IndexMap(rs) == IndexMap(rs[..n])[rs[n].chr := IndexEntry(HeaderSize + |BlocksBytes(rs[..n])|, |RunBytes(rs[n])|)]
  {
  }

  lemma {:induction false} FlattenMember(rs: seq<Run>, f: Feature)
    ensures f in Flatten(rs) <==> exists k :: 0 <= k < |rs| && f in rs[k].features
  {
    if rs != [] {
      var n := |rs| - 1;
      FlattenMember(rs[..n], f);
      if f in Flatten(rs) && f !in rs[n].features {
        var k :| 0 <= k < n && f in rs[..n][k].features;
        assert f in rs[k].features;
      }
    }
  }

  /** The index names exactly the distinct chromosomes of the input. */
  lemma IndexNames(rs: seq<Run>, fs: seq<Feature>)
    requires IsRunPartition(rs, fs)
    ensures IndexMap(rs).Keys == set f | f in fs :: f.chr
  {
    forall c | c in IndexMap(rs).Keys
      ensures c in set f | f in fs :: f.chr
    {
      IndexMapLookup(rs, c);
      var k := LastRun(rs, c);
      var f := rs[k].features[0];
      FlattenMember(rs, f);
    }
    forall c | c in set f | f in fs :: f.chr
      ensures c in IndexMap(rs).Keys
    {
      var f :| f in fs && f.chr == c;
      FlattenMember(rs, f);
      var k :| 0 <= k < |rs| && f in rs[k].features;
      assert rs[k].chr == c;
      IndexMapLookup(rs, c);
    }
  }

  // ---------------------------------------------------------------------------
  // The serialised index

  /**
    order lists every name of names exactly once (no repeats, only names,
    and as many as there are names): one iteration order of the map.
   */
  ghost predicate IsOrdering(order: seq<Name>, names: set<Name>)
  {
    && (forall i, j :: 0 <= i < j < |order| ==> order[i] != order[j])
    && (forall i :: 0 <= i < |order| ==> order[i] in names)
    && |order| == |names|
  }

  /** Dropping the first name of an ordering leaves an ordering of the other names. */
  lemma OrderingTail(order: seq<Name>, names: set<Name>)
    requires IsOrdering(order, names)
    requires order != []
    ensures order[0] in names
    ensures IsOrdering(order[1..], names - {order[0]})
  {
    forall i | 0 <= i < |order[1..]|
      ensures order[1..][i] in names - {order[0]}
    {
      assert order[1..][i] == order[i + 1] != order[0];
    }
  }

  /** An ordering lists every name: it is a permutation of the set. */
  lemma {:induction false} OrderingCovers(order: seq<Name>, names: set<Name>, n: Name)
    requires IsOrdering(order, names)
    requires n in names
    ensures n in order
  {
    if order == [] {
      assert false;
    } else if n != order[0] {
      OrderingTail(order, names);
      OrderingCovers(order[1..], names - {order[0]}, n);
    }
  }

  /** One index entry: the name, a 0 terminator, the offset as a long, the size as an int. */
  function EntryBytes(name: Name, e: IndexEntry): (r: seq<byte>)
    ensures |r| == EntryLength(name)
  {
    name + [0] + Int64LE(e.position) + Int32LE(e.size)
  }

  function EntryLength(name: Name): nat
  {
    |name| + 1 + 8 + 4
  }

  function EntriesBytes(m: map<Name, IndexEntry>, order: seq<Name>): seq<byte>
    requires forall n :: n in order ==> n in m
  {
    if order == [] then [] else EntryBytes(order[0], m[order[0]]) + EntriesBytes(m, order[1..])
  }

  /** Writing one more entry appends its bytes. */
  lemma {:induction false} EntriesBytesSnoc(m: map<Name, IndexEntry>, order: seq<Name>, n: Name)
    requires forall x :: x in order ==> x in m
    requires n in m
    ensures EntriesBytes(m, order + [n]) == EntriesBytes(m, order) + EntryBytes(n, m[n])
  {
    if order != [] {
      assert (order + [n])[1..] == order[1..] + [n];
      EntriesBytesSnoc(m, order[1..], n);
    }
  }

  /** The index block: the number of entries, then the entries in map iteration order. */
  function IndexBytes(m: map<Name, IndexEntry>, order: seq<Name>): seq<byte>
    requires IsOrdering(order, m.Keys)
  {
    Int32LE(|m|) + EntriesBytes(m, order)
  }

  /** Total size of the entries for a set of names, independent of any order. */
  ghost function EntriesLength(names: set<Name>): nat
  {
    if names == {} then 0
    else
      var n :| n in names;
      EntryLength(n) + EntriesLength(names - {n})
  }

  lemma {:induction false} EntriesLengthRemove(names: set<Name>, n: Name)
    requires n in names
    ensures EntriesLength(names) == EntryLength(n) + EntriesLength(names - {n})
    decreases |names|
  {
    var x :| x in names && EntriesLength(names) == EntryLength(x) + EntriesLength(names - {x});
    if x != n {
      assert names - {x} - {n} == names - {n} - {x};
      EntriesLengthRemove(names - {x}, n);
      EntriesLengthRemove(names - {n}, x);
    }
  }

  lemma {:induction false} EntriesBytesLength(m: map<Name, IndexEntry>, order: seq<Name>, names: set<Name>)
    requires forall n :: n in order ==> n in m
    requires IsOrdering(order, names)
    ensures |EntriesBytes(m, order)| == EntriesLength(names)
  {
    if order != [] {
      OrderingTail(order, names);
      EntriesBytesLength(m, order[1..], names - {order[0]});
      EntriesLengthRemove(names, order[0]);
    }
  }

  /** The index length is 4 + the sum over names of (|name| + 13), whatever the iteration order. */
  lemma IndexLength(m: map<Name, IndexEntry>, order: seq<Name>)
    requires IsOrdering(order, m.Keys)
    ensures |IndexBytes(m, order)| == 4 + EntriesLength(m.Keys)
  {
    EntriesBytesLength(m, order, m.Keys);
  }

  // ---------------------------------------------------------------------------
  // Back-patch and the whole file

  /**
    Writes ptr over the bytes at slot (a write through a RandomAccessFile
    positioned at slot): the length and every other byte stay as they were.
   */
  function Overwrite(file: seq<byte>, slot: int, ptr: seq<byte>): (r: seq<byte>)
    requires 0 <= slot && slot + |ptr| <= |file|
    ensures |r| == |file|
    ensures r[..slot] == file[..slot]
    ensures r[slot..slot + |ptr|] == ptr
    ensures r[slot + |ptr|..] == file[slot + |ptr|..]
  {
    seq(|file|, i requires 0 <= i < |file| => if slot <= i < slot + |ptr| then ptr[i - slot] else file[i])
  }

  /**
    The finished file for the runs rs and index iteration order `order`:
    header and blocks, then the index, then the pointer to the index
    written over the header's placeholder.
   */
  function Container(rs: seq<Run>, order: seq<Name>): seq<byte>
    requires IsOrdering(order, IndexMap(rs).Keys)
  {
    var body := Header() + BlocksBytes(rs);
    var index := IndexBytes(IndexMap(rs), order);
    Overwrite(body + index, IndexPointerSlot, Pointer(|body|, |index|))
  }

  /**
    The size of the finished file, computed from the input alone: the
    header, every record's encoding, the entry count, and one entry per
    distinct chromosome name.
   */
  ghost function ContainerLength(fs: seq<Feature>): nat
  {
    HeaderSize + |Concat(fs)| + 4 + EntriesLength(set f | f in fs :: f.chr)
  }

  /** Overwriting the pointer slot of a body followed by an index changes only that slot. */
  lemma OverwriteParts(body: seq<byte>, index: seq<byte>, ptr: seq<byte>)
    requires |body| >= HeaderSize && |ptr| == 12
    ensures var c := Overwrite(body + index, IndexPointerSlot, ptr);
      && c[..IndexPointerSlot] == body[..IndexPointerSlot]
      && c[IndexPointerSlot..HeaderSize] == ptr
      && |c| == |body| + |index|
      && c[|body|..] == index
  {
    var c := Overwrite(body + index, IndexPointerSlot, ptr);
    assert c[HeaderSize..] == body[HeaderSize..] + index;
    assert c[|body|..] == c[HeaderSize..][|body| - HeaderSize..];
  }

  /** Overwriting the pointer slot leaves every byte after the header alone. */
  lemma OverwriteKeepsBody(body: seq<byte>, index: seq<byte>, ptr: seq<byte>, lo: int, hi: int)
    requires |ptr| == 12
    requires HeaderSize <= lo <= hi <= |body|
    ensures Overwrite(body + index, IndexPointerSlot, ptr)[lo..hi] == body[lo..hi]
  {
    var c := Overwrite(body + index, IndexPointerSlot, ptr);
    assert c[lo..hi] == c[HeaderSize..][lo - HeaderSize..hi - HeaderSize];
    assert (body + index)[lo..hi] == (body + index)[HeaderSize..][lo - HeaderSize..hi - HeaderSize];
  }

  /**
    The file made of a header (magic and version first), blocks and an
    index, with the pointer written: the magic and version are kept, the
    pointer slot holds the pointer, and the index is the file's tail.
   */
  lemma PointedLayout(head: seq<byte>, blocks: seq<byte>, index: seq<byte>, ptr: seq<byte>)
    requires |head| == HeaderSize && |ptr| == 12
    ensures var body := head + blocks;
      var c := Overwrite(body + index, IndexPointerSlot, ptr);
      && |c| == |body| + |index|
      && c[..4] == head[..4]
      && c[4..IndexPointerSlot] == head[4..IndexPointerSlot]
      && c[IndexPointerSlot..HeaderSize] == ptr
      && c[|body|..] == index
  {
    var body := head + blocks;
    var c := Overwrite(body + index, IndexPointerSlot, ptr);
    OverwriteParts(body, index, ptr);
    assert c[..4] == c[..IndexPointerSlot][..4];
    assert c[4..IndexPointerSlot] == c[..IndexPointerSlot][4..];
    assert body[..IndexPointerSlot] == head[..IndexPointerSlot];
    assert head[..4] == head[..IndexPointerSlot][..4];
    assert head[4..IndexPointerSlot] == head[..IndexPointerSlot][4..];
  }
}
