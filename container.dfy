/**
  Properties of the finished file as a whole: its size, its header and
  index pointer, the index at its tail, and where each index entry points.
 */
module EqtlContainer {
  import opened Bytes
  import opened EqtlFormat

  /** The sizes of the block section and of the index depend on the records only. */
  lemma ContainerSize(rs: seq<Run>, fs: seq<Feature>, order: seq<Name>)
    requires IsRunPartition(rs, fs)
    requires IsOrdering(order, IndexMap(rs).Keys)
    ensures |BlocksBytes(rs)| == |Concat(fs)|
    ensures |IndexBytes(IndexMap(rs), order)| == 4 + EntriesLength(set f | f in fs :: f.chr)
  {
    BlocksAreRecords(rs, fs);
    IndexNames(rs, fs);
    IndexLength(IndexMap(rs), order);
  }

  /**
    The finished file for runs rs of the records fs is as long as the input
    alone determines, and ends with the index, which starts right after the
    last block.
   */
  lemma ContainerLayout(rs: seq<Run>, fs: seq<Feature>, order: seq<Name>)
    requires IsRunPartition(rs, fs)
    requires IsOrdering(order, IndexMap(rs).Keys)
    ensures |Container(rs, order)| == ContainerLength(fs)
    ensures Container(rs, order)[HeaderSize + |Concat(fs)|..] == IndexBytes(IndexMap(rs), order)
  {
    var head, blocks, index := Header(), BlocksBytes(rs), IndexBytes(IndexMap(rs), order);
    var ptr := Pointer(|head + blocks|, |index|);
    assert Container(rs, order) == Overwrite(head + blocks + index, IndexPointerSlot, ptr);
    ContainerSize(rs, fs, order);
    OverwriteParts(head + blocks, index, ptr);
  }

  /** The finished file starts with the magic and the version, as the header has them. */
  lemma ContainerMagic(rs: seq<Run>, order: seq<Name>)
    requires IsOrdering(order, IndexMap(rs).Keys)
    ensures Container(rs, order)[..4] == Magic
    ensures Container(rs, order)[4..IndexPointerSlot] == Int32LE(Version)
  {
    var head, blocks, index := Header(), BlocksBytes(rs), IndexBytes(IndexMap(rs), order);
    var ptr := Pointer(|head + blocks|, |index|);
    assert Container(rs, order) == Overwrite(head + blocks + index, IndexPointerSlot, ptr);
    HeaderFields();
    PointedLayout(head, blocks, index, ptr);
  }

  /**
    The index pointer of the finished file holds the offset and the length
    of the index as written: right after the last block, up to the end of
    the file.
   */
  lemma ContainerPointer(rs: seq<Run>, fs: seq<Feature>, order: seq<Name>)
    requires IsRunPartition(rs, fs)
    requires IsOrdering(order, IndexMap(rs).Keys)
    ensures |Container(rs, order)| >= HeaderSize + |Concat(fs)|
    ensures Container(rs, order)[IndexPointerSlot..HeaderSize]
            == Pointer(HeaderSize + |Concat(fs)|, |Container(rs, order)| - (HeaderSize + |Concat(fs)|))
  {
    BlocksAreRecords(rs, fs);
    PointerInFile(Header(), BlocksBytes(rs), IndexBytes(IndexMap(rs), order));
  }

  /** ContainerPointer for any header, blocks and index. */
  lemma PointerInFile(head: seq<byte>, blocks: seq<byte>, index: seq<byte>)
    requires |head| == HeaderSize
    ensures var c := Overwrite(head + blocks + index, IndexPointerSlot, Pointer(|head + blocks|, |index|));
      && |c| >= HeaderSize + |blocks|
      && c[IndexPointerSlot..HeaderSize] == Pointer(HeaderSize + |blocks|, |c| - (HeaderSize + |blocks|))
  {
    var ptr := Pointer(|head + blocks|, |index|);
    OverwriteParts(head + blocks, index, ptr);
  }

  /**
    Every index entry addresses, in the finished file, the block of the
    last run of its chromosome.
   */
  lemma EntryLocatesLastRun(rs: seq<Run>, order: seq<Name>, c: Name)
    requires IsOrdering(order, IndexMap(rs).Keys)
    requires c in IndexMap(rs)
    ensures 0 <= LastRun(rs, c)
    ensures HeaderSize <= IndexMap(rs)[c].position
    ensures 0 <= IndexMap(rs)[c].size
    ensures IndexMap(rs)[c].position + IndexMap(rs)[c].size <= HeaderSize + |BlocksBytes(rs)| <= |Container(rs, order)|
    ensures Container(rs, order)[IndexMap(rs)[c].position..IndexMap(rs)[c].position + IndexMap(rs)[c].size]
            == RunBytes(rs[LastRun(rs, c)])
  {
    var head, index := Header(), IndexBytes(IndexMap(rs), order);
    var ptr := Pointer(|head + BlocksBytes(rs)|, |index|);
    assert Container(rs, order) == Overwrite(head + BlocksBytes(rs) + index, IndexPointerSlot, ptr);
    EntryInFile(head, rs, index, ptr, c);
  }

  /** EntryLocatesLastRun for any header, index and pointer bytes. */
  lemma EntryInFile(head: seq<byte>, rs: seq<Run>, index: seq<byte>, ptr: seq<byte>, c: Name)
    requires |head| == HeaderSize && |ptr| == 12
    requires c in IndexMap(rs)
    ensures 0 <= LastRun(rs, c)
    ensures HeaderSize <= IndexMap(rs)[c].position
    ensures 0 <= IndexMap(rs)[c].size
    ensures IndexMap(rs)[c].position + IndexMap(rs)[c].size <= HeaderSize + |BlocksBytes(rs)|
    ensures Overwrite(head + BlocksBytes(rs) + index, IndexPointerSlot, ptr)
              [IndexMap(rs)[c].position..IndexMap(rs)[c].position + IndexMap(rs)[c].size]
            == RunBytes(rs[LastRun(rs, c)])
  {
    IndexMapLookup(rs, c);
    var k := LastRun(rs, c);
    var e := IndexMap(rs)[c];
    assert e.position == Offset(rs, k) && e.position + e.size == Offset(rs, k) + |RunBytes(rs[k])|;
    BlockInFile(head, rs, index, ptr, k);
  }

  /** Block k is intact in the finished file, whatever the header, index and pointer bytes. */
  lemma BlockInFile(head: seq<byte>, rs: seq<Run>, index: seq<byte>, ptr: seq<byte>, k: nat)
    requires |head| == HeaderSize && |ptr| == 12
    requires k < |rs|
    ensures Offset(rs, k) + |RunBytes(rs[k])| <= HeaderSize + |BlocksBytes(rs)|
    ensures Overwrite(head + BlocksBytes(rs) + index, IndexPointerSlot, ptr)
              [Offset(rs, k)..Offset(rs, k) + |RunBytes(rs[k])|]
            == RunBytes(rs[k])
  {
    var lo, hi := Offset(rs, k), Offset(rs, k) + |RunBytes(rs[k])|;
    var body := head + BlocksBytes(rs);
    BlockAt(head, rs, k);
    OverwriteKeepsBody(body, index, ptr, lo, hi);
  }
}
