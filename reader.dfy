/**
  A reader for the container: it reads the index pointer from the header,
  parses the index it points at, and looks a chromosome's block up. The
  writer's output is proved to read back through it: the index reads back
  as the writer's own index map, and every entry leads to the bytes of the
  block the writer recorded for that chromosome.
 */
module EqtlIndexReader {
  import opened Wrappers
  import opened Bytes
  import opened EqtlFormat
  import opened EqtlContainer

  /** The pointer fields of the header: where the index starts and how long it is. */
  function ReadPointer(file: seq<byte>): (p: Option<(nat, nat)>)
    ensures p.Some? <==> |file| >= HeaderSize
  {
    if |file| < HeaderSize then None
    else Some((FromLE(file[IndexPointerSlot..IndexPointerSlot + 8]), FromLE(file[IndexPointerSlot + 8..HeaderSize])))
  }

  /**
    A 0-terminated name at the front of bs, and the bytes after the
    terminator; None when bs holds no 0 byte.
   */
  function ParseName(bs: seq<byte>): (r: Option<(Name, seq<byte>)>)
    ensures r.Some? ==> 0 !in r.value.0 && bs == r.value.0 + [0] + r.value.1
    ensures r.None? ==> 0 !in bs
  {
    if bs == [] then None
    else if bs[0] == 0 then Some(([], bs[1..]))
    else
      match ParseName(bs[1..])
      case None => None
      case Some((name, rest)) => Some(([bs[0]] + name, rest))
  }

  /** One index entry at the front of bs, and the bytes after it. */
  function ParseEntry(bs: seq<byte>): Option<(Name, IndexEntry, seq<byte>)>
  {
    match ParseName(bs)
    case None => None
    case Some((name, rest)) =>
      if |rest| < 12 then None
      else Some((name, IndexEntry(FromLE(rest[..8]), FromLE(rest[8..12])), rest[12..]))
  }

  /** Exactly count index entries, and nothing after them. */
  function ParseEntries(bs: seq<byte>, count: nat): Option<seq<(Name, IndexEntry)>>
    decreases count
  {
    if count == 0 then
      if bs == [] then Some([]) else None
    else
      match ParseEntry(bs)
      case None => None
      case Some((name, e, rest)) =>
        match ParseEntries(rest, count - 1)
        case None => None
        case Some(tail) => Some([(name, e)] + tail)
  }

  /** The index block: the entry count, then that many entries. */
  function ParseIndex(bs: seq<byte>): Option<seq<(Name, IndexEntry)>>
  {
    if |bs| < 4 then None else ParseEntries(bs[4..], FromLE(bs[..4]))
  }

  /** The index of a whole file, found through the header's pointer. */
  function ReadIndex(file: seq<byte>): Option<seq<(Name, IndexEntry)>>
  {
    match ReadPointer(file)
    case None => None
    case Some((start, len)) =>
      if start + len <= |file| then ParseIndex(file[start..start + len]) else None
  }

  /** The first entry named c. */
  function Lookup(es: seq<(Name, IndexEntry)>, c: Name): (r: Option<IndexEntry>)
    ensures r.Some? ==> (c, r.value) in es
    ensures r.None? ==> forall i :: 0 <= i < |es| ==> es[i].0 != c
  {
    if es == [] then None
    else if es[0].0 == c then Some(es[0].1)
    else Lookup(es[1..], c)
  }

  /**
    The block of chromosome c in a file: look c up in the index the header
    points at, and take the bytes the entry addresses.
   */
  function ReadBlock(file: seq<byte>, c: Name): Option<seq<byte>>
  {
    match ReadIndex(file)
    case None => None
    case Some(es) =>
      match Lookup(es, c)
      case None => None
      case Some(e) =>
        if 0 <= e.position && 0 <= e.size && e.position + e.size <= |file|
        then Some(file[e.position..e.position + e.size])
        else None
  }

  /** The entries of map m, in the order `order`. */
  function Entries(m: map<Name, IndexEntry>, order: seq<Name>): (es: seq<(Name, IndexEntry)>)
    requires forall n :: n in order ==> n in m
    ensures |es| == |order|
    ensures forall i :: 0 <= i < |order| ==> es[i] == (order[i], m[order[i]])
  {
    if order == [] then [] else [(order[0], m[order[0]])] + Entries(m, order[1..])
  }

  /**
    Every name is free of 0 bytes (the terminator), every offset and size
    fits in a Java int, and so does the number of entries.
   */
  ghost predicate Encodable(m: map<Name, IndexEntry>)
  {
    && |m| < IntLimit
    && (forall n :: n in m ==> 0 !in n)
    && (forall n :: n in m ==> 0 <= m[n].position < IntLimit && 0 <= m[n].size < IntLimit)
  }

  lemma IntFits()
    ensures IntLimit < Pow256(4) <= Pow256(8)
  {
    assert Pow256(4) == 0x1_0000_0000;
    assert Pow256(8) == 0x1_0000_0000 * Pow256(4);
  }

  /** A name written with its terminator reads back, leaving the bytes after it. */
  lemma {:induction false} NameRoundTrip(name: Name, rest: seq<byte>)
    requires 0 !in name
    ensures ParseName(name + [0] + rest) == Some((name, rest))
  {
    if name != [] {
      assert (name + [0] + rest)[1..] == name[1..] + [0] + rest;
      NameRoundTrip(name[1..], rest);
      assert [name[0]] + name[1..] == name;
    } else {
      assert (name + [0] + rest)[1..] == rest;
    }
  }

  /** One entry, as writeIndex writes it, reads back. */
  lemma EntryRoundTrip(name: Name, e: IndexEntry, rest: seq<byte>)
    requires 0 !in name
    requires 0 <= e.position < IntLimit && 0 <= e.size < IntLimit
    ensures ParseEntry(EntryBytes(name, e) + rest) == Some((name, e, rest))
  {
    var fields := Int64LE(e.position) + Int32LE(e.size) + rest;
    assert EntryBytes(name, e) + rest == name + [0] + fields;
    NameRoundTrip(name, fields);
    assert fields[..8] == Int64LE(e.position);
    assert fields[8..12] == Int32LE(e.size);
    assert fields[12..] == rest;
    IntFits();
    FromLEOfLE(e.position, 8);
    FromLEOfLE(e.size, 4);
  }

  /** The entries, as writeIndex writes them, read back in the same order. */
  lemma {:induction false} EntriesRoundTrip(m: map<Name, IndexEntry>, order: seq<Name>)
    requires forall n :: n in order ==> n in m
    requires Encodable(m)
    ensures ParseEntries(EntriesBytes(m, order), |order|) == Some(Entries(m, order))
  {
    if order != [] {
      var n := order[0];
      EntryRoundTrip(n, m[n], EntriesBytes(m, order[1..]));
      EntriesRoundTrip(m, order[1..]);
    }
  }

  /**
    The index block reads back as the map's entries, in the order the
    writer iterated the map.
   */
  lemma IndexRoundTrip(m: map<Name, IndexEntry>, order: seq<Name>)
    requires IsOrdering(order, m.Keys)
    requires Encodable(m)
    ensures ParseIndex(IndexBytes(m, order)) == Some(Entries(m, order))
  {
    var bs := IndexBytes(m, order);
    assert bs[..4] == Int32LE(|m|);
    assert bs[4..] == EntriesBytes(m, order);
    IntFits();
    FromLEOfLE(|m|, 4);
    EntriesRoundTrip(m, order);
  }

  /**
    The entries of an ordering describe the map exactly: each entry is a
    key of the map with its value, and each key has an entry.
   */
  lemma EntriesDescribeMap(m: map<Name, IndexEntry>, order: seq<Name>)
    requires IsOrdering(order, m.Keys)
    ensures |Entries(m, order)| == |m|
    ensures forall i :: 0 <= i < |Entries(m, order)| ==>
      Entries(m, order)[i].0 in m && m[Entries(m, order)[i].0] == Entries(m, order)[i].1
    ensures forall n :: n in m ==> exists i :: 0 <= i < |Entries(m, order)| && Entries(m, order)[i] == (n, m[n])
  {
    var es := Entries(m, order);
    forall n | n in m
      ensures exists i :: 0 <= i < |es| && es[i] == (n, m[n])
    {
      OrderingCovers(order, m.Keys, n);
      var i :| 0 <= i < |order| && order[i] == n;
      assert es[i] == (n, m[n]);
    }
  }

  /** Looking a name up in the entries of an ordering is looking it up in the map. */
  lemma {:induction false} LookupEntries(m: map<Name, IndexEntry>, order: seq<Name>, names: set<Name>, c: Name)
    requires IsOrdering(order, names)
    requires names <= m.Keys
    ensures Lookup(Entries(m, order), c) == if c in names then Some(m[c]) else None
  {
    if order != [] {
      OrderingTail(order, names);
      var es := Entries(m, order);
      assert es[1..] == Entries(m, order[1..]);
      if order[0] != c {
        LookupEntries(m, order[1..], names - {order[0]}, c);
      }
    }
  }

  /** Each entry costs at least one byte, so there are no more entries than index bytes. */
  lemma {:induction false} EntriesLengthBound(names: set<Name>)
    ensures |names| <= EntriesLength(names)
    decreases |names|
  {
    if names != {} {
      var n :| n in names;
      EntriesLengthRemove(names, n);
      EntriesLengthBound(names - {n});
    }
  }

  /**
    The pointer of a finished file reads back as the offset of the index
    (the header plus every record's bytes) and the index's length.
   */
  lemma PointerRoundTrip(rs: seq<Run>, fs: seq<Feature>, order: seq<Name>)
    requires IsRunPartition(rs, fs)
    requires IsOrdering(order, IndexMap(rs).Keys)
    requires ContainerLength(fs) < IntLimit
    ensures ReadPointer(Container(rs, order))
            == Some((HeaderSize + |Concat(fs)|, |IndexBytes(IndexMap(rs), order)|))
  {
    var c := Container(rs, order);
    var start, len := HeaderSize + |Concat(fs)|, |IndexBytes(IndexMap(rs), order)|;
    ContainerPointer(rs, fs, order);
    ContainerLayout(rs, fs, order);
    assert |c| - start == len;
    assert c[IndexPointerSlot..IndexPointerSlot + 8] == Int64LE(start);
    assert c[IndexPointerSlot + 8..HeaderSize] == Int32LE(len);
    IntFits();
    FromLEOfLE(start, 8);
    FromLEOfLE(len, 4);
  }

  /**
    The index map of runs of records whose names hold no 0 byte, in a file
    no larger than a Java int can count, is encodable.
   */
  lemma IndexEncodable(rs: seq<Run>, fs: seq<Feature>, order: seq<Name>)
    requires IsRunPartition(rs, fs)
    requires IsOrdering(order, IndexMap(rs).Keys)
    requires ContainerLength(fs) < IntLimit
    requires forall f :: f in fs ==> 0 !in f.chr
    ensures Encodable(IndexMap(rs))
  {
    var m := IndexMap(rs);
    IndexNames(rs, fs);
    EntriesLengthBound(m.Keys);
    BlocksAreRecords(rs, fs);
    forall n | n in m
      ensures 0 !in n
      ensures 0 <= m[n].position < IntLimit && 0 <= m[n].size < IntLimit
    {
      var f :| f in fs && f.chr == n;
      EntryInFile(Header(), rs, [], Pointer(0, 0), n);
    }
  }

  /** The index of a finished file reads back as the writer's map, in the writer's order. */
  lemma ReadContainer(rs: seq<Run>, fs: seq<Feature>, order: seq<Name>)
    requires IsRunPartition(rs, fs)
    requires IsOrdering(order, IndexMap(rs).Keys)
    requires ContainerLength(fs) < IntLimit
    requires forall f :: f in fs ==> 0 !in f.chr
    ensures ReadIndex(Container(rs, order)) == Some(Entries(IndexMap(rs), order))
  {
    var index := IndexBytes(IndexMap(rs), order);
    PointerRoundTrip(rs, fs, order);
    IndexAtPointer(rs, fs, order);
    IndexEncodable(rs, fs, order);
    IndexRoundTrip(IndexMap(rs), order);
    ReadIndexVia(Container(rs, order), HeaderSize + |Concat(fs)|, |index|, index, Entries(IndexMap(rs), order));
  }

  /** The bytes the pointer addresses are the index. */
  lemma IndexAtPointer(rs: seq<Run>, fs: seq<Feature>, order: seq<Name>)
    requires IsRunPartition(rs, fs)
    requires IsOrdering(order, IndexMap(rs).Keys)
    ensures var start, len := HeaderSize + |Concat(fs)|, |IndexBytes(IndexMap(rs), order)|;
      && start + len <= |Container(rs, order)|
      && Container(rs, order)[start..start + len] == IndexBytes(IndexMap(rs), order)
  {
    var c := Container(rs, order);
    ContainerLayout(rs, fs, order);
    var start := HeaderSize + |Concat(fs)|;
    assert c[start..] == IndexBytes(IndexMap(rs), order);
    assert c[start..start + |c[start..]|] == c[start..];
  }

  lemma ReadIndexVia(file: seq<byte>, start: nat, len: nat, index: seq<byte>, es: seq<(Name, IndexEntry)>)
    requires ReadPointer(file) == Some((start, len))
    requires start + len <= |file| && file[start..start + len] == index
    requires ParseIndex(index) == Some(es)
    ensures ReadIndex(file) == Some(es)
  {
  }

  /**
    Looking chromosome c up in a finished file yields the bytes of the last
    run of c's records; a chromosome absent from the input is not found.
   */
  lemma ReadBlockOfContainer(rs: seq<Run>, fs: seq<Feature>, order: seq<Name>, c: Name)
    requires IsRunPartition(rs, fs)
    requires IsOrdering(order, IndexMap(rs).Keys)
    requires ContainerLength(fs) < IntLimit
    requires forall f :: f in fs ==> 0 !in f.chr
    ensures LastRun(rs, c) < 0 ==> ReadBlock(Container(rs, order), c) == None
    ensures LastRun(rs, c) >= 0 ==> ReadBlock(Container(rs, order), c) == Some(RunBytes(rs[LastRun(rs, c)]))
  {
    var m, file := IndexMap(rs), Container(rs, order);
    var es := Entries(m, order);
    ReadContainer(rs, fs, order);
    LookupEntries(m, order, m.Keys, c);
    IndexMapLookup(rs, c);
    if c in m {
      BlockOfEntry(rs, order, c);
    } else {
      ReadBlockMissing(file, es, c);
    }
  }

  /** ReadBlockOfContainer for a chromosome of the input. */
  lemma BlockOfEntry(rs: seq<Run>, order: seq<Name>, c: Name)
    requires IsOrdering(order, IndexMap(rs).Keys)
    requires c in IndexMap(rs) && 0 <= LastRun(rs, c)
    requires ReadIndex(Container(rs, order)) == Some(Entries(IndexMap(rs), order))
    requires Lookup(Entries(IndexMap(rs), order), c) == Some(IndexMap(rs)[c])
    ensures ReadBlock(Container(rs, order), c) == Some(RunBytes(rs[LastRun(rs, c)]))
  {
    EntryLocatesLastRun(rs, order, c);
    ReadBlockFound(Container(rs, order), Entries(IndexMap(rs), order), c, IndexMap(rs)[c], RunBytes(rs[LastRun(rs, c)]));
  }

  lemma ReadBlockFound(file: seq<byte>, es: seq<(Name, IndexEntry)>, c: Name, e: IndexEntry, block: seq<byte>)
    requires ReadIndex(file) == Some(es)
    requires Lookup(es, c) == Some(e)
    requires 0 <= e.position && 0 <= e.size && e.position + e.size <= |file|
    requires file[e.position..e.position + e.size] == block
    ensures ReadBlock(file, c) == Some(block)
  {
  }

  lemma ReadBlockMissing(file: seq<byte>, es: seq<(Name, IndexEntry)>, c: Name)
    requires ReadIndex(file) == Some(es)
    requires Lookup(es, c) == None
    ensures ReadBlock(file, c) == None
  {
  }
}
