/**
  The preprocessor that turns a tab-delimited eQTL file into the binary
  container: it streams the records, buffers the current chromosome's run,
  writes each run as a block when the chromosome changes, then writes the
  index and back-patches the index pointer in the header.
 */
module Gwas {
  import opened Wrappers
  import opened Bytes
  import opened EqtlFormat

  /**
    The records of an input file: every line after the first (the column
    header line), decoded in order.
   */
  function Features(lines: seq<string>, decode: string -> Feature): (fs: seq<Feature>)
    ensures |fs| == if |lines| <= 1 then 0 else |lines| - 1
    ensures forall i :: 0 <= i < |fs| ==> fs[i] == decode(lines[i + 1])
  {
    if |lines| <= 1 then [] else seq(|lines| - 1, i requires 0 <= i < |lines| - 1 => decode(lines[i + 1]))
  }

  /**
    What the writer holds while streaming: the chromosome and bytes of the
    run being buffered, the bytes written so far and the index entries
    recorded so far.
   */
  datatype Progress = Progress(chr: Option<Name>, buffer: Option<seq<byte>>, written: seq<byte>, index: map<Name, IndexEntry>)

  /** A run is buffered exactly when there is a current chromosome. */
  predicate Consistent(p: Progress)
  {
    p.chr.Some? <==> p.buffer.Some?
  }

  /**
    The progress after the records that form the runs rs: the header and
    every run but the last are written and indexed, the last is buffered.
   */
  function Streamed(rs: seq<Run>): (p: Progress)
    ensures Consistent(p)
    ensures p.chr.Some? <==> rs != []
  {
    if rs == [] then Progress(None, None, Header(), map[])
    else
      var n := |rs| - 1;
      Progress(Some(rs[n].chr), Some(RunBytes(rs[n])), Header() + BlocksBytes(rs[..n]), IndexMap(rs[..n]))
  }

  /** Writes the buffered run, if any, and records where it went. */
  function Flush(p: Progress): Progress
    requires Consistent(p)
  {
    if p.buffer.Some? then
      Progress(p.chr, p.buffer, p.written + p.buffer.value,
               p.index[p.chr.value := IndexEntry(|p.written|, |p.buffer.value|)])
    else p
  }

  /**
    One record: a new chromosome flushes the buffered run and starts an
    empty buffer; then the record's bytes are appended to the buffer.
   */
  function Step(p: Progress, f: Feature): (q: Progress)
    requires Consistent(p)
    ensures Consistent(q) && q.chr == Some(f.chr)
  {
    var q := if p.chr != Some(f.chr) then Progress(Some(f.chr), Some([]), Flush(p).written, Flush(p).index) else p;
    Progress(q.chr, Some(q.buffer.value + f.binary), q.written, q.index)
  }

  /**
    Streaming one more record keeps the writer's progress equal to the
    progress described by the runs of all records read so far.
   */
  lemma StepTracksRuns(xs: seq<Feature>, f: Feature)
    ensures Streamed(Runs(xs + [f])) == Step(Streamed(Runs(xs)), f)
  {
    var rs := Runs(xs);
    RunsSnoc(xs, f);
    if rs != [] && rs[|rs| - 1].chr == f.chr {
      StepJoins(rs, f);
    } else {
      StepOpens(rs, f);
    }
  }

  /** A record of the current chromosome only grows the buffer. */
  lemma StepJoins(rs: seq<Run>, f: Feature)
    requires rs != [] && rs[|rs| - 1].chr == f.chr
    ensures var n := |rs| - 1;
      Streamed(rs[..n] + [Run(f.chr, rs[n].features + [f])]) == Step(Streamed(rs), f)
  {
    var n := |rs| - 1;
    var r := Run(f.chr, rs[n].features + [f]);
    assert (rs[..n] + [r])[..n] == rs[..n];
    RunBytesSnoc(rs[n], f);
  }

  /** A record of another chromosome writes the buffered run and starts its own. */
  lemma StepOpens(rs: seq<Run>, f: Feature)
    requires rs == [] || rs[|rs| - 1].chr != f.chr
    ensures Streamed(rs + [Run(f.chr, [f])]) == Step(Streamed(rs), f)
  {
    var r := Run(f.chr, [f]);
    assert (rs + [r])[..|rs|] == rs;
    FlushAll(rs);
    RunBytesSnoc(Run(f.chr, []), f);
    assert [] + [f] == [f];
  }

  /**
    Flushing after the runs rs leaves exactly the header and the blocks of
    all runs written, and the index of all runs recorded.
   */
  lemma FlushAll(rs: seq<Run>)
    ensures Flush(Streamed(rs)).written == Header() + BlocksBytes(rs)
    ensures Flush(Streamed(rs)).index == IndexMap(rs)
  {
    if rs != [] {
      CloseLastRun(rs);
    }
  }

  /** After the records fs, flushing leaves the header and all their bytes written. */
  lemma FlushCloses(fs: seq<Feature>)
    ensures Flush(Streamed(Runs(fs))).written == Header() + BlocksBytes(Runs(fs))
    ensures |Flush(Streamed(Runs(fs))).written| == HeaderSize + |Concat(fs)|
    ensures Flush(Streamed(Runs(fs))).index == IndexMap(Runs(fs))
  {
    var rs := Runs(fs);
    FlushAll(rs);
    RunsPartition(fs);
    BlocksAreRecords(rs, fs);
  }

  /** The progress after streaming the records xs, one Step at a time, after the header. */
  function Replay(xs: seq<Feature>): (p: Progress)
    ensures Consistent(p)
  {
    if xs == [] then Progress(None, None, Header(), map[])
    else Step(Replay(xs[..|xs| - 1]), xs[|xs| - 1])
  }

  /**
    Streaming the records one at a time leaves every run but the last
    written and indexed and the last one buffered.
   */
  lemma {:induction false} ReplayIsStreamed(xs: seq<Feature>)
    ensures Replay(xs) == Streamed(Runs(xs))
  {
    if xs != [] {
      var n := |xs| - 1;
      ReplayIsStreamed(xs[..n]);
      assert xs == xs[..n] + [xs[n]];
      StepTracksRuns(xs[..n], xs[n]);
    }
  }

  /** Record k of fs moves the progress from the prefix before it to the prefix with it. */
  lemma Advance(fs: seq<Feature>, k: nat)
    requires k < |fs|
    ensures Replay(fs[..k + 1]) == Step(Replay(fs[..k]), fs[k])
    ensures |Flush(Replay(fs[..k])).written| <= HeaderSize + |Concat(fs)|
  {
    assert fs[..k + 1][..k] == fs[..k];
    ReplayIsStreamed(fs[..k]);
    FlushCloses(fs[..k]);
    ConcatPrefix(fs, k);
  }

  /** The bound on the whole file also bounds the blocks and the index of its runs. */
  lemma Room(fs: seq<Feature>)
    requires ContainerLength(fs) < IntLimit
    ensures HeaderSize + |Concat(fs)| < IntLimit
    ensures HeaderSize + |BlocksBytes(Runs(fs))| + 4 + EntriesLength(IndexMap(Runs(fs)).Keys) < IntLimit
  {
    RunsPartition(fs);
    IndexNames(Runs(fs), fs);
    BlocksAreRecords(Runs(fs), fs);
  }

  class EqtlPreprocessor {
    /** Where the index pointer sits in the header (set by WriteHeader). */
    var indexPositionPosition: int
    /** How many bytes have been written to the output file. */
    var bytesWritten: int
    /** The bytes of the current chromosome's records not yet written. */
    var currentChrBuffer: Option<seq<byte>>
    /** The chromosome of the run being buffered. */
    var currentChr: Option<Name>
    /** For each chromosome written, the offset and size of its block. */
    var chrPositionMap: map<Name, IndexEntry>
    /** The contents of the output file. */
    var output: seq<byte>

    constructor()
      ensures output == [] && bytesWritten == 0
      ensures currentChr == None && currentChrBuffer == None && chrPositionMap == map[]
      ensures indexPositionPosition == 0
    {
      output := [];
      bytesWritten := 0;
      currentChr := None;
      currentChrBuffer := None;
      chrPositionMap := map[];
      indexPositionPosition := 0;
    }

    /** Appends bytes to the output file and counts them. */
    method Write(bytes: seq<byte>)
      requires bytesWritten + |bytes| < IntLimit
      modifies this`output, this`bytesWritten
      ensures output == old(output) + bytes
      ensures bytesWritten == old(bytesWritten) + |bytes|
    {
      output := output + bytes;
      bytesWritten := bytesWritten + |bytes|;
    }

    /**
      Writes the header: the magic, the version, and a zeroed index
      pointer whose offset it remembers.
     */
    method WriteHeader()
      requires bytesWritten + HeaderSize < IntLimit
      modifies this`output, this`bytesWritten, this`indexPositionPosition
      ensures output == old(output) + Header()
      ensures bytesWritten == old(bytesWritten) + HeaderSize
      ensures indexPositionPosition == IndexPointerSlot
    {
      var buffer := Magic;
      buffer := buffer + Int32LE(Version);
      indexPositionPosition := |buffer|;
      buffer := buffer + Int64LE(0);
      buffer := buffer + Int32LE(0);
      assert buffer == Header();
      Write(buffer);
    }

    /**
      Writes the buffered run as a block, uncompressed, and records its
      offset and size under its chromosome, replacing any earlier entry.
     */
    method WriteChrBuffer()
      requires currentChr.Some? && currentChrBuffer.Some?
      requires bytesWritten + |currentChrBuffer.value| < IntLimit
      modifies this`output, this`bytesWritten, this`chrPositionMap
      ensures output == old(output) + old(currentChrBuffer.value)
      ensures bytesWritten == old(bytesWritten) + |old(currentChrBuffer.value)|
      ensures chrPositionMap
              == old(chrPositionMap)[old(currentChr.value) := IndexEntry(old(bytesWritten), |old(currentChrBuffer.value)|)]
    {
      var rawBytes := currentChrBuffer.value;
      var compressedBytes := rawBytes;
      var position := bytesWritten;
      var size := |compressedBytes|;
      Write(compressedBytes);
      chrPositionMap := chrPositionMap[currentChr.value := IndexEntry(position, size)];
    }

    /**
      Writes the index: the number of entries, then each entry of the map
      in the map's iteration order `order`; returns the index's length.
     */
    method WriteIndex() returns (nBytes: int, ghost order: seq<Name>)
      requires bytesWritten + 4 + EntriesLength(chrPositionMap.Keys) < IntLimit
      modifies this`output, this`bytesWritten
      ensures IsOrdering(order, chrPositionMap.Keys)
      ensures output == old(output) + IndexBytes(chrPositionMap, order)
      ensures nBytes == |IndexBytes(chrPositionMap, order)| == 4 + EntriesLength(chrPositionMap.Keys)
      ensures bytesWritten == old(bytesWritten) + nBytes
    {
      var buff := Int32LE(|chrPositionMap|);
      var remaining := chrPositionMap.Keys;
      order := [];
      while remaining != {}
        invariant remaining <= chrPositionMap.Keys
        invariant forall i :: 0 <= i < |order| ==> order[i] in chrPositionMap && order[i] !in remaining
        invariant forall i, j :: 0 <= i < j < |order| ==> order[i] != order[j]
        invariant |order| + |remaining| == |chrPositionMap|
        invariant buff == Int32LE(|chrPositionMap|) + EntriesBytes(chrPositionMap, order)
        invariant output == old(output) && bytesWritten == old(bytesWritten)
        decreases |remaining|
      {
        var name :| name in remaining;
        var ie := chrPositionMap[name];
        EntriesBytesSnoc(chrPositionMap, order, name);
        buff := buff + name + [0];
        buff := buff + Int64LE(ie.position);
        buff := buff + Int32LE(ie.size);
        order := order + [name];
        remaining := remaining - {name};
      }
      IndexLength(chrPositionMap, order);
      assert buff == IndexBytes(chrPositionMap, order);
      Write(buff);
      nBytes := |buff|;
    }

    /** Writes the index's offset and length over the pointer reserved in the header. */
    method WriteIndexPosition(indexPosition: int, nbytes: int)
      requires 0 <= indexPositionPosition && indexPositionPosition + 12 <= |output|
      modifies this`output
      ensures output == Overwrite(old(output), indexPositionPosition, Pointer(indexPosition, nbytes))
    {
      var buffer := Int64LE(indexPosition);
      buffer := buffer + Int32LE(nbytes);
      output := Overwrite(output, indexPositionPosition, buffer);
    }

    /** The writer's streaming state, as a value. */
    function Snapshot(): Progress
      reads this
    {
      Progress(currentChr, currentChrBuffer, output, chrPositionMap)
    }

    /** The writer has streamed the records xs, after writing the header. */
    ghost predicate Streaming(xs: seq<Feature>)
      reads this
    {
      && indexPositionPosition == IndexPointerSlot
      && bytesWritten == |output|
      && Snapshot() == Replay(xs)
    }

    /**
      Takes the next record: when its chromosome differs from the current
      one, the buffered run (if any) is written as a block and a new, empty
      buffer is started; the record's bytes are then appended to the buffer.
     */
    method Accept(feature: Feature)
      requires Consistent(Snapshot())
      requires bytesWritten == |output|
      requires |Flush(Snapshot()).written| < IntLimit
      modifies this`currentChr, this`currentChrBuffer, this`output, this`bytesWritten, this`chrPositionMap
      ensures Snapshot() == Step(old(Snapshot()), feature)
      ensures bytesWritten == |output|
    {
      var chr := feature.chr;
      if currentChr != Some(chr) {
        if currentChrBuffer.Some? {
          WriteChrBuffer();
        }
        currentChr := Some(chr);
        currentChrBuffer := Some([]);
      }
      currentChrBuffer := Some(currentChrBuffer.value + feature.binary);
    }

    /** Resets the writer and writes the header of a new file. */
    method Start()
      modifies this
      ensures Streaming([])
    {
      bytesWritten := 0;
      output := [];
      currentChr := None;
      currentChrBuffer := None;
      chrPositionMap := map[];
      WriteHeader();
    }

    /**
      Converts the lines of an input file into the container: the first
      line is skipped, the following lines are streamed as records, then
      the last run, the index and the index pointer are written.
     */
    method Process(lines: seq<string>, decode: string -> Feature) returns (ghost order: seq<Name>)
      requires ContainerLength(Features(lines, decode)) < IntLimit
      modifies this
      ensures IsOrdering(order, IndexMap(Runs(Features(lines, decode))).Keys)
      ensures output == Container(Runs(Features(lines, decode)), order)
      ensures bytesWritten == |output|
    {
      ghost var fs := Features(lines, decode);
      Start();
      Stream(lines, decode);
      ReplayIsStreamed(fs);
      Room(fs);
      order := Finish(Runs(fs));
    }

    /**
      Reads every line after the first, decodes it and accepts the record.
     */
    method Stream(lines: seq<string>, decode: string -> Feature)
      requires Streaming([])
      requires HeaderSize + |Concat(Features(lines, decode))| < IntLimit
      modifies this
      ensures Streaming(Features(lines, decode))
    {
      ghost var fs := Features(lines, decode);
      assert fs[..0] == [];
      var i := 1;
      while i < |lines|
        invariant 1 <= i && i - 1 <= |fs|
        invariant Streaming(fs[..i - 1])
        decreases |lines| - i
      {
        var feature := decode(lines[i]);
        Advance(fs, i - 1);
        Accept(feature);
        i := i + 1;
      }
      assert fs[..i - 1] == fs;
    }

    /**
      Ends the conversion after the runs rs: writes the buffered run, then
      the index at the current end of file, then the index pointer.
     */
    method Finish(ghost rs: seq<Run>) returns (ghost order: seq<Name>)
      requires indexPositionPosition == IndexPointerSlot && bytesWritten == |output|
      requires Snapshot() == Streamed(rs)
      requires HeaderSize + |BlocksBytes(rs)| + 4 + EntriesLength(IndexMap(rs).Keys) < IntLimit
      modifies this
      ensures IsOrdering(order, IndexMap(rs).Keys)
      ensures output == Container(rs, order)
      ensures bytesWritten == |output|
    {
      FlushAll(rs);
      if currentChrBuffer.Some? {
        WriteChrBuffer();
      }
      assert Snapshot() == Flush(Streamed(rs));
      var position := bytesWritten;
      var nBytes;
      nBytes, order := WriteIndex();
      WriteIndexPosition(position, nBytes);
    }
  }
}
