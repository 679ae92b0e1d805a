# EQTL binary container writer

This project models `EqtlPreprocessor` from IGV's GWAS package. It converts
a tab-delimited eQTL text file into a binary container. The container has:

- a 20-byte header: the magic `EQTL`, the format version (an `int`, 0), and
  a reserved index pointer (a `long` offset and an `int` length);
- one block per maximal run of consecutive records on the same chromosome,
  holding the records' binary encodings back to back;
- an index: the number of entries, then for each chromosome its
  NUL-terminated name, block offset (`long`) and block size (`int`).

After the index is written, the writer goes back and overwrites the
reserved pointer with the index's offset and length. All multi-byte
integers are little-endian.

The modules are:

- `Bytes`: the byte type, and little-endian encoding of Java `int`/`long`
  fields (two's complement), with a decoder `FromLE`.
- `EqtlFormat`: the layout as pure functions of the record stream.
  - `Header`
  - `Runs`: how the record stream is cut into runs.
  - `BlocksBytes` and `Offset`
  - `IndexMap`: the chromosome-to-entry map the writer builds. A later run
    of the same chromosome replaces the earlier entry.
  - `IndexBytes`, for any iteration order of the map.
  - `Overwrite`: the pointer back-patch.
  - `Container`: the whole file.
- `EqtlContainer`: lemmas about where each part sits in a finished file.
- `EqtlIndexReader`: a reader for the container; it is not part of IGV. It
  parses the header pointer, the index and a chromosome's block. The
  writer's output is proved to read back through it.
- `Gwas`: the class `EqtlPreprocessor`, with the source's fields
  (`indexPositionPosition`, `bytesWritten`, `currentChrBuffer`,
  `currentChr`, `chrPositionMap`) and the output file as a byte sequence.
  - Its methods follow `process`, `write`, `writeHeader`, `writeChrBuffer`,
    `writeIndex` and `writeIndexPosition`.
  - `Process` is proved to leave exactly `Container(Runs(records), order)`
    in the output, where `order` is the order in which `writeIndex` visited
    the map.
  - The streaming loop is specified by a pure step function (`Step`, folded
    by `Replay`). That fold is proved equal to the state described by the
    runs (`ReplayIsStreamed`).
- `EqtlScenarios`: the empty input, and two concrete record sequences.

The input's first line is the column header and is skipped.

Chromosome names are modelled as the bytes `putNullTerminatedString`
writes for them. The model assumes that distinct chromosome names encode
to distinct bytes (see "## Left out").

## Model

| member | source | states |
|---|---|---|
| Bytes.Int32LE | src/org/broad/igv/gwas/EqtlPreprocessor.java:119-124 | `putInt`: the 4 little-endian bytes of a Java `int` (two's complement); `FromLEOfLE` proves they read back as the value |
| Bytes.Int64LE | src/org/broad/igv/gwas/EqtlPreprocessor.java:123 | `putLong`: the 8 little-endian bytes of a Java `long` (two's complement); `FromLEOfLE` proves they read back as the value |
| Bytes.FromLEOfLE | src/org/broad/igv/gwas/EqtlPreprocessor.java:119-123 | a value written as a w-byte little-endian field (`putInt`, `putLong`) reads back as the same value when it fits in w bytes |
| Bytes.LEInjective | src/org/broad/igv/gwas/EqtlPreprocessor.java:119-123 | two values that fit in a field are written as the same bytes only if they are equal |
| Bytes.LEOfZero | src/org/broad/igv/gwas/EqtlPreprocessor.java:144-145 | the zero placeholders `putLong(0l)` and `putInt(0)` are all-zero bytes |
| EqtlFormat.Header | src/org/broad/igv/gwas/EqtlPreprocessor.java:133-149 | the header `writeHeader` writes: magic, version, zero pointer; 20 bytes long, its exact bytes given by `HeaderFields` |
| EqtlFormat.Pointer | src/org/broad/igv/gwas/EqtlPreprocessor.java:157-159 | the index pointer `writeIndexPosition` writes: the start as a long, then the length as an int, 12 bytes; read back by `PointerRoundTrip` |
| EqtlFormat.HeaderFields | src/org/broad/igv/gwas/EqtlPreprocessor.java:133-149 | the header is the magic "EQTL", the version 0 as an int, then 12 zero bytes reserved at offset 8; 20 bytes in all |
| EqtlFormat.Runs | src/org/broad/igv/gwas/EqtlPreprocessor.java:76-85 | the runs the loop groups the records into, grown one record at a time: a record of the current chromosome joins its run, any other opens a new run; empty exactly for no records, and the last run has the last record's chromosome; `RunsPartition` proves they are the maximal runs |
| EqtlFormat.RunBytes | src/org/broad/igv/gwas/EqtlPreprocessor.java:85 | a run's block: its records' encodings appended in order, as `currentChrBuffer.put` does; `BlocksAreRecords` proves the blocks together are all the records |
| EqtlFormat.RunsPartition | src/org/broad/igv/gwas/EqtlPreprocessor.java:72-86 | the runs read back in order give the records; no run is empty; every record in a run has the run's chromosome; neighbouring runs have different chromosomes |
| EqtlFormat.BlocksAreRecords | src/org/broad/igv/gwas/EqtlPreprocessor.java:72-90 | the blocks written one after the other are exactly the records' encodings in input order |
| EqtlFormat.ConcatAppend | src/org/broad/igv/gwas/EqtlPreprocessor.java:85 | the encodings of two record sequences, joined, are the encoding of the joined sequence |
| EqtlFormat.OffsetIsPrefixSum | src/org/broad/igv/gwas/EqtlPreprocessor.java:104-112 | the first block starts at 20; each block starts where the previous one ends |
| EqtlFormat.BlockAt | src/org/broad/igv/gwas/EqtlPreprocessor.java:104-112 | the bytes at a run's recorded offset, of its size, are that run's block |
| EqtlFormat.LastRun | src/org/broad/igv/gwas/EqtlPreprocessor.java:111 | the result is the last run with the chromosome, or -1 exactly when no run has it |
| EqtlFormat.IndexMap | src/org/broad/igv/gwas/EqtlPreprocessor.java:104-113 | the map `writeChrBuffer` builds: each run, in order, puts (its offset, its size) under its chromosome, replacing an earlier entry; `IndexMapLookup` and `IndexNames` prove what it holds |
| EqtlFormat.IndexMapLookup | src/org/broad/igv/gwas/EqtlPreprocessor.java:104-113 | a chromosome has an entry iff some run has it; the entry gives the offset and size of its LAST run, because `put` replaces an earlier entry |
| EqtlFormat.IndexNames | src/org/broad/igv/gwas/EqtlPreprocessor.java:104-113 | the map's keys are exactly the distinct chromosomes of the records (not one key per run) |
| EqtlFormat.OrderingCovers | src/org/broad/igv/gwas/EqtlPreprocessor.java:120 | an iteration over the map visits every key |
| EqtlFormat.EntryBytes | src/org/broad/igv/gwas/EqtlPreprocessor.java:122-124 | one index entry: the name, a NUL, the offset as a long, the size as an int; its length is the name's length + 13; `EntryRoundTrip` reads it back |
| EqtlFormat.IndexBytes | src/org/broad/igv/gwas/EqtlPreprocessor.java:118-127 | the serialized index for an iteration order: the entry count as an int, then each entry in that order; `IndexLength` gives its size, `IndexRoundTrip` reads it back |
| EqtlFormat.EntriesBytesSnoc | src/org/broad/igv/gwas/EqtlPreprocessor.java:120-125 | one more visited entry appends its name, NUL, offset (long) and size (int) to the index |
| EqtlFormat.IndexLength | src/org/broad/igv/gwas/EqtlPreprocessor.java:115-131 | for any iteration order, the index has 4 bytes plus, per chromosome, its name's length + 13 |
| EqtlFormat.Overwrite | src/org/broad/igv/gwas/EqtlPreprocessor.java:151-160 | rewriting at the slot changes only the slot's bytes, and the file keeps its length |
| EqtlFormat.OverwriteParts | src/org/broad/igv/gwas/EqtlPreprocessor.java:151-160 | patching the pointer keeps bytes [0,8), sets bytes [8,20) to the pointer, and keeps the index |
| EqtlFormat.Container | src/org/broad/igv/gwas/EqtlPreprocessor.java:88-96 | the finished file: header, blocks of all runs, index, with the pointer at offset 8 overwritten by the index start and length; `ContainerLayout`, `ContainerPointer` and `ReadContainer` prove its layout and read-back |
| EqtlContainer.ContainerSize | src/org/broad/igv/gwas/EqtlPreprocessor.java:88-96 | the block section is as long as all record encodings; the index is 4 bytes plus the entries of the distinct chromosomes |
| EqtlContainer.ContainerLayout | src/org/broad/igv/gwas/EqtlPreprocessor.java:88-96 | the file has the expected total length and ends with the serialized index right after the blocks |
| EqtlContainer.ContainerMagic | src/org/broad/igv/gwas/EqtlPreprocessor.java:133-149 | the finished file still starts with the magic and the version; the patch does not touch them |
| EqtlContainer.ContainerPointer | src/org/broad/igv/gwas/EqtlPreprocessor.java:92-96 | bytes [8,20) of the finished file are the true start of the index and the number of bytes from there to the end |
| EqtlContainer.EntryLocatesLastRun | src/org/broad/igv/gwas/EqtlPreprocessor.java:104-113 | in the finished file, the bytes an index entry points at are the block of that chromosome's last run |
| EqtlIndexReader.ReadPointer | src/org/broad/igv/gwas/EqtlPreprocessor.java:151-160 | a pointer is read exactly when the file holds a whole header |
| EqtlIndexReader.ParseName | src/org/broad/igv/gwas/EqtlPreprocessor.java:121 | a parsed name has no NUL and is followed by one; no name is found only when no NUL is present |
| EqtlIndexReader.NameRoundTrip | src/org/broad/igv/gwas/EqtlPreprocessor.java:121 | a NUL-free name written NUL-terminated parses back to itself and leaves the rest of the input |
| EqtlIndexReader.EntryRoundTrip | src/org/broad/igv/gwas/EqtlPreprocessor.java:120-124 | an entry written as name, long, int parses back to the same name and entry when the values fit a Java int |
| EqtlIndexReader.EntriesRoundTrip | src/org/broad/igv/gwas/EqtlPreprocessor.java:119-125 | the entries written in an order parse back, in that order, consuming exactly their bytes |
| EqtlIndexReader.IndexRoundTrip | src/org/broad/igv/gwas/EqtlPreprocessor.java:115-131 | the serialized index parses back to the map's entries in iteration order |
| EqtlIndexReader.Entries | src/org/broad/igv/gwas/EqtlPreprocessor.java:120-125 | entry i is the i-th visited name with its map value |
| EqtlIndexReader.Lookup | src/org/broad/igv/gwas/EqtlPreprocessor.java:111 | a found entry is in the index; nothing is found only when no entry has the name |
| EqtlIndexReader.EntriesDescribeMap | src/org/broad/igv/gwas/EqtlPreprocessor.java:115-125 | the index lists exactly the map's keys, each with its own entry |
| EqtlIndexReader.LookupEntries | src/org/broad/igv/gwas/EqtlPreprocessor.java:115-125 | looking a chromosome up in the written index gives the map's entry for it, and nothing for a chromosome not in the map |
| EqtlIndexReader.EntriesLengthBound | src/org/broad/igv/gwas/EqtlPreprocessor.java:118 | the entry count is at most the index length, so it fits the int count field |
| EqtlIndexReader.PointerRoundTrip | src/org/broad/igv/gwas/EqtlPreprocessor.java:92-96 | the pointer read from a finished file is (20 + size of all blocks, index length) |
| EqtlIndexReader.ReadContainer | src/org/broad/igv/gwas/EqtlPreprocessor.java:88-131 | following the pointer of a finished file and parsing the index gives every chromosome's entry, in iteration order |
| EqtlIndexReader.ReadBlockOfContainer | src/org/broad/igv/gwas/EqtlPreprocessor.java:104-113 | reading a chromosome's block from a finished file gives its last run's bytes, and nothing for a chromosome absent from the input |
| Gwas.Features | src/org/broad/igv/gwas/EqtlPreprocessor.java:69-74 | the records are the decoded lines after the first, in order, one per line |
| Gwas.Streamed | src/org/broad/igv/gwas/EqtlPreprocessor.java:74-86 | a buffer is open exactly when a chromosome is current, which is exactly when some record has been read |
| Gwas.Flush | src/org/broad/igv/gwas/EqtlPreprocessor.java:104-113 | writes the buffered run, if any, and records (bytes written before, its size) under the current chromosome; `FlushAll` proves the final flush leaves every block written |
| Gwas.Step | src/org/broad/igv/gwas/EqtlPreprocessor.java:74-86 | one loop iteration: a new chromosome flushes and starts an empty buffer, then the record's bytes are appended; the result always has the record's chromosome current; `StepTracksRuns` ties it to `Runs` |
| Gwas.StepTracksRuns | src/org/broad/igv/gwas/EqtlPreprocessor.java:74-86 | one loop iteration takes the state for the runs so far to the state for the runs with the new record |
| Gwas.StepJoins | src/org/broad/igv/gwas/EqtlPreprocessor.java:85 | a record of the current chromosome only grows the buffer |
| Gwas.StepOpens | src/org/broad/igv/gwas/EqtlPreprocessor.java:76-83 | a record of another chromosome writes and indexes the buffered run, then opens a buffer holding just this record |
| Gwas.FlushAll | src/org/broad/igv/gwas/EqtlPreprocessor.java:88-90 | the final flush leaves the header and every run's block written, and the index of all runs recorded |
| Gwas.FlushCloses | src/org/broad/igv/gwas/EqtlPreprocessor.java:88-92 | after the final flush, the bytes written are 20 plus the size of all record encodings |
| Gwas.ReplayIsStreamed | src/org/broad/igv/gwas/EqtlPreprocessor.java:72-87 | the loop, one record at a time, reaches the state described by the runs of all records read |
| Gwas.EqtlPreprocessor.Write | src/org/broad/igv/gwas/EqtlPreprocessor.java:167-171 | the bytes are appended to the file, and the counter grows by their number |
| Gwas.EqtlPreprocessor.WriteHeader | src/org/broad/igv/gwas/EqtlPreprocessor.java:133-149 | appends the 20-byte header; the pointer slot is remembered as offset 8 |
| Gwas.EqtlPreprocessor.WriteChrBuffer | src/org/broad/igv/gwas/EqtlPreprocessor.java:103-113 | writes the buffer unchanged (compression is a passthrough); records (offset before the write, size) under the current chromosome, replacing any earlier entry |
| Gwas.EqtlPreprocessor.WriteIndex | src/org/broad/igv/gwas/EqtlPreprocessor.java:115-131 | visits every key once, appends the serialized index for that order, and returns its length, 4 + the sum of (name length + 13) |
| Gwas.EqtlPreprocessor.WriteIndexPosition | src/org/broad/igv/gwas/EqtlPreprocessor.java:151-160 | overwrites the 12 bytes at the remembered slot with the index offset (long) and length (int); nothing else changes |
| Gwas.EqtlPreprocessor.Start | src/org/broad/igv/gwas/EqtlPreprocessor.java:56-67 | resets the counter, buffer, chromosome and map, and writes the header |
| Gwas.EqtlPreprocessor.Accept | src/org/broad/igv/gwas/EqtlPreprocessor.java:74-86 | the writer's state after a record is one `Step` of its state before |
| Gwas.EqtlPreprocessor.Stream | src/org/broad/igv/gwas/EqtlPreprocessor.java:69-87 | after the loop, the state is the fold of `Step` over all records |
| Gwas.EqtlPreprocessor.Finish | src/org/broad/igv/gwas/EqtlPreprocessor.java:88-96 | flushes, writes the index at the current end of file, and patches the pointer: the file is exactly the container of the runs |
| Gwas.EqtlPreprocessor.Process | src/org/broad/igv/gwas/EqtlPreprocessor.java:54-101 | the output file is exactly the container of the input's runs, for the order in which the index was written, and the counter equals its length |
| EqtlScenarios.EmptyInput | src/org/broad/igv/gwas/EqtlPreprocessor.java:88-96 | no records: a 24-byte file whose last 4 bytes are the count 0 and whose pointer reads (20, 4) |
| EqtlScenarios.TwoChromosomes | src/org/broad/igv/gwas/EqtlPreprocessor.java:72-96 | records on chromosomes a, a, b: two runs, two entries, and the index starts at 20 + the size of both blocks |
| EqtlScenarios.ChromosomeReturns | src/org/broad/igv/gwas/EqtlPreprocessor.java:104-113 | records on chromosomes a, a, b, a: three runs, two entries; a's entry and the block read back for a are those of its last run |

## Left out

- `main` (lines 44-52), the directory scan and file naming, and all file I/O. The input is a sequence of lines and the output is a byte sequence held by the writer.
- `EQTLCodec.decode` is a total function parameter. Malformed lines, and the exception they raise, are not modelled.
- `EQTLFeature.encodeBinary` is opaque. A record carries its chromosome name and its encoded bytes. The field layout of that encoding, and its floating-point fields, are not modelled.
- `CompressionUtils` is not modelled: the source calls no compression (line 107 is a passthrough).
- `System.out.println` at line 78 is console output only.
- `HashMap` iteration order is not known. `WriteIndex` picks any remaining key and returns the order it used as a ghost value. Every property holds for any such order.
- I/O errors. `writeIndexPosition` catches its `IOException` and only prints the stack trace (lines 162-164); the model has no I/O, so the pointer patch always succeeds.
- `Gwas.EqtlPreprocessor.Process`: does not model Java `int` overflow of `bytesWritten` or of the sizes. It requires the finished file to be shorter than 2^31 bytes; larger inputs would wrap the counter in the source.
- `Gwas.EqtlPreprocessor.Write`: requires the counter to stay below 2^31, for the same reason.
- `Gwas.EqtlPreprocessor.WriteIndexPosition`: requires the 12-byte slot to lie inside the file. `RandomAccessFile` would also extend a shorter file, which never happens after `writeHeader`.
- Chromosome names are modelled as the bytes `putNullTerminatedString` writes, assuming distinct names encode to distinct bytes. The character encoding is not modelled. An encoder that replaces unmappable characters (both "chr\u00e9" and "chr\u00e8" become "chr?" in ASCII) gives two unequal names the same bytes. For such names the source opens a new run at the `equals` test (line 76) and keeps two map keys (line 111); the model compares bytes, so it merges the runs and keeps one key.
- `BufferedByteWriter` is a byte sequence, and `currentChrBuffer` is an optional byte sequence rather than an object.
- The index reader reads the finished file only. It assumes names contain no NUL byte, as the NUL-terminated format itself requires.
