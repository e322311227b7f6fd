/** What the writer emits, the reader decodes back: header by header, entry
    by entry, and for a whole archive written by `put` and `finish`. */
module TarRoundTrip {
  import opened TarHeader
  import opened Octal
  import opened TarWriter
  import opened TarReader

  /** Every header `_init` prepares passes `isUSTAR`. */
  lemma InitialHeaderIsUstar(mtime: nat)
    requires FitsEleven(mtime)
    ensures IsUstar(InitialHeader(mtime))
  {
    InitialHeaderFields(mtime);
    assert Slice(InitialHeader(mtime), MagicOffset, 5) == UstarMagic[..5];
  }

  /** So does every header `put` writes, and it is not a zero block. */
  lemma WrittenHeaderIsUstar(filename: seq<byte>, size: nat, mtime: nat)
    requires FitsEleven(size) && FitsEleven(mtime)
    ensures IsUstar(HeaderFor(filename, size, mtime))
    ensures !IsZeroBlock(HeaderFor(filename, size, mtime))
    ensures HeaderFor(filename, size, mtime)[TypeflagOffset] == 0
  {
    var h := HeaderFor(filename, size, mtime);
    HeaderForFields(filename, size, mtime, h);
    assert Slice(h, MagicOffset, 5) == UstarMagic[..5];
    assert h[MagicOffset] == Slice(h, MagicOffset, MagicWidth)[0] == 117;
  }

  /** `getFileSize` on a header `put` wrote gives back the size written. */
  lemma WrittenSizeReadsBack(filename: seq<byte>, size: nat, mtime: nat)
    requires FitsEleven(size) && FitsEleven(mtime)
    ensures FileSize(HeaderFor(filename, size, mtime)) == size
  {
    var h := HeaderFor(filename, size, mtime);
    HeaderForFields(filename, size, mtime, h);
    assert h[SizeOffset..SizeOffset + SizeWidth + 1] == OctalField(size, SizeWidth) + [h[SizeOffset + SizeWidth]];
    OctalFieldRoundTrip(size, SizeWidth, [h[SizeOffset + SizeWidth]]);
  }

  /** The name the loop reports for a header `put` wrote is the name `put`
      stored: the prefix field is empty, and the name field is the stored
      name and its NUL. */
  lemma WrittenNameReadsBack(filename: seq<byte>, size: nat, mtime: nat)
    requires FitsEleven(size) && FitsEleven(mtime)
    ensures EntryName(HeaderFor(filename, size, mtime)) == StoredName(filename)
  {
    var h := HeaderFor(filename, size, mtime);
    HeaderForFields(filename, size, mtime, h);
    StoredNameIsPrefix(filename);
    assert !PutFills(PrefixOffset, |StoredName(filename)|);
    assert Slice(h, PrefixOffset, 1) == [] + [0];
    EntryNameAssembled(h, [], StoredName(filename));
  }

  /** Every header `put` writes passes `checkChecksum`, whatever bytes the
      decoder reads past the copied field: the stored digits are the
      unsigned sum and the field's seventh byte is their terminator. */
  lemma WrittenHeaderPassesChecksum(filename: seq<byte>, size: nat, mtime: nat, beyond: seq<byte>)
    requires FitsEleven(size) && FitsEleven(mtime)
    ensures ChecksumMatches(HeaderFor(filename, size, mtime), beyond)
  {
    var h := HeaderFor(filename, size, mtime);
    HeaderForFields(filename, size, mtime, h);
    var sum := HeaderChecksum(h);
    assert !PutFills(ChecksumOffset + 7, |StoredName(filename)|);
    assert Slice(h, ChecksumOffset, ChecksumWidth) + beyond == OctalField(sum, 7) + ([h[ChecksumOffset + 7]] + beyond);
    OctalFieldRoundTrip(sum, 7, [h[ChecksumOffset + 7]] + beyond);
  }

  /** The loop's first step over an entry `put` appended: one file under the
      stored name, with the size the size field holds, skipping that size
      and its padding. */
  lemma WrittenEntryStep(filename: seq<byte>, content: seq<byte>, clock: nat, rest: seq<byte>)
    ensures StepAt(EntryBytes(filename, content, clock) + rest, false)
         == Advance(Some(FoundFile(StoredName(filename), ULong(|content|))),
                    BlockSize + ULong(|content|) + Padding(ULong(|content|)), false)
  {
    var size := ULong(|content|);
    var mtime := ULong(clock);
    var archive := EntryBytes(filename, content, clock) + rest;
    WrittenHeaderIsUstar(filename, size, mtime);
    WrittenSizeReadsBack(filename, size, mtime);
    WrittenNameReadsBack(filename, size, mtime);
    assert archive[..BlockSize] == HeaderFor(filename, size, mtime);
  }

  /** One entry `put` appends for content below 4 GiB is read back as one
      file under the stored name with the content's length, and the walk
      continues right after the entry's padding. */
  lemma EntryRoundTrip(filename: seq<byte>, content: seq<byte>, clock: nat, rest: seq<byte>)
    requires |content| < ULongRange
    ensures ReadEntries(EntryBytes(filename, content, clock) + rest, false)
         == Prepend([FoundFile(StoredName(filename), |content|)], ReadEntries(rest, false))
  {
    var entry := EntryBytes(filename, content, clock);
    var archive := entry + rest;
    WrittenEntryStep(filename, content, clock, rest);
    var length := BlockSize + |content| + Padding(|content|);
    assert |entry| == length;
    assert archive[length..] == rest;
    ReadEntriesAdvance(archive, false, Some(FoundFile(StoredName(filename), |content|)), length, false, rest);
  }

  /** An entry of 4 GiB or more is misread: the size field holds the length
      modulo 2^32, so the loop reports that smaller size and resumes inside
      the entry, taking content bytes as the next header. */
  lemma LargeEntryMisread(filename: seq<byte>, content: seq<byte>, clock: nat, rest: seq<byte>)
    requires |content| >= ULongRange
    ensures StepAt(EntryBytes(filename, content, clock) + rest, false).Advance?
    ensures StepAt(EntryBytes(filename, content, clock) + rest, false).report
         == Some(FoundFile(StoredName(filename), ULong(|content|)))
    ensures ULong(|content|) != |content|
    ensures StepAt(EntryBytes(filename, content, clock) + rest, false).length
          < |EntryBytes(filename, content, clock)|
  {
    WrittenEntryStep(filename, content, clock, rest);
    PaddedBelowRange(ULong(|content|));
  }

  /** A 32-bit length rounded up to whole blocks is still at most 2^32. */
  lemma PaddedBelowRange(u: nat)
    requires u < ULongRange
    ensures u + Padding(u) <= ULongRange
  {
    var m := u + Padding(u);
    EntryIsAligned(0, u);
    assert m == BlockSize * (m / BlockSize);
    assert m < ULongRange + BlockSize;
    assert m / BlockSize <= ULongRange / BlockSize;
  }

  /** A file handed to `put`: its name in the archive, its bytes, and the
      clock value at the time of the call. */
  datatype Member = Member(name: seq<byte>, content: seq<byte>, mtime: nat)

  /** Files whose lengths the size field holds exactly. */
  predicate Writable(files: seq<Member>)
  {
    forall i :: 0 <= i < |files| ==> |files[i].content| < ULongRange
  }

  /** The entries `put` appends for `files`, in order. */
  function Body(files: seq<Member>): seq<byte>
  {
    if |files| == 0 then []
    else
      var last := files[|files| - 1];
      Body(files[..|files| - 1]) + EntryBytes(last.name, last.content, last.mtime)
  }

  /** What the loop should report for `files`. */
  function Reports(files: seq<Member>): (rs: seq<Report>)
    ensures |rs| == |files|
    ensures forall i :: 0 <= i < |files| ==> rs[i] == FoundFile(StoredName(files[i].name), |files[i].content|)
  {
    if |files| == 0 then []
    else
      var last := files[|files| - 1];
      Reports(files[..|files| - 1]) + [FoundFile(StoredName(last.name), |last.content|)]
  }

  /** Writing one more file extends the body by its entry. */
  lemma BodyAppend(files: seq<Member>, f: Member)
    ensures Body(files + [f]) == Body(files) + EntryBytes(f.name, f.content, f.mtime)
  {
    assert (files + [f])[..|files|] == files;
  }

  /** The entries of `files` are read back as one report per file, in
      order, and the walk goes on with whatever follows them. */
  lemma {:induction false} BodyReadsBack(files: seq<Member>, rest: seq<byte>)
    requires Writable(files)
    ensures ReadEntries(Body(files) + rest, false) == Prepend(Reports(files), ReadEntries(rest, false))
  {
    if |files| == 0 {
      assert Body(files) + rest == rest;
    } else {
      var init := files[..|files| - 1];
      var last := files[|files| - 1];
      var entry := EntryBytes(last.name, last.content, last.mtime);
      var report := FoundFile(StoredName(last.name), |last.content|);
      WritablePrefix(files, |files| - 1);
      BodyUnfold(files);
      ReportsUnfold(files);
      Associate3(Body(init), entry, rest);
      BodyReadsBack(init, entry + rest);
      EntryRoundTrip(last.name, last.content, last.mtime, rest);
      PrependTwice(Reports(init), [report], ReadEntries(rest, false));
    }
  }

  /** Every prefix of a writable list is writable. */
  lemma WritablePrefix(files: seq<Member>, n: nat)
    requires Writable(files) && n <= |files|
    ensures Writable(files[..n])
  {
    assert forall i :: 0 <= i < n ==> files[..n][i] == files[i];
  }

  /** The last file's entry ends the body, and its report ends the reports. */
  lemma BodyUnfold(files: seq<Member>)
    requires |files| > 0
    ensures Body(files) == Body(files[..|files| - 1])
         + EntryBytes(files[|files| - 1].name, files[|files| - 1].content, files[|files| - 1].mtime)
  {
  }

  lemma ReportsUnfold(files: seq<Member>)
    requires |files| > 0
    ensures Reports(files) == Reports(files[..|files| - 1])
         + [FoundFile(StoredName(files[|files| - 1].name), |files[|files| - 1].content|)]
  {
  }

  /** An archive of entries written by `put` and closed by `finish` is read
      back as exactly the files written, in order, ending at the trailer;
      whatever follows the trailer is never looked at. */
  lemma ArchiveRoundTrip(files: seq<Member>, tail: seq<byte>)
    requires Writable(files)
    ensures ReadEntries(Body(files) + Trailer() + tail, false) == Listing(Reports(files), true)
  {
    assert Body(files) + Trailer() + tail == Body(files) + (Trailer() + tail);
    BodyReadsBack(files, Trailer() + tail);
    TrailerEnds(tail);
    assert Reports(files) + [] == Reports(files);
  }

  /** The trailer `finish` writes ends the walk, whatever follows it. */
  lemma TrailerEnds(tail: seq<byte>)
    ensures ReadEntries(Trailer() + tail, false) == Listing([], true)
  {
    assert Trailer() + tail == Zeros(BlockSize) + (Zeros(BlockSize) + tail);
    ZeroBlockEnds(Zeros(BlockSize) + tail, false);
  }

  /** A whole session: a writer bound to an empty stream `put`s each file,
      is finished and destroyed, and the loop of `readTar` runs over what it
      wrote. It reports each file under its stored name and size, finds the
      end, and the destructor does not warn. */
  method WriteThenRead(files: seq<Member>) returns (archive: seq<byte>, listing: Listing, warnUnfinished: bool)
    requires Writable(files)
    ensures archive == Body(files) + Trailer()
    ensures listing == Listing(Reports(files), true)
    ensures !warnUnfinished
  {
    var tar := new Tar([]);
    PutAll(tar, files);
    tar.Finish();
    warnUnfinished := tar.Dispose();
    archive := tar.out;
    listing := ReadTar(archive);
    ArchiveRoundTrip(files, []);
    assert archive + [] == archive;
  }

  /** `put` each file in turn. */
  method PutAll(tar: Tar, files: seq<Member>)
    modifies tar`out
    ensures tar.out == old(tar.out) + Body(files)
  {
    ghost var start := tar.out;
    var i := 0;
    while i < |files|
      invariant 0 <= i <= |files|
      invariant tar.out == start + Body(files[..i])
    {
      var f := files[i];
      assert files[..i + 1] == files[..i] + [f];
      BodyAppend(files[..i], f);
      ghost var entry := EntryBytes(f.name, f.content, f.mtime);
      var _ := tar.PutFile(f.name, f.content, f.mtime);
      Associate3(start, Body(files[..i]), entry);
      i := i + 1;
    }
    assert files[..i] == files;
  }

  lemma Associate3(a: seq<byte>, b: seq<byte>, c: seq<byte>)
    ensures a + b + c == a + (b + c)
  {
  }
}
