/** The archive reader of `readTar.cpp`: the octal decoder, the header
    predicates of `TARFileHeader`, and the block loop of `readTar` over an
    archive that has already been decompressed into bytes. */
module TarReader {
  import opened TarHeader
  import opened Octal

  datatype Option<T> = None | Some(value: T)

  /** One line the loop prints about an entry. */
  datatype Report =
    | FoundFile(name: seq<byte>, size: nat)
    | FoundDirectory(name: seq<byte>)
    | Unhandled(typeflag: byte)

  /** Everything the loop reports, and whether it stopped at a zero block
      ("Found TAR end") rather than at the end of the input. */
  datatype Listing = Listing(reports: seq<Report>, foundEnd: bool)

  /** What the loop does with the bytes left at the current position. */
  datatype Step =
    | EndOfArchive
    | ShortRead
    | Advance(report: Option<Report>, length: nat, longName: bool)

  /** Type flags the loop dispatches on: '0', '5' and 'L'. */
  const RegularFlag: byte := 48
  const DirectoryFlag: byte := 53
  const LongNameFlag: byte := 76

  /** "ustar" without its NUL: the five bytes `isUSTAR` compares. */
  const UstarIndicator: seq<byte> := [117, 115, 116, 97, 114]

  /** `isUSTAR`: the first five bytes of the magic field spell "ustar". */
  predicate IsUstar(h: seq<byte>)
    requires |h| == BlockSize
  {
    Slice(h, MagicOffset, 5) == UstarIndicator
  }

  /** `getFileSize`: `decodeTarOctal(fileSize)` with the default size 12
      scans the 12 size bytes and the byte after them, the first byte of the
      mtime field. */
  function FileSize(h: seq<byte>): (n: nat)
    requires |h| == BlockSize
    ensures n < U64
  {
    TarOctal(h[SizeOffset..SizeOffset + SizeWidth + 1])
  }

  /** When the size field holds its own NUL or space, the byte after it
      plays no part and the size is the field's value alone. */
  lemma FileSizeOfTerminatedField(h: seq<byte>)
    requires |h| == BlockSize
    requires FirstTerminator(Slice(h, SizeOffset, SizeWidth)) < SizeWidth
    ensures FileSize(h) == TarOctal(Slice(h, SizeOffset, SizeWidth))
  {
    assert h[SizeOffset..SizeOffset + SizeWidth + 1]
        == Slice(h, SizeOffset, SizeWidth) + [h[SizeOffset + SizeWidth]];
    TarOctalIgnoresTail(Slice(h, SizeOffset, SizeWidth), [h[SizeOffset + SizeWidth]]);
  }

  /** `decodeTarOctal(data, size)`: the first loop walks from `data[size]`
      down to `data[0]` and leaves `current` just before the lowest NUL or
      space; the second adds up the bytes from `current` down to `data[0]`
      with weights 1, 8, 64, ...  The sum is kept as an integer and reduced
      modulo 2^64 at the end, which is the value the `uint64_t` arithmetic
      of the source arrives at. */
  method DecodeTarOctal(data: seq<byte>, size: nat) returns (r: nat)
    requires size < |data|
    ensures r == TarOctal(data[..size + 1])
  {
    ghost var window := data[..size + 1];
    var current: int := size;
    var check: int := size;
    while check >= 0
      invariant -1 <= check <= size
      invariant current == check + FirstTerminator(window[check + 1..])
    {
      assert window[check..][1..] == window[check + 1..];
      assert window[check] == data[check];
      if data[check] == 0 || data[check] == 32 {
        current := check - 1;
      }
      check := check - 1;
    }
    assert window[0..] == window;
    ghost var t := current + 1;
    var sum: int := 0;
    var multiplier: nat := 1;
    while current >= 0
      invariant -1 <= current < t <= |window|
      invariant sum == Value(window[current + 1..t])
      invariant multiplier == Pow8(t - 1 - current)
    {
      ValueOfFirst(window[current..t]);
      assert window[current..t][1..] == window[current + 1..t];
      assert window[current] == data[current];
      sum := sum + DigitOf(data[current]) * multiplier;
      multiplier := multiplier * 8;
      current := current - 1;
    }
    assert window[0..t] == window[..t];
    r := sum % U64;
  }

  /** The test `checkChecksum` makes, given the header and the five bytes
      that follow its 8-byte copy of the checksum field in memory (the
      decoder reaches them because it is called with the default size 12):
      the stored number equals the unsigned or the signed byte sum of the
      header with its checksum field counted as eight spaces; the signed sum
      is compared as a `uint64_t`. */
  predicate ChecksumMatches(h: seq<byte>, beyond: seq<byte>)
    requires |h| == BlockSize
  {
    var reference := TarOctal(Slice(h, ChecksumOffset, ChecksumWidth) + beyond);
    reference == UnsignedSum(Blanked(h)) || reference == SignedSum(Blanked(h)) % U64
  }

  /** `checkChecksum`: copies the checksum field out, fills it with spaces,
      sums all 512 bytes both ways, copies the field back and compares. */
  method CheckChecksum(header: array<byte>, beyond: seq<byte>) returns (ok: bool)
    requires header.Length == BlockSize && |beyond| == 5
    modifies header
    ensures header[..] == old(header[..])
    ensures ok == ChecksumMatches(old(header[..]), beyond)
  {
    var original := header[ChecksumOffset..ChecksumOffset + ChecksumWidth];
    Store(header, ChecksumOffset, ChecksumBlank);
    ghost var blank := header[..];
    assert blank == Blanked(old(header[..]));
    var unsignedSum: int := 0;
    var signedSum: int := 0;
    var i := 0;
    while i < BlockSize
      invariant 0 <= i <= BlockSize
      invariant header[..] == blank
      invariant unsignedSum == UnsignedSum(blank[..i])
      invariant signedSum == SignedSum(blank[..i])
    {
      UnsignedSumPrefix(blank, i);
      SignedSumPrefix(blank, i);
      assert blank[i] == header[i];
      unsignedSum := unsignedSum + header[i];
      signedSum := signedSum + SignedByte(header[i]);
      i := i + 1;
    }
    assert blank[..BlockSize] == blank;
    Store(header, ChecksumOffset, original);
    assert header[..] == old(header[..]);
    var copy := original + beyond;
    assert copy[..ChecksumWidth + 5] == copy;
    var reference := DecodeTarOctal(copy, ChecksumWidth + 4);
    ok := reference == unsignedSum || reference == signedSum % U64;
  }

  /** The name the loop reports for a header: the name field up to its
      first NUL (at most 100 bytes), behind the prefix field (at most 155
      bytes) and a '/' when the prefix is not empty. */
  function EntryName(h: seq<byte>): (name: seq<byte>)
    requires |h| == BlockSize
    ensures |name| <= PrefixWidth + 1 + NameWidth
  {
    var name := CStr(Slice(h, NameOffset, NameWidth));
    var prefix := CStr(Slice(h, PrefixOffset, PrefixWidth));
    if |prefix| > 0 then prefix + [47] + name else name
  }

  /** A header whose name field holds `name` and a NUL and whose prefix
      field holds `prefix` and a NUL is reported as `prefix/name`, or as
      `name` alone when the prefix is empty. */
  lemma EntryNameAssembled(h: seq<byte>, prefix: seq<byte>, name: seq<byte>)
    requires |h| == BlockSize
    requires |name| < NameWidth && forall i :: 0 <= i < |name| ==> name[i] != 0
    requires Slice(h, NameOffset, |name| + 1) == name + [0]
    requires |prefix| < PrefixWidth && forall i :: 0 <= i < |prefix| ==> prefix[i] != 0
    requires Slice(h, PrefixOffset, |prefix| + 1) == prefix + [0]
    ensures EntryName(h) == if |prefix| == 0 then name else prefix + [47] + name
  {
    assert Slice(h, NameOffset, NameWidth) == name + [0] + h[|name| + 1..NameWidth];
    CStrOfTerminated(name, h[|name| + 1..NameWidth]);
    assert Slice(h, PrefixOffset, PrefixWidth)
        == prefix + [0] + h[PrefixOffset + |prefix| + 1..PrefixOffset + PrefixWidth];
    CStrOfTerminated(prefix, h[PrefixOffset + |prefix| + 1..PrefixOffset + PrefixWidth]);
  }

  /** One turn of the loop on the bytes `rest` left in the stream, with the
      long-name flag as the previous turns left it. */
  function StepAt(rest: seq<byte>, longName: bool): (st: Step)
    ensures st.Advance? ==> st.length >= BlockSize && st.length % BlockSize == 0
  {
    if |rest| < BlockSize then ShortRead
    else
      var h := rest[..BlockSize];
      if IsZeroBlock(h) then EndOfArchive
      else
        var flag := h[TypeflagOffset];
        if flag == RegularFlag || flag == 0 then
          if longName then
            if |rest| < 2 * BlockSize then ShortRead
            else
              var size := FileSize(rest[BlockSize..2 * BlockSize]);
              EntryIsAligned(BlockSize, size);
              Advance(Some(FoundFile(CStr(h), size)), 2 * BlockSize + size + Padding(size), false)
          else
            var size := FileSize(h);
            EntryIsAligned(0, size);
            Advance(Some(FoundFile(EntryName(h), size)), BlockSize + size + Padding(size), false)
        else if flag == DirectoryFlag then
          Advance(Some(FoundDirectory(EntryName(h))), BlockSize, longName)
        else if flag == LongNameFlag then
          Advance(None, BlockSize, true)
        else
          Advance(Some(Unhandled(flag)), BlockSize, longName)
  }

  function ReportsOf(report: Option<Report>): seq<Report>
  {
    if report.Some? then [report.value] else []
  }

  function Prepend(reports: seq<Report>, l: Listing): Listing
  {
    Listing(reports + l.reports, l.foundEnd)
  }

  /** The whole walk from a position of the stream: a step that needs more
      bytes than remain reports its entry and ends the walk. */
  function ReadEntries(rest: seq<byte>, longName: bool): (l: Listing)
    decreases |rest|
  {
    match StepAt(rest, longName)
    case EndOfArchive => Listing([], true)
    case ShortRead => Listing([], false)
    case Advance(report, length, next) =>
      if length <= |rest| then Prepend(ReportsOf(report), ReadEntries(rest[length..], next))
      else Listing(ReportsOf(report), false)
  }

  /** One whole step of the walk, taken from the front: its report, then
      the walk over the bytes `after` the step. */
  lemma ReadEntriesAdvance(rest: seq<byte>, longName: bool, report: Option<Report>, length: nat, next: bool,
                           after: seq<byte>)
    requires StepAt(rest, longName) == Advance(report, length, next) && length <= |rest|
    requires after == rest[length..]
    ensures ReadEntries(rest, longName) == Prepend(ReportsOf(report), ReadEntries(after, next))
  {
  }

  /** The ways a walk ends at its first step. */
  lemma ReadEntriesStops(rest: seq<byte>, longName: bool)
    ensures StepAt(rest, longName) == ShortRead ==> ReadEntries(rest, longName) == Listing([], false)
    ensures StepAt(rest, longName) == EndOfArchive ==> ReadEntries(rest, longName) == Listing([], true)
    ensures StepAt(rest, longName).Advance? && StepAt(rest, longName).length > |rest| ==>
      ReadEntries(rest, longName) == Listing(ReportsOf(StepAt(rest, longName).report), false)
  {
  }

  lemma PrependTwice(a: seq<Report>, b: seq<Report>, l: Listing)
    ensures Prepend(a, Prepend(b, l)) == Prepend(a + b, l)
  {
    assert a + (b + l.reports) == (a + b) + l.reports;
  }

  lemma DropTwice(s: seq<byte>, a: nat, b: nat)
    requires a + b <= |s|
    ensures s[a..][b..] == s[a + b..]
  {
  }

  /** One turn of the `while (in)` loop of `readTar` at stream position
      `pos`: reads a header and dispatches on its type flag. `stop` says that
      the stream is exhausted or the zero block was met (`atEnd`). */
  method ReadEntry(archive: seq<byte>, pos: nat, longName: bool)
      returns (report: Option<Report>, next: nat, nextLongName: bool, stop: bool, atEnd: bool)
    requires pos <= |archive|
    ensures pos <= next <= |archive|
    ensures atEnd ==> stop && StepAt(archive[pos..], longName) == EndOfArchive && report == None
    ensures stop && !atEnd ==> StepStops(archive[pos..], longName, report)
    ensures !stop ==> StepAt(archive[pos..], longName) == Advance(report, next - pos, nextLongName) && pos < next
  {
    ghost var rest := archive[pos..];
    report, next, nextLongName, stop, atEnd := None, pos, longName, true, false;
    if |archive| - pos < BlockSize {
      return;
    }
    var header := archive[pos..pos + BlockSize];
    assert header == rest[..BlockSize];
    if IsZeroBlock(header) {
      atEnd := true;
      return;
    }
    var flag := header[TypeflagOffset];
    if flag == RegularFlag || flag == 0 {
      report, next, nextLongName, stop := ReadFileEntry(archive, pos, longName, header);
      return;
    }
    next := pos + BlockSize;
    if flag == DirectoryFlag {
      report := Some(FoundDirectory(EntryName(header)));
    } else if flag == LongNameFlag {
      nextLongName := true;
    } else {
      report := Some(Unhandled(flag));
    }
    stop := false;
  }

  /** The regular-file branch of the loop (type flag '0' or NUL): after an
      'L' entry the header supplies only the name and the next block the
      metadata; then the size is decoded, the file reported, and its content
      and padding skipped. */
  method ReadFileEntry(archive: seq<byte>, pos: nat, longName: bool, header: seq<byte>)
      returns (report: Option<Report>, next: nat, nextLongName: bool, stop: bool)
    requires pos + BlockSize <= |archive| && header == archive[pos..pos + BlockSize]
    requires !IsZeroBlock(header) && (header[TypeflagOffset] == RegularFlag || header[TypeflagOffset] == 0)
    ensures pos <= next <= |archive|
    ensures stop ==> StepStops(archive[pos..], longName, report)
    ensures !stop ==> StepAt(archive[pos..], longName) == Advance(report, next - pos, nextLongName) && pos < next
  {
    ghost var rest := archive[pos..];
    assert header == rest[..BlockSize];
    report, next, nextLongName, stop := None, pos + BlockSize, longName, true;
    var name := EntryName(header);
    var meta := header;
    if longName {
      name := CStr(header);
      if |archive| - next < BlockSize {
        StepAtLongShort(rest);
        return;
      }
      meta := archive[next..next + BlockSize];
      assert meta == rest[BlockSize..2 * BlockSize];
      next := next + BlockSize;
      nextLongName := false;
    }
    var size := DecodeTarOctal(meta[SizeOffset..], SizeWidth);
    assert meta[SizeOffset..][..SizeWidth + 1] == meta[SizeOffset..SizeOffset + SizeWidth + 1];
    assert size == FileSize(meta);
    report := Some(FoundFile(name, size));
    var length := next - pos + size + Padding(size);
    if longName {
      StepAtLongFile(rest);
    } else {
      StepAtFile(rest);
    }
    if |archive| - pos < length {
      return;
    }
    next := pos + length;
    stop := false;
  }

  /** A turn that ends the walk without a zero block: the stream runs out
      before the header or the metadata block, or before the end of the
      entry it reports. */
  predicate StepStops(rest: seq<byte>, longName: bool, report: Option<Report>)
  {
    var st := StepAt(rest, longName);
    (st == ShortRead && report == None) || (st.Advance? && st.report == report && st.length > |rest|)
  }

  /** The walk that a stopping turn ends. */
  lemma StepStopsEnds(rest: seq<byte>, longName: bool, report: Option<Report>)
    requires StepStops(rest, longName, report)
    ensures ReadEntries(rest, longName) == Listing(ReportsOf(report), false)
  {
  }

  /** The steps of the regular-file branch, one lemma per case. */
  lemma StepAtFile(rest: seq<byte>)
    requires |rest| >= BlockSize && !IsZeroBlock(rest[..BlockSize])
    requires rest[TypeflagOffset] == RegularFlag || rest[TypeflagOffset] == 0
    ensures StepAt(rest, false)
         == Advance(Some(FoundFile(EntryName(rest[..BlockSize]), FileSize(rest[..BlockSize]))),
                    BlockSize + FileSize(rest[..BlockSize]) + Padding(FileSize(rest[..BlockSize])), false)
  {
  }

  lemma StepAtLongFile(rest: seq<byte>)
    requires |rest| >= 2 * BlockSize && !IsZeroBlock(rest[..BlockSize])
    requires rest[TypeflagOffset] == RegularFlag || rest[TypeflagOffset] == 0
    ensures StepAt(rest, true)
         == Advance(Some(FoundFile(CStr(rest[..BlockSize]), FileSize(rest[BlockSize..2 * BlockSize]))),
                    2 * BlockSize + FileSize(rest[BlockSize..2 * BlockSize])
                      + Padding(FileSize(rest[BlockSize..2 * BlockSize])), false)
  {
  }

  lemma StepAtLongShort(rest: seq<byte>)
    requires BlockSize <= |rest| < 2 * BlockSize && !IsZeroBlock(rest[..BlockSize])
    requires rest[TypeflagOffset] == RegularFlag || rest[TypeflagOffset] == 0
    ensures StepAt(rest, true) == ShortRead
  {
  }

  /** A turn that stops the loop ends the walk with its report. */
  lemma StoppingTurn(rest: seq<byte>, longName: bool, report: Option<Report>, atEnd: bool)
    requires atEnd ==> StepAt(rest, longName) == EndOfArchive && report == None
    requires !atEnd ==> StepStops(rest, longName, report)
    ensures ReadEntries(rest, longName) == Listing(ReportsOf(report), atEnd)
  {
    if atEnd {
      ReadEntriesStops(rest, longName);
    } else {
      StepStopsEnds(rest, longName, report);
    }
  }

  /** A turn that goes on moves the walk to the position it leaves. */
  lemma ContinuingTurn(archive: seq<byte>, pos: nat, longName: bool, report: Option<Report>,
                       next: nat, nextLongName: bool)
    requires pos <= next <= |archive|
    requires StepAt(archive[pos..], longName) == Advance(report, next - pos, nextLongName)
    ensures ReadEntries(archive[pos..], longName)
         == Prepend(ReportsOf(report), ReadEntries(archive[next..], nextLongName))
  {
    DropTwice(archive, pos, next - pos);
    ReadEntriesAdvance(archive[pos..], longName, report, next - pos, nextLongName, archive[next..]);
  }

  /** The loop of `readTar` (lines 132-202) over the decompressed archive:
      `pos` is the stream position; the loop runs until a turn stops it. */
  method ReadTar(archive: seq<byte>) returns (listing: Listing)
    ensures listing == ReadEntries(archive, false)
  {
    var reports: seq<Report> := [];
    var longName := false;
    var pos := 0;
    while true
      invariant pos <= |archive|
      invariant ReadEntries(archive, false) == Prepend(reports, ReadEntries(archive[pos..], longName))
      decreases |archive| - pos
    {
      var report, next, nextLongName, stop, atEnd := ReadEntry(archive, pos, longName);
      if stop {
        StoppingTurn(archive[pos..], longName, report, atEnd);
        return Listing(reports + ReportsOf(report), atEnd);
      }
      ContinuingTurn(archive, pos, longName, report, next, nextLongName);
      PrependTwice(reports, ReportsOf(report), ReadEntries(archive[next..], nextLongName));
      reports := reports + ReportsOf(report);
      pos, longName := next, nextLongName;
    }
  }

  /** A checksum field that holds its own NUL or space is decoded the same
      whatever the five bytes after the copy are. */
  lemma ChecksumIgnoresBeyond(h: seq<byte>, beyond: seq<byte>, other: seq<byte>)
    requires |h| == BlockSize
    requires FirstTerminator(Slice(h, ChecksumOffset, ChecksumWidth)) < ChecksumWidth
    ensures ChecksumMatches(h, beyond) == ChecksumMatches(h, other)
  {
    TarOctalIgnoresTail(Slice(h, ChecksumOffset, ChecksumWidth), beyond);
    TarOctalIgnoresTail(Slice(h, ChecksumOffset, ChecksumWidth), other);
  }

  /** A step that does not run out of input looks only at the bytes it
      consumes: appending more input does not change it. */
  lemma StepAtExtends(rest: seq<byte>, tail: seq<byte>, longName: bool)
    requires StepAt(rest, longName) != ShortRead
    ensures StepAt(rest + tail, longName) == StepAt(rest, longName)
  {
    assert (rest + tail)[..BlockSize] == rest[..BlockSize];
    if |rest| >= 2 * BlockSize {
      assert (rest + tail)[BlockSize..2 * BlockSize] == rest[BlockSize..2 * BlockSize];
    }
  }

  /** The loop reports nothing for the zero block and nothing after it:
      once a walk meets the end of the archive, whatever follows in the
      stream leaves its result unchanged. */
  lemma {:induction false} EndIsFinal(rest: seq<byte>, tail: seq<byte>, longName: bool)
    requires ReadEntries(rest, longName).foundEnd
    ensures ReadEntries(rest + tail, longName) == ReadEntries(rest, longName)
    decreases |rest|
  {
    var st := StepAt(rest, longName);
    StepAtExtends(rest, tail, longName);
    if st.Advance? {
      assert st.length <= |rest|;
      assert (rest + tail)[st.length..] == rest[st.length..] + tail;
      EndIsFinal(rest[st.length..], tail, st.longName);
    }
  }

  /** A zero block at the current position ends the walk with no report,
      whatever follows it. */
  lemma ZeroBlockEnds(tail: seq<byte>, longName: bool)
    ensures ReadEntries(Zeros(BlockSize) + tail, longName) == Listing([], true)
  {
    assert (Zeros(BlockSize) + tail)[..BlockSize] == Zeros(BlockSize);
  }

  /** Every step that goes on leaves the position on a block boundary, so a
      walk started at a boundary only ever reads headers on boundaries. */
  lemma StepKeepsAlignment(pos: nat, rest: seq<byte>, longName: bool)
    requires pos % BlockSize == 0 && StepAt(rest, longName).Advance?
    ensures (pos + StepAt(rest, longName).length) % BlockSize == 0
  {
    var n := StepAt(rest, longName).length;
    assert n == BlockSize * (n / BlockSize);
    assert pos == BlockSize * (pos / BlockSize);
    assert pos + n == BlockSize * (pos / BlockSize + n / BlockSize);
  }

  /** The data block of an 'L' entry: the name, its NUL and zero padding. */
  function NameBlock(name: seq<byte>): (block: seq<byte>)
    requires |name| <= TypeflagOffset
    ensures |block| == BlockSize
  {
    name + Zeros(BlockSize - |name|)
  }

  lemma NameBlockFacts(name: seq<byte>)
    requires 1 <= |name| <= TypeflagOffset && forall i :: 0 <= i < |name| ==> name[i] != 0
    ensures !IsZeroBlock(NameBlock(name)) && NameBlock(name)[TypeflagOffset] == 0
    ensures CStr(NameBlock(name)) == name
  {
    var block := NameBlock(name);
    assert block == name + [0] + Zeros(BlockSize - |name| - 1);
    CStrOfTerminated(name, Zeros(BlockSize - |name| - 1));
    assert block[0] == name[0];
  }

  /** With the long-name flag set, a file-typed block supplies the name and
      the block after it the size. */
  lemma StepAtLongName(block: seq<byte>, header: seq<byte>, rest: seq<byte>)
    requires |block| == BlockSize && !IsZeroBlock(block) && block[TypeflagOffset] == 0
    requires |header| == BlockSize
    ensures StepAt(block + header + rest, true)
         == Advance(Some(FoundFile(CStr(block), FileSize(header))),
                    2 * BlockSize + FileSize(header) + Padding(FileSize(header)), false)
  {
    var after := block + header + rest;
    assert after[..BlockSize] == block;
    assert after[BlockSize..2 * BlockSize] == header;
  }

  /** An 'L' header only sets the long-name flag; its data is read as the
      next header. */
  lemma StepAtLongHeader(longHeader: seq<byte>, after: seq<byte>, longName: bool)
    requires |longHeader| == BlockSize && !IsZeroBlock(longHeader) && longHeader[TypeflagOffset] == LongNameFlag
    ensures StepAt(longHeader + after, longName) == Advance(None, BlockSize, true)
    ensures (longHeader + after)[BlockSize..] == after
  {
    assert (longHeader + after)[..BlockSize] == longHeader;
  }

  /** GNU long names: an 'L' header whose data block holds a name of 1 to
      156 bytes (so that the block's type flag byte is its NUL padding),
      followed by the real header, is reported as one file under that name
      with the real header's size, and the walk resumes after the content. */
  lemma LongNameRecovered(longHeader: seq<byte>, name: seq<byte>, header: seq<byte>, rest: seq<byte>)
    requires |longHeader| == BlockSize && !IsZeroBlock(longHeader) && longHeader[TypeflagOffset] == LongNameFlag
    requires 1 <= |name| <= TypeflagOffset && forall i :: 0 <= i < |name| ==> name[i] != 0
    requires |header| == BlockSize && FileSize(header) + Padding(FileSize(header)) <= |rest|
    ensures ReadEntries(longHeader + (NameBlock(name) + header + rest), false)
         == Prepend([FoundFile(name, FileSize(header))],
                    ReadEntries(rest[FileSize(header) + Padding(FileSize(header))..], false))
  {
    var block := NameBlock(name);
    var after := block + header + rest;
    StepAtLongHeader(longHeader, after, false);
    ReadEntriesAdvance(longHeader + after, false, None, BlockSize, true, after);
    NameBlockFacts(name);
    StepAtLongName(block, header, rest);
    var size := FileSize(header);
    var length := 2 * BlockSize + size + Padding(size);
    DropTwice(after, 2 * BlockSize, size + Padding(size));
    assert after[2 * BlockSize..] == rest;
    DropTwice(after, 2 * BlockSize, size + Padding(size));
    ReadEntriesAdvance(after, true, Some(FoundFile(name, size)), length, false, rest[size + Padding(size)..]);
    var tail := ReadEntries(rest[size + Padding(size)..], false);
    assert ReadEntries(after, true) == Prepend([FoundFile(name, size)], tail);
    assert Prepend([], Prepend([FoundFile(name, size)], tail)) == Prepend([FoundFile(name, size)], tail);
  }
}
