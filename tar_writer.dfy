/** The archive writer `LibTar::Tar`: it fills one header buffer in place
    (`_init`, `_filename`, `_size`, `_checksum`), then appends the header, the
    content and the zero padding to its output stream, and `finish` appends
    the two zero blocks that end the archive. */
module TarWriter {
  import opened TarHeader
  import opened Octal

  /** The permission bits `_init` prints into the mode field: octal 0644. */
  const DefaultMode: nat := 420

  /** "ustar" and its NUL, as `strcpy` copies it into the magic field. */
  const UstarMagic: seq<byte> := [117, 115, 116, 97, 114, 0]

  /** " " and its NUL, as `strcpy` copies it into the version field. */
  const UstarVersion: seq<byte> := [32, 0]

  /** "users" and its NUL, as `sprintf` prints it into the group name field. */
  const UsersGroup: seq<byte> := [117, 115, 101, 114, 115, 0]

  /** The values `%011lo` and `%011llo` print in eleven octal digits. */
  predicate FitsEleven(v: nat)
  {
    v < Pow8(11)
  }

  /** One past the largest `unsigned long`. TarClass.cpp is written for MSVC
      (it silences MSVC warning 4996), where `unsigned long` has 32 bits. */
  const ULongRange: nat := 0x1_0000_0000

  /** `static_cast<unsigned long>`: the value modulo 2^32. Every such value
      prints in eleven octal digits. */
  function ULong(n: nat): (u: nat)
    ensures u < ULongRange && FitsEleven(u)
    ensures n < ULongRange ==> u == n
    ensures n >= ULongRange ==> u != n
  {
    Pow8Values();
    n % ULongRange
  }

  /** The header as `_init` leaves it, given the clock value `mtime`. */
  function InitialHeader(mtime: nat): (h: seq<byte>)
    requires FitsEleven(mtime)
    ensures |h| == BlockSize
  {
    var h := Overwrite(Zeros(BlockSize), MagicOffset, UstarMagic);
    var h := Overwrite(h, VersionOffset, UstarVersion);
    var h := Overwrite(h, MtimeOffset, OctalField(mtime, MtimeWidth));
    var h := Overwrite(h, ModeOffset, OctalField(DefaultMode, ModeWidth));
    Overwrite(h, GnameOffset, UsersGroup)
  }

  /** The bytes `snprintf(name, 100, "%s", filename)` copies: the C string
      `filename`, cut to 99 bytes. */
  function StoredName(filename: seq<byte>): (n: seq<byte>)
  {
    var len := CStrLen(filename);
    filename[..if len < NameWidth then len else NameWidth - 1]
  }

  /** What `_filename` accepts without a diagnostic: a non-empty name shorter
      than 100 bytes. */
  predicate ValidName(filename: seq<byte>)
  {
    var len := CStrLen(filename);
    !(len == 0 || len >= NameWidth)
  }

  /** The sum `_checksum` computes: every header byte unsigned, the eight
      checksum bytes counted as spaces. */
  function HeaderChecksum(h: seq<byte>): (sum: nat)
    requires |h| == BlockSize
    ensures sum <= BlockSize * 255 < Pow8(6)
  {
    UnsignedSumBound(Blanked(h));
    Pow8Values();
    UnsignedSum(Blanked(h))
  }

  /** The header after `_checksum`: six octal digits of the sum and a NUL in
      the checksum field; its eighth byte is left as it was. */
  function WithChecksum(h: seq<byte>): (r: seq<byte>)
    requires |h| == BlockSize
    ensures |r| == BlockSize
  {
    Overwrite(h, ChecksumOffset, OctalField(HeaderChecksum(h), 7))
  }

  /** The header `put` writes for an entry of `size` bytes named `filename`. */
  function HeaderFor(filename: seq<byte>, size: nat, mtime: nat): (h: seq<byte>)
    requires FitsEleven(size) && FitsEleven(mtime)
    ensures |h| == BlockSize
  {
    var h := InitialHeader(mtime);
    var h := Overwrite(h, NameOffset, StoredName(filename) + [0]);
    var h := Overwrite(h, TypeflagOffset, [0]);
    var h := Overwrite(h, SizeOffset, OctalField(size, SizeWidth));
    WithChecksum(h)
  }

  /** All the bytes one `put` appends at clock value `clock`: the header,
      whose size and mtime fields hold the lengths cast to `unsigned long`,
      then the whole content and the padding for its full length. */
  function EntryBytes(filename: seq<byte>, content: seq<byte>, clock: nat): seq<byte>
  {
    HeaderFor(filename, ULong(|content|), ULong(clock)) + content + Zeros(Padding(|content|))
  }

  /** What `finish` appends: two blocks of zero bytes. */
  function Trailer(): (t: seq<byte>)
    ensures |t| == 2 * BlockSize && IsZeroBlock(t)
  {
    Zeros(2 * BlockSize)
  }

  /** The bytes `snprintf` leaves in the name field come from the name: at
      most 99 of them, none of them NUL, the whole C string when the name is
      valid and its first 99 bytes otherwise. */
  lemma StoredNameIsPrefix(filename: seq<byte>)
    ensures |StoredName(filename)| < NameWidth
    ensures forall i :: 0 <= i < |StoredName(filename)| ==> StoredName(filename)[i] != 0
    ensures StoredName(filename) == CStr(filename)[..|StoredName(filename)|]
    ensures ValidName(filename) ==> StoredName(filename) == CStr(filename) && |StoredName(filename)| > 0
    ensures !ValidName(filename) && CStrLen(filename) > 0 ==> |StoredName(filename)| == NameWidth - 1
  {
  }

  /** Whether byte `i` of a header belongs to one of the fields `_init` fills. */
  predicate InitFills(i: nat)
  {
    || ModeOffset <= i < ModeOffset + ModeWidth
    || MtimeOffset <= i < MtimeOffset + MtimeWidth
    || MagicOffset <= i < MagicOffset + |UstarMagic|
    || VersionOffset <= i < VersionOffset + |UstarVersion|
    || GnameOffset <= i < GnameOffset + |UsersGroup|
  }

  /** `_init` writes magic "ustar\0", version " \0", mode "0000644\0", the
      clock value as eleven octal digits and a NUL, and group name "users\0";
      every other byte is zero. */
  lemma InitialHeaderFields(mtime: nat)
    requires FitsEleven(mtime)
    ensures Slice(InitialHeader(mtime), MagicOffset, MagicWidth) == UstarMagic
    ensures Slice(InitialHeader(mtime), VersionOffset, VersionWidth) == UstarVersion
    ensures Slice(InitialHeader(mtime), ModeOffset, ModeWidth) == [48, 48, 48, 48, 54, 52, 52, 0]
    ensures Slice(InitialHeader(mtime), MtimeOffset, MtimeWidth) == OctalField(mtime, MtimeWidth)
    ensures Slice(InitialHeader(mtime), GnameOffset, |UsersGroup|) == UsersGroup
    ensures forall i :: 0 <= i < BlockSize && !InitFills(i) ==> InitialHeader(mtime)[i] == 0
  {
    Pow8Values();
    var mode := OctalField(DefaultMode, ModeWidth);
    assert Digits(DefaultMode, 7) == [48, 48, 48, 48, 54, 52, 52];
    var z := Zeros(BlockSize);
    var h1 := Overwrite(z, MagicOffset, UstarMagic);
    var h2 := Overwrite(h1, VersionOffset, UstarVersion);
    var h3 := Overwrite(h2, MtimeOffset, OctalField(mtime, MtimeWidth));
    var h4 := Overwrite(h3, ModeOffset, mode);
    var h := Overwrite(h4, GnameOffset, UsersGroup);
    assert h == InitialHeader(mtime);
    SliceOfOverwrite(h4, GnameOffset, UsersGroup);
    SliceOfOverwrite(h3, ModeOffset, mode);
    SliceBesideOverwrite(h4, GnameOffset, UsersGroup, ModeOffset, ModeWidth);
    SliceOfOverwrite(h2, MtimeOffset, OctalField(mtime, MtimeWidth));
    SliceBesideOverwrite(h3, ModeOffset, mode, MtimeOffset, MtimeWidth);
    SliceBesideOverwrite(h4, GnameOffset, UsersGroup, MtimeOffset, MtimeWidth);
    SliceOfOverwrite(h1, VersionOffset, UstarVersion);
    SliceBesideOverwrite(h2, MtimeOffset, OctalField(mtime, MtimeWidth), VersionOffset, VersionWidth);
    SliceBesideOverwrite(h3, ModeOffset, mode, VersionOffset, VersionWidth);
    SliceBesideOverwrite(h4, GnameOffset, UsersGroup, VersionOffset, VersionWidth);
    SliceOfOverwrite(z, MagicOffset, UstarMagic);
    SliceBesideOverwrite(h1, VersionOffset, UstarVersion, MagicOffset, MagicWidth);
    SliceBesideOverwrite(h2, MtimeOffset, OctalField(mtime, MtimeWidth), MagicOffset, MagicWidth);
    SliceBesideOverwrite(h3, ModeOffset, mode, MagicOffset, MagicWidth);
    SliceBesideOverwrite(h4, GnameOffset, UsersGroup, MagicOffset, MagicWidth);
    OverwriteAt(z, MagicOffset, UstarMagic);
    OverwriteAt(h1, VersionOffset, UstarVersion);
    OverwriteAt(h2, MtimeOffset, OctalField(mtime, MtimeWidth));
    OverwriteAt(h3, ModeOffset, mode);
    OverwriteAt(h4, GnameOffset, UsersGroup);
    forall i | 0 <= i < BlockSize && !InitFills(i)
      ensures h[i] == 0
    {
      assert h[i] == h4[i] == h3[i] == h2[i] == h1[i] == z[i];
    }
  }

  /** Whether byte `i` of a header belongs to a field `put` fills. */
  predicate PutFills(i: nat, nameLength: nat)
  {
    || InitFills(i)
    || NameOffset <= i <= nameLength
    || i == TypeflagOffset
    || SizeOffset <= i < SizeOffset + SizeWidth
    || ChecksumOffset <= i < ChecksumOffset + 7
  }

  /** The header before its checksum is computed. */
  function UnsummedHeader(filename: seq<byte>, size: nat, mtime: nat): (h: seq<byte>)
    requires FitsEleven(size) && FitsEleven(mtime)
    ensures |h| == BlockSize && HeaderFor(filename, size, mtime) == WithChecksum(h)
  {
    var h := InitialHeader(mtime);
    var h := Overwrite(h, NameOffset, StoredName(filename) + [0]);
    var h := Overwrite(h, TypeflagOffset, [0]);
    Overwrite(h, SizeOffset, OctalField(size, SizeWidth))
  }

  /** The header `put` has filled before `_checksum` runs: the stored name
      and a NUL, type flag NUL, the size as eleven octal digits and a NUL, and
      the fields of `_init`; every other byte is zero. */
  lemma UnsummedHeaderFields(filename: seq<byte>, size: nat, mtime: nat, h: seq<byte>)
    requires FitsEleven(size) && FitsEleven(mtime) && h == UnsummedHeader(filename, size, mtime)
    ensures Slice(h, NameOffset, |StoredName(filename)| + 1) == StoredName(filename) + [0]
    ensures h[TypeflagOffset] == 0
    ensures Slice(h, SizeOffset, SizeWidth) == OctalField(size, SizeWidth)
    ensures Slice(h, MagicOffset, MagicWidth) == UstarMagic
    ensures Slice(h, VersionOffset, VersionWidth) == UstarVersion
    ensures Slice(h, ModeOffset, ModeWidth) == [48, 48, 48, 48, 54, 52, 52, 0]
    ensures Slice(h, MtimeOffset, MtimeWidth) == OctalField(mtime, MtimeWidth)
    ensures Slice(h, GnameOffset, |UsersGroup|) == UsersGroup
    ensures forall i :: 0 <= i < BlockSize && !PutFills(i, |StoredName(filename)|) && !(ChecksumOffset <= i < ChecksumOffset + 7) ==> h[i] == 0
  {
    StoredNameIsPrefix(filename);
    InitialHeaderFields(mtime);
    var name := StoredName(filename) + [0];
    var sz := OctalField(size, SizeWidth);
    var h0 := InitialHeader(mtime);
    var h1 := Overwrite(h0, NameOffset, name);
    var h2 := Overwrite(h1, TypeflagOffset, [0]);
    assert h == Overwrite(h2, SizeOffset, sz);
    SliceOfOverwrite(h0, NameOffset, name);
    SliceBesideOverwrite(h1, TypeflagOffset, [0], NameOffset, |name|);
    SliceBesideOverwrite(h2, SizeOffset, sz, NameOffset, |name|);
    SliceOfOverwrite(h2, SizeOffset, sz);
    assert h[TypeflagOffset] == h2[TypeflagOffset] == 0;
    Beside(h0, h1, h2, h, name, sz, MagicOffset, MagicWidth);
    Beside(h0, h1, h2, h, name, sz, VersionOffset, VersionWidth);
    Beside(h0, h1, h2, h, name, sz, ModeOffset, ModeWidth);
    Beside(h0, h1, h2, h, name, sz, MtimeOffset, MtimeWidth);
    Beside(h0, h1, h2, h, name, sz, GnameOffset, |UsersGroup|);
    OverwriteAt(h0, NameOffset, name);
    OverwriteAt(h1, TypeflagOffset, [0]);
    OverwriteAt(h2, SizeOffset, sz);
    forall i | 0 <= i < BlockSize && !PutFills(i, |StoredName(filename)|) && !(ChecksumOffset <= i < ChecksumOffset + 7)
      ensures h[i] == 0
    {
      assert h[i] == h2[i] == h1[i] == h0[i];
    }
  }

  /** The header `put` writes: the fields above, and six octal digits and a
      NUL in the checksum field giving the unsigned sum of that very header
      with its checksum field counted as spaces; every byte outside these
      fields, the prefix field among them, is zero. */
  lemma HeaderForFields(filename: seq<byte>, size: nat, mtime: nat, h: seq<byte>)
    requires FitsEleven(size) && FitsEleven(mtime) && h == HeaderFor(filename, size, mtime)
    ensures Slice(h, NameOffset, |StoredName(filename)| + 1) == StoredName(filename) + [0]
    ensures h[TypeflagOffset] == 0
    ensures Slice(h, SizeOffset, SizeWidth) == OctalField(size, SizeWidth)
    ensures Slice(h, MagicOffset, MagicWidth) == UstarMagic
    ensures Slice(h, VersionOffset, VersionWidth) == UstarVersion
    ensures Slice(h, ModeOffset, ModeWidth) == [48, 48, 48, 48, 54, 52, 52, 0]
    ensures Slice(h, MtimeOffset, MtimeWidth) == OctalField(mtime, MtimeWidth)
    ensures Slice(h, GnameOffset, |UsersGroup|) == UsersGroup
    ensures Slice(h, ChecksumOffset, 7) == OctalField(HeaderChecksum(h), 7)
    ensures forall i :: 0 <= i < BlockSize && !PutFills(i, |StoredName(filename)|) ==> h[i] == 0
  {
    var u := UnsummedHeader(filename, size, mtime);
    UnsummedHeaderFields(filename, size, mtime, u);
    StoredNameIsPrefix(filename);
    var sum := OctalField(HeaderChecksum(u), 7);
    assert h == Overwrite(u, ChecksumOffset, sum);
    BlankedIgnoresChecksum(u, sum);
    OverwriteAt(u, ChecksumOffset, sum);
    SliceOfOverwrite(u, ChecksumOffset, sum);
    var n := |StoredName(filename)| + 1;
    SliceBesideOverwrite(u, ChecksumOffset, sum, NameOffset, n);
    SliceBesideOverwrite(u, ChecksumOffset, sum, SizeOffset, SizeWidth);
    SliceBesideOverwrite(u, ChecksumOffset, sum, MagicOffset, MagicWidth);
    SliceBesideOverwrite(u, ChecksumOffset, sum, VersionOffset, VersionWidth);
    SliceBesideOverwrite(u, ChecksumOffset, sum, ModeOffset, ModeWidth);
    SliceBesideOverwrite(u, ChecksumOffset, sum, MtimeOffset, MtimeWidth);
    SliceBesideOverwrite(u, ChecksumOffset, sum, GnameOffset, |UsersGroup|);
    assert h[TypeflagOffset] == u[TypeflagOffset];
    forall i | 0 <= i < BlockSize && !PutFills(i, |StoredName(filename)|)
      ensures h[i] == 0
    {
      assert h[i] == u[i];
    }
  }

  /** A field `_init` fills is left alone by the later writes of `put`. */
  lemma Beside(h0: seq<byte>, h1: seq<byte>, h2: seq<byte>, h: seq<byte>,
               name: seq<byte>, sz: seq<byte>, o: nat, w: nat)
    requires |h0| == BlockSize && |name| <= NameWidth && |sz| == SizeWidth
    requires h1 == Overwrite(h0, NameOffset, name) && h2 == Overwrite(h1, TypeflagOffset, [0])
    requires h == Overwrite(h2, SizeOffset, sz)
    requires ModeOffset <= o && o + w <= BlockSize
    requires o + w <= SizeOffset || MtimeOffset <= o
    requires o + w <= TypeflagOffset || TypeflagOffset < o
    ensures Slice(h, o, w) == Slice(h0, o, w)
  {
    SliceBesideOverwrite(h0, NameOffset, name, o, w);
    SliceBesideOverwrite(h1, TypeflagOffset, [0], o, w);
    SliceBesideOverwrite(h2, SizeOffset, sz, o, w);
  }

  lemma AppendAll(a: seq<byte>, b: seq<byte>, c: seq<byte>, d: seq<byte>)
    ensures a + b + c + d == a + (b + c + d)
  {
  }

  /** One `put` appends 512 + len + padding bytes, a whole number of blocks:
      the header, the content verbatim, then zeros. */
  lemma EntryBytesLayout(filename: seq<byte>, content: seq<byte>, mtime: nat)
    ensures |EntryBytes(filename, content, mtime)| == BlockSize + |content| + Padding(|content|)
    ensures |EntryBytes(filename, content, mtime)| % BlockSize == 0
    ensures EntryBytes(filename, content, mtime)[..BlockSize] == HeaderFor(filename, ULong(|content|), ULong(mtime))
    ensures EntryBytes(filename, content, mtime)[BlockSize..BlockSize + |content|] == content
    ensures forall i :: BlockSize + |content| <= i < |EntryBytes(filename, content, mtime)| ==> EntryBytes(filename, content, mtime)[i] == 0
  {
    var e := EntryBytes(filename, content, mtime);
    EntryIsAligned(0, |content|);
    assert e[..BlockSize] == HeaderFor(filename, ULong(|content|), ULong(mtime));
    assert e[BlockSize..BlockSize + |content|] == content;
  }

  /** Appending an entry to a 512-aligned stream keeps it aligned: the
      position modulo 512 is the same before and after. */
  lemma AppendKeepsAlignment(out: seq<byte>, filename: seq<byte>, content: seq<byte>, mtime: nat)
    ensures |out + EntryBytes(filename, content, mtime)| % BlockSize == |out| % BlockSize
  {
    EntryIsAligned(|out|, |content|);
  }

  /** The entry for a header already built. */
  lemma EntryBytesOf(filename: seq<byte>, content: seq<byte>, mtime: nat, header: seq<byte>)
    requires header == HeaderFor(filename, ULong(|content|), ULong(mtime))
    ensures EntryBytes(filename, content, mtime) == header + content + Zeros(Padding(|content|))
  {
  }

  /** A tar archive being written: whether `finish` has run, and the bytes
      written to the output stream so far (starting with whatever the stream
      held when the writer was bound to it). */
  class Tar {
    var finished: bool
    var out: seq<byte>

    /** `Tar(out)`: binds the stream; the size check on the header struct
        cannot fire (see `DeclaredLayout`). */
    constructor (sink: seq<byte>)
      ensures out == sink && !finished
    {
      finished := false;
      out := sink;
    }

    /** `~Tar`: warns exactly when `finish` was never called. */
    method Dispose() returns (warnUnfinished: bool)
      ensures warnUnfinished == !finished && out == old(out)
    {
      warnUnfinished := !finished;
    }

    /** `_init`: zero-fill, then magic, version, the clock value `clock` of
        `time(NULL)` cast to `unsigned long`, mode and group name. */
    method InitHeader(header: array<byte>, clock: nat)
      requires header.Length == BlockSize
      modifies header
      ensures header[..] == InitialHeader(ULong(clock))
    {
      var mtime := ULong(clock);
      Store(header, 0, Zeros(BlockSize));
      assert header[..] == Zeros(BlockSize);
      Store(header, MagicOffset, UstarMagic);
      Store(header, VersionOffset, UstarVersion);
      Store(header, MtimeOffset, OctalField(mtime, MtimeWidth));
      Pow8Values();
      Store(header, ModeOffset, OctalField(DefaultMode, ModeWidth));
      Store(header, GnameOffset, UsersGroup);
    }

    /** `_checksum`: sums the bytes before the checksum field, eight spaces
        and the bytes after it, then prints the sum as six octal digits. */
    method WriteChecksum(header: array<byte>)
      requires header.Length == BlockSize
      modifies header
      ensures header[..] == WithChecksum(old(header[..]))
    {
      var sum := SumHeader(header);
      Store(header, ChecksumOffset, OctalField(sum, 7));
    }

    /** The loop of `_checksum`: the unsigned sum of the header's bytes, its
        checksum field counted as spaces. */
    method SumHeader(header: array<byte>) returns (sum: nat)
      requires header.Length == BlockSize
      ensures sum == HeaderChecksum(header[..])
    {
      ghost var blank := Blanked(header[..]);
      OverwriteAt(header[..], ChecksumOffset, ChecksumBlank);
      assert forall j :: 0 <= j < BlockSize && !(ChecksumOffset <= j < ChecksumOffset + ChecksumWidth) ==> blank[j] == header[j];
      sum := 0;
      var p := 0;
      while p < ChecksumOffset
        invariant 0 <= p <= ChecksumOffset
        invariant sum == UnsignedSum(blank[..p])
      {
        UnsignedSumPrefix(blank, p);
        assert blank[p] == header[..][p];
        sum := sum + header[p];
        p := p + 1;
      }
      assert forall k :: ChecksumOffset <= k < ChecksumOffset + ChecksumWidth ==> blank[k] == 32;
      var i := 0;
      while i < ChecksumWidth
        invariant 0 <= i <= ChecksumWidth && p == ChecksumOffset + i
        invariant sum == UnsignedSum(blank[..p])
      {
        UnsignedSumPrefix(blank, p);
        sum := sum + 32;
        p := p + 1;
        i := i + 1;
      }
      while p < BlockSize
        invariant ChecksumOffset + ChecksumWidth <= p <= BlockSize
        invariant sum == UnsignedSum(blank[..p])
      {
        UnsignedSumPrefix(blank, p);
        assert blank[p] == header[..][p];
        sum := sum + header[p];
        p := p + 1;
      }
      assert blank[..p] == blank;
    }

    /** `_size`: eleven zero-padded octal digits and a NUL in the size field. */
    method WriteSize(header: array<byte>, fileSize: nat)
      requires header.Length == BlockSize && FitsEleven(fileSize)
      modifies header
      ensures header[..] == Overwrite(old(header[..]), SizeOffset, OctalField(fileSize, SizeWidth))
    {
      Store(header, SizeOffset, OctalField(fileSize, SizeWidth));
    }

    /** `_filename`: flags an empty name or one of 100 bytes or more (the
        source only prints a message), then copies at most 99 bytes of the
        name and a NUL into the name field. */
    method WriteFilename(header: array<byte>, filename: seq<byte>) returns (valid: bool)
      requires header.Length == BlockSize
      modifies header
      ensures valid == ValidName(filename)
      ensures header[..] == Overwrite(old(header[..]), NameOffset, StoredName(filename) + [0])
    {
      var len := CStrLen(filename);
      valid := !(len == 0 || len >= NameWidth);
      var copied := if len < NameWidth then len else NameWidth - 1;
      Store(header, NameOffset, filename[..copied] + [0]);
    }

    /** `_endRecord(len)`: writes NUL bytes until `len` reaches a multiple of 512. */
    method EndRecord(len: nat)
      modifies this`out
      ensures out == old(out) + Zeros(Padding(len))
    {
      var n := len;
      while n % BlockSize != 0
        invariant len <= n <= len + Padding(len)
        invariant out == old(out) + Zeros(n - len)
        decreases len + Padding(len) - n
      {
        if n == len + Padding(len) {
          assert false;
        }
        out := out + [0];
        n := n + 1;
      }
      if n < len + Padding(len) {
        PaddingIsLeast(len, n - len);
      }
    }

    /** `finish`: marks the archive finished and writes two zero blocks; it
        does not look at the previous state, so a second call writes two more. */
    method Finish()
      modifies this
      ensures finished && out == old(out) + Trailer()
    {
      finished := true;
      var header := Zeros(BlockSize);
      out := out + header;
      out := out + header;
      assert header + header == Trailer();
    }

    /** The header-filling half of `put`: `_init`, `_filename`, type flag
        NUL, `_size`, then `_checksum` over the result. */
    method FillHeader(header: array<byte>, filename: seq<byte>, len: nat, clock: nat) returns (nameValid: bool)
      requires header.Length == BlockSize
      modifies header
      ensures nameValid == ValidName(filename)
      ensures header[..] == HeaderFor(filename, ULong(len), ULong(clock))
    {
      InitHeader(header, clock);
      nameValid := WriteFilename(header, filename);
      ghost var named := header[..];
      header[TypeflagOffset] := 0;
      assert header[..] == Overwrite(named, TypeflagOffset, [0]);
      WriteSize(header, ULong(len));
      assert header[..] == UnsummedHeader(filename, ULong(len), ULong(clock));
      WriteChecksum(header);
    }

    /** `put(filename, content, len)`: one header (type flag NUL, checksum
        computed last), `len` bytes of content, then the padding. The size
        field gets `len` cast to `unsigned long`; the content and the padding
        use `len` itself. */
    method Put(filename: seq<byte>, content: seq<byte>, len: nat, clock: nat) returns (nameValid: bool)
      requires len <= |content|
      modifies this`out
      ensures nameValid == ValidName(filename)
      ensures out == old(out) + EntryBytes(filename, content[..len], clock)
    {
      var header := new byte[BlockSize];
      nameValid := FillHeader(header, filename, len, clock);
      var written := header[..];
      var body := content[..len];
      ghost var before := out;
      out := out + written;
      out := out + body;
      EndRecord(len);
      EntryBytesOf(filename, body, clock, written);
      AppendAll(before, written, body, Zeros(Padding(len)));
    }

    /** `put(filename, s)` for a `std::string`: all of its bytes. */
    method PutString(filename: seq<byte>, s: seq<byte>, clock: nat) returns (nameValid: bool)
      modifies this`out
      ensures nameValid == ValidName(filename)
      ensures out == old(out) + EntryBytes(filename, s, clock)
    {
      nameValid := Put(filename, s, |s|, clock);
      assert s[..|s|] == s;
    }

    /** `put(filename, content)` for a C string: the bytes before its first NUL. */
    method PutCString(filename: seq<byte>, content: seq<byte>, clock: nat) returns (nameValid: bool)
      modifies this`out
      ensures nameValid == ValidName(filename)
      ensures out == old(out) + EntryBytes(filename, CStr(content), clock)
    {
      nameValid := Put(filename, content, CStrLen(content), clock);
    }

    /** `putFile(filename, nameInArchive)` once the file has been read: the
        file's bytes stored under `nameInArchive`. */
    method PutFile(nameInArchive: seq<byte>, fileBytes: seq<byte>, clock: nat) returns (nameValid: bool)
      modifies this`out
      ensures nameValid == ValidName(nameInArchive)
      ensures out == old(out) + EntryBytes(nameInArchive, fileBytes, clock)
    {
      nameValid := Put(nameInArchive, fileBytes, |fileBytes|, clock);
      assert fileBytes[..|fileBytes|] == fileBytes;
    }
  }
}
