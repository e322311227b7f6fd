/** The 512-byte tar header record, as declared by `PosixTarHeader` (writer)
    and `TARFileHeader` (reader), together with the byte-level helpers that
    replace the C++ struct overlay: bounds-checked slice reads and writes, the
    C string length, the byte sums behind the header checksum and the zero
    padding to the next block boundary. */
module TarHeader {

  /** One `char` of a header, read as an unsigned value (`*p & 0xff`). */
  type byte = x: int | 0 <= x < 256

  /** `sizeof(PosixTarHeader)`: every header, and every unit of the archive, is one block. */
  const BlockSize: nat := 512

  // Offsets and widths of the 17 header fields, in declaration order.
  const NameOffset: nat := 0
  const NameWidth: nat := 100
  const ModeOffset: nat := 100
  const ModeWidth: nat := 8
  const UidOffset: nat := 108
  const UidWidth: nat := 8
  const GidOffset: nat := 116
  const GidWidth: nat := 8
  const SizeOffset: nat := 124
  const SizeWidth: nat := 12
  const MtimeOffset: nat := 136
  const MtimeWidth: nat := 12
  const ChecksumOffset: nat := 148
  const ChecksumWidth: nat := 8
  const TypeflagOffset: nat := 156
  const TypeflagWidth: nat := 1
  const LinknameOffset: nat := 157
  const LinknameWidth: nat := 100
  const MagicOffset: nat := 257
  const MagicWidth: nat := 6
  const VersionOffset: nat := 263
  const VersionWidth: nat := 2
  const UnameOffset: nat := 265
  const UnameWidth: nat := 32
  const GnameOffset: nat := 297
  const GnameWidth: nat := 32
  const DevmajorOffset: nat := 329
  const DevmajorWidth: nat := 8
  const DevminorOffset: nat := 337
  const DevminorWidth: nat := 8
  const PrefixOffset: nat := 345
  const PrefixWidth: nat := 155
  const PadOffset: nat := 500
  const PadWidth: nat := 12

  /** The array sizes of the members of `struct PosixTarHeader`, in declaration order. */
  const PosixTarHeaderWidths: seq<nat> := [100, 8, 8, 8, 12, 12, 8, 1, 100, 6, 2, 32, 32, 8, 8, 155, 12]

  /** The sizes of the members of `struct TARFileHeader`, in declaration order
      (`typeFlag` is a single `char`). */
  const TarFileHeaderWidths: seq<nat> := [100, 8, 8, 8, 12, 12, 8, 1, 100, 6, 2, 32, 32, 8, 8, 155, 12]

  /** The field offsets this model uses, in declaration order. */
  const FieldOffsets: seq<nat> :=
    [NameOffset, ModeOffset, UidOffset, GidOffset, SizeOffset, MtimeOffset, ChecksumOffset,
     TypeflagOffset, LinknameOffset, MagicOffset, VersionOffset, UnameOffset, GnameOffset,
     DevmajorOffset, DevminorOffset, PrefixOffset, PadOffset]

  /** The field widths this model uses, in declaration order. */
  const FieldWidths: seq<nat> :=
    [NameWidth, ModeWidth, UidWidth, GidWidth, SizeWidth, MtimeWidth, ChecksumWidth,
     TypeflagWidth, LinknameWidth, MagicWidth, VersionWidth, UnameWidth, GnameWidth,
     DevmajorWidth, DevminorWidth, PrefixWidth, PadWidth]

  function SumOf(ws: seq<nat>): nat
  {
    if |ws| == 0 then 0 else SumOf(ws[..|ws| - 1]) + ws[|ws| - 1]
  }

  lemma SumOfPrefix(ws: seq<nat>, i: nat)
    requires i < |ws|
    ensures SumOf(ws[..i + 1]) == SumOf(ws[..i]) + ws[i]
  {
    assert ws[..i + 1][..i] == ws[..i];
  }

  /** Each offset is the previous one plus the previous width. */
  lemma OffsetsAreConsecutive()
    ensures |FieldOffsets| == |FieldWidths| == 17
    ensures FieldOffsets[0] == 0
    ensures forall i :: 0 < i < |FieldOffsets| ==> FieldOffsets[i] == FieldOffsets[i - 1] + FieldWidths[i - 1]
    ensures FieldOffsets[16] + FieldWidths[16] == BlockSize
  {
  }

  lemma {:induction false} RunningSum(i: nat)
    requires i < |FieldOffsets|
    ensures SumOf(FieldWidths[..i]) == FieldOffsets[i]
  {
    OffsetsAreConsecutive();
    if i == 0 {
      assert FieldWidths[..0] == [];
    } else {
      RunningSum(i - 1);
      SumOfPrefix(FieldWidths, i - 1);
    }
  }

  /** A struct without padding places each member right after the previous one:
      the offsets used here are the running sums of the declared widths, and
      the widths add up to exactly one block (the check in the `Tar`
      constructor never fires). */
  lemma DeclaredLayout()
    ensures SumOf(PosixTarHeaderWidths) == BlockSize
    ensures PosixTarHeaderWidths == FieldWidths
    ensures |FieldOffsets| == |PosixTarHeaderWidths|
    ensures forall i :: 0 <= i < |FieldOffsets| ==> SumOf(PosixTarHeaderWidths[..i]) == FieldOffsets[i]
  {
    OffsetsAreConsecutive();
    forall i | 0 <= i < |FieldOffsets|
      ensures SumOf(FieldWidths[..i]) == FieldOffsets[i]
    {
      RunningSum(i);
    }
    RunningSum(16);
    SumOfPrefix(FieldWidths, 16);
    assert FieldWidths[..17] == FieldWidths;
  }

  /** The reader's struct declares the same widths, so it finds every field
      at the offset the writer used and also spans exactly one block. */
  lemma ReaderLayout()
    ensures TarFileHeaderWidths == FieldWidths && SumOf(TarFileHeaderWidths) == BlockSize
    ensures forall i :: 0 <= i < |FieldOffsets| ==> SumOf(TarFileHeaderWidths[..i]) == FieldOffsets[i]
  {
    DeclaredLayout();
  }

  /** `n` NUL bytes. */
  function Zeros(n: nat): (z: seq<byte>)
    ensures |z| == n
    ensures forall i :: 0 <= i < n ==> z[i] == 0
  {
    seq(n, _ => 0)
  }

  /** The comparison `memcmp(block, zeroBlock, 512) == 0`. */
  predicate IsZeroBlock(block: seq<byte>)
  {
    forall i :: 0 <= i < |block| ==> block[i] == 0
  }

  /** Reading a field: the `width` bytes starting at `offset`. */
  function Slice(h: seq<byte>, offset: nat, width: nat): (r: seq<byte>)
    requires offset + width <= |h|
    ensures |r| == width
    ensures forall i :: 0 <= i < width ==> r[i] == h[offset + i]
  {
    h[offset..offset + width]
  }

  /** Writing a field: `bytes` replace the bytes at `offset`, all others stay. */
  function Overwrite(h: seq<byte>, offset: nat, bytes: seq<byte>): (r: seq<byte>)
    requires offset + |bytes| <= |h|
    ensures |r| == |h|
  {
    h[..offset] + bytes + h[offset + |bytes|..]
  }

  /** The bytes of an overwritten buffer, one by one. */
  lemma OverwriteAt(h: seq<byte>, offset: nat, bytes: seq<byte>)
    requires offset + |bytes| <= |h|
    ensures forall i :: 0 <= i < |h| ==>
      Overwrite(h, offset, bytes)[i] == if offset <= i < offset + |bytes| then bytes[i - offset] else h[i]
  {
  }

  /** `memset`, `memcpy`, `strcpy` and `sprintf` into a header buffer: copies
      `bytes` into the buffer at `offset`, one byte at a time. */
  method Store(h: array<byte>, offset: nat, bytes: seq<byte>)
    requires offset + |bytes| <= h.Length
    modifies h
    ensures h[..] == Overwrite(old(h[..]), offset, bytes)
  {
    var i := 0;
    while i < |bytes|
      invariant 0 <= i <= |bytes|
      invariant forall j :: 0 <= j < h.Length ==> h[j] == if offset <= j < offset + i then bytes[j - offset] else old(h[j])
    {
      h[offset + i] := bytes[i];
      i := i + 1;
    }
    OverwriteAt(old(h[..]), offset, bytes);
    assert h[..] == Overwrite(old(h[..]), offset, bytes);
  }

  lemma SliceOfOverwrite(h: seq<byte>, offset: nat, bytes: seq<byte>)
    requires offset + |bytes| <= |h|
    ensures Slice(Overwrite(h, offset, bytes), offset, |bytes|) == bytes
  {
    OverwriteAt(h, offset, bytes);
    assert Slice(Overwrite(h, offset, bytes), offset, |bytes|) == bytes;
  }

  lemma SliceBesideOverwrite(h: seq<byte>, offset: nat, bytes: seq<byte>, o: nat, w: nat)
    requires offset + |bytes| <= |h| && o + w <= |h|
    requires o + w <= offset || offset + |bytes| <= o
    ensures Slice(Overwrite(h, offset, bytes), o, w) == Slice(h, o, w)
  {
    OverwriteAt(h, offset, bytes);
    assert Slice(Overwrite(h, offset, bytes), o, w) == Slice(h, o, w);
  }

  /** `strlen`: the number of bytes before the first NUL, or all of them. */
  function CStrLen(s: seq<byte>): (n: nat)
    ensures n <= |s|
    ensures forall i :: 0 <= i < n ==> s[i] != 0
    ensures n < |s| ==> s[n] == 0
  {
    if |s| == 0 || s[0] == 0 then 0 else 1 + CStrLen(s[1..])
  }

  /** The C string stored at the start of `s`: its bytes before the first NUL. */
  function CStr(s: seq<byte>): (r: seq<byte>)
  {
    s[..CStrLen(s)]
  }

  /** A string without NUL followed by a terminator reads back as itself,
      whatever follows the terminator. */
  lemma {:induction false} CStrOfTerminated(s: seq<byte>, rest: seq<byte>)
    requires forall i :: 0 <= i < |s| ==> s[i] != 0
    ensures CStrLen(s + [0] + rest) == |s|
    ensures CStr(s + [0] + rest) == s
  {
    if |s| > 0 {
      assert (s + [0] + rest)[1..] == s[1..] + [0] + rest;
      CStrOfTerminated(s[1..], rest);
    }
  }

  /** The unsigned byte sum: each byte counted as 0..255. */
  function UnsignedSum(s: seq<byte>): nat
  {
    if |s| == 0 then 0 else UnsignedSum(s[..|s| - 1]) + s[|s| - 1]
  }

  /** A `char` read through `signed char*`: bytes from 0x80 up count as b - 256. */
  function SignedByte(b: byte): int
  {
    if b >= 128 then b - 256 else b
  }

  /** The signed byte sum. */
  function SignedSum(s: seq<byte>): int
  {
    if |s| == 0 then 0 else SignedSum(s[..|s| - 1]) + SignedByte(s[|s| - 1])
  }

  /** Eight ASCII spaces: how the checksum field counts while the sum is taken. */
  const ChecksumBlank: seq<byte> := [32, 32, 32, 32, 32, 32, 32, 32]

  /** The header with its checksum field replaced by eight spaces. */
  function Blanked(h: seq<byte>): (r: seq<byte>)
    requires |h| == BlockSize
    ensures |r| == BlockSize
  {
    Overwrite(h, ChecksumOffset, ChecksumBlank)
  }

  /** Whatever the checksum field holds, the blanked header is the same. */
  lemma BlankedIgnoresChecksum(h: seq<byte>, field: seq<byte>)
    requires |h| == BlockSize && |field| <= ChecksumWidth
    ensures Blanked(Overwrite(h, ChecksumOffset, field)) == Blanked(h)
  {
    var o := Overwrite(h, ChecksumOffset, field);
    OverwriteAt(h, ChecksumOffset, field);
    OverwriteAt(h, ChecksumOffset, ChecksumBlank);
    OverwriteAt(o, ChecksumOffset, ChecksumBlank);
    assert Blanked(o) == Blanked(h);
  }

  lemma UnsignedSumPrefix(s: seq<byte>, i: nat)
    requires i < |s|
    ensures UnsignedSum(s[..i + 1]) == UnsignedSum(s[..i]) + s[i]
  {
    assert s[..i + 1][..i] == s[..i];
  }

  lemma SignedSumPrefix(s: seq<byte>, i: nat)
    requires i < |s|
    ensures SignedSum(s[..i + 1]) == SignedSum(s[..i]) + SignedByte(s[i])
  {
    assert s[..i + 1][..i] == s[..i];
  }

  /** No byte is above 255, so a header sums to at most 512 * 255 = 130560. */
  lemma {:induction false} UnsignedSumBound(s: seq<byte>)
    ensures UnsignedSum(s) <= 255 * |s|
  {
    if |s| > 0 {
      UnsignedSumBound(s[..|s| - 1]);
    }
  }

  /** Changing one byte changes the unsigned sum by exactly the difference. */
  lemma {:induction false} UnsignedSumUpdate(s: seq<byte>, i: nat, b: byte)
    requires i < |s|
    ensures UnsignedSum(s[i := b]) == UnsignedSum(s) - s[i] + b
  {
    var n := |s| - 1;
    assert s[i := b][..n] == if i < n then s[..n][i := b] else s[..n];
    if i < n {
      UnsignedSumUpdate(s[..n], i, b);
    }
  }

  /** For a header of 7-bit bytes the signed and the unsigned sum coincide. */
  lemma {:induction false} SignedSumOfAscii(s: seq<byte>)
    requires forall i :: 0 <= i < |s| ==> s[i] < 128
    ensures SignedSum(s) == UnsignedSum(s)
  {
    if |s| > 0 {
      SignedSumOfAscii(s[..|s| - 1]);
    }
  }

  /** Corruption of a single byte outside the checksum field changes the sum
      the checksum is computed from. */
  lemma ChecksumSumDetectsByteChange(h: seq<byte>, i: nat, b: byte)
    requires |h| == BlockSize && i < BlockSize && b != h[i]
    requires i < ChecksumOffset || ChecksumOffset + ChecksumWidth <= i
    ensures UnsignedSum(Blanked(h[i := b])) != UnsignedSum(Blanked(h))
  {
    assert Blanked(h[i := b]) == Blanked(h)[i := b];
    UnsignedSumUpdate(Blanked(h), i, b);
  }

  /** The number of NUL bytes `_endRecord` and the reader's `paddingBytes`
      put after `len` content bytes: `(512 - len % 512) % 512`. */
  function Padding(len: nat): (p: nat)
    ensures p < BlockSize
    ensures (len + p) % BlockSize == 0
  {
    (BlockSize - len % BlockSize) % BlockSize
  }

  /** A header block, `len` content bytes and their padding fill whole blocks,
      and appending them to a block-aligned stream keeps it aligned. */
  lemma EntryIsAligned(before: nat, len: nat)
    ensures (BlockSize + len + Padding(len)) % BlockSize == 0
    ensures (before + BlockSize + len + Padding(len)) % BlockSize == before % BlockSize
  {
    var q := (len + Padding(len)) / BlockSize;
    assert len + Padding(len) == BlockSize * q;
    assert BlockSize + len + Padding(len) == BlockSize * (q + 1);
    assert before + BlockSize + len + Padding(len) == before + BlockSize * (q + 1);
  }

  /** No shorter padding reaches a block boundary. */
  lemma PaddingIsLeast(len: nat, k: nat)
    requires k < Padding(len)
    ensures (len + k) % BlockSize != 0
  {
    var r := len % BlockSize;
    assert len == BlockSize * (len / BlockSize) + r;
    assert r != 0;
    assert Padding(len) == BlockSize - r;
    assert 0 < r + k < BlockSize;
    assert len + k == BlockSize * (len / BlockSize) + (r + k);
  }
}
