# Verified model of a small C++ tar codec

This project models the core of a tar codec written in C++. It has two halves.

- **Writer.** The class `LibTar::Tar` (`TarClass.h`, `TarClass.cpp`) writes ustar headers in the layout of POSIX.1 `pax`. It fills one 512-byte header buffer in place with `_init`, `_filename`, `_size` and `_checksum`. `put` appends the header, the content and zero padding to its output stream. `finish` appends two zero blocks.
- **Reader.** `readTar.cpp` holds the reader. `decodeTarOctal` decodes octal fields. The header record `TARFileHeader` has `isUSTAR`, `getFileSize` and `checkChecksum`. The block loop of `readTar` stops at the first zero block. It assembles names from the prefix and name fields, and dispatches on the type flag: `'0'`/NUL, `'5'`, GNU `'L'`, or anything else. It skips file content and padding, and carries the long-name flag from one block to the next.

Modules, one per file:

- `TarHeader` (`tar_header.dfy`) covers the header layout.
  - It declares the 17 fields as offset and width constants, and proves that both C++ declarations of the record agree and fill exactly 512 bytes.
  - It has slice read and write helpers over `seq<byte>`, and the method `Store`, which writes into a header `array`.
  - It defines C strings, the unsigned and signed byte sums, and the padding to a block boundary.
- `Octal` (`octal.dfy`) covers the digits `sprintf("%0<n>o")` prints and the value `decodeTarOctal` computes, with their round trip.
- `TarWriter` (`tar_writer.dfy`) specifies every header byte as a function, and holds the class `Tar`. The class has fields `finished` and `out`: the stream is a growing `seq<byte>`. Its methods fill a header `array` in place and append to `out`.
- `TarReader` (`tar_reader.dfy`) holds these methods:
  - `DecodeTarOctal`, with the source's two loops;
  - `CheckChecksum`, which blanks and restores the header array in place;
  - `ReadTar`, the block loop as a position walk over the decompressed archive.

  Each method is proved against a specification function (`TarOctal`, `ChecksumMatches`, `StepAt`/`ReadEntries`).
- `TarRoundTrip` (`round_trip.dfy`) proves that what `put` and `finish` write, the reader reads back. This holds header by header, entry by entry, and for a whole archive. A session method writes files, finishes, and reads the archive back.

Bytes are `int`s in `0..255`. The `uint64_t` arithmetic of `decodeTarOctal` is reduced modulo 2^64. The clock (`time(NULL)`) is a parameter `clock`. `TarClass.cpp` is written for MSVC (it silences MSVC warning 4996), where `unsigned long` has 32 bits. So the writer's casts to `unsigned long` of the clock and of the length are modelled as reduction modulo 2^32 (`TarWriter.ULong`). The input of `readTar` is the archive after decompression, as a `seq<byte>`.

## Model

| member | source | states |
|---|---|---|
| TarHeader.DeclaredLayout | TarClass.h:14-33 | the 17 field widths of `PosixTarHeader` sum to 512, and each field's offset is the sum of the widths before it (name 0, mode 100, … prefix 345, pad 500) |
| TarHeader.ReaderLayout | readTar.cpp:50-68 | `TARFileHeader` declares the same widths in the same order, so reader and writer agree on every offset and both span 512 bytes |
| TarHeader.Store | TarClass.cpp:19-24 | writing bytes into the header buffer at an offset changes exactly that range and leaves every other byte as it was |
| TarHeader.OverwriteAt | TarClass.cpp:19-24 | byte by byte: inside the written range the new bytes, outside it the old ones |
| TarHeader.BlankedIgnoresChecksum | TarClass.cpp:29-37 | the checksum sum does not depend on what the checksum field held before, so `_checksum` may run on a header whose field is already filled |
| TarHeader.CStrLen | readTar.cpp:157-159 | `strlen`: no NUL before the result, and a NUL at the result unless the input runs out |
| TarHeader.CStrOfTerminated | TarClass.cpp:53 | a NUL-free string followed by NUL reads back as itself, whatever follows |
| TarHeader.UnsignedSumBound | TarClass.cpp:29-39 | a byte sum over n bytes is at most 255·n, so a header sum is at most 130560 < 8^6 and fits six octal digits |
| TarHeader.SignedSumOfAscii | readTar.cpp:94-99 | on bytes below 0x80 the signed and unsigned sums coincide |
| TarHeader.ChecksumSumDetectsByteChange | TarClass.cpp:27-40 | changing any one byte outside the checksum field changes the checksum sum |
| TarHeader.Padding | readTar.cpp:186 | `(512 - len % 512) % 512` is below 512 and brings `len` to a multiple of 512 |
| TarHeader.PaddingIsLeast | TarClass.cpp:56-64 | no smaller count of NULs reaches a block boundary, so `_endRecord` writes exactly `Padding(len)` bytes |
| TarHeader.EntryIsAligned | TarClass.cpp:114-116 | header + len + padding is a whole number of blocks, and appending it keeps a stream's position modulo 512 |
| Octal.Digits | TarClass.cpp:44 | `%0<n>o` prints exactly n octal digit characters for a value below 8^n |
| Octal.OctalField | TarClass.cpp:22-23 | a `sprintf` field is width−1 octal digits and a NUL |
| Octal.FirstTerminator | readTar.cpp:37-42 | the first pointer loop leaves `currentPtr` before the lowest NUL or space: no terminator before it, a terminator at it |
| Octal.ValueOfFirst | readTar.cpp:43-46 | the leading digit of the scanned run carries weight 8^(k−1), the trailing one weight 1 |
| Octal.ValueOfDigits | readTar.cpp:43-46 | decoding the digits `sprintf` printed gives back the printed number |
| Octal.TarOctalIgnoresTail | readTar.cpp:35-42 | bytes after the first NUL or space do not affect the decoded value |
| Octal.OctalFieldRoundTrip | readTar.cpp:31-48 | a field `sprintf` wrote with at most 21 digits decodes back to its value, whatever the decoder reads past the field |
| TarWriter.InitialHeaderFields | TarClass.cpp:17-25 | `_init` leaves magic "ustar\0", version " \0", mode "0000644\0", the clock in 11 octal digits + NUL, group "users\0", and zeros everywhere else |
| TarWriter.ULong | TarClass.cpp:22 | `static_cast<unsigned long>` keeps a value below 2^32 unchanged and changes every larger one; every result prints in 11 octal digits |
| TarWriter.Tar.InitHeader | TarClass.cpp:17-25 | the buffer afterwards is exactly `InitialHeader` of the clock cast to `unsigned long` |
| TarWriter.HeaderChecksum | TarClass.cpp:29-37 | the sum taken with the checksum bytes as spaces is at most 512·255 and below 8^6 |
| TarWriter.Tar.SumHeader | TarClass.cpp:29-37 | the three accumulation loops compute the unsigned sum of the header with its checksum field counted as eight spaces, and change nothing |
| TarWriter.Tar.WriteChecksum | TarClass.cpp:27-40 | six octal digits of that sum and a NUL go into the checksum field; the eighth byte and the rest of the header are untouched |
| TarWriter.Tar.WriteSize | TarClass.cpp:42-45 | the size field afterwards holds 11 octal digits and a NUL; nothing else changes |
| TarWriter.StoredNameIsPrefix | TarClass.cpp:47-54 | the name field gets at most 99 NUL-free bytes of the name: all of a valid name, and the first 99 bytes of a too-long one |
| TarWriter.Tar.WriteFilename | TarClass.cpp:47-54 | flags exactly the empty names and those of 100 bytes or more; either way stores the `snprintf` bytes and a NUL, nothing else |
| TarWriter.UnsummedHeaderFields | TarClass.cpp:108-112 | before `_checksum`: the stored name + NUL, type flag NUL, 11-digit size + NUL, the `_init` fields, and zeros elsewhere (prefix included) |
| TarWriter.HeaderForFields | TarClass.cpp:106-113 | the header `put` writes has those fields plus a checksum field holding the unsigned sum of that same header |
| TarWriter.Tar.FillHeader | TarClass.cpp:108-113 | the buffer ends as `HeaderFor` of the name, `len` cast to `unsigned long` and the clock cast to `unsigned long`, and the name diagnostic is reported |
| TarWriter.Tar.EndRecord | TarClass.cpp:56-64 | appends exactly `Padding(len)` NUL bytes and nothing else |
| TarWriter.Tar.Put | TarClass.cpp:106-117 | appends the header (its size field holding `len` cast to `unsigned long`), the first `len` content bytes verbatim, then the padding for `len`, and reports whether the name was valid; any `len` is accepted |
| TarWriter.AppendKeepsAlignment | TarClass.cpp:114-116 | appending one entry leaves the stream's length unchanged modulo 512, so a 512-aligned stream stays aligned |
| TarWriter.Tar.PutString | TarClass.cpp:97-100 | the `std::string` overload appends the entry for all of the string's bytes |
| TarWriter.Tar.PutCString | TarClass.cpp:101-104 | the `const char*` overload appends the entry for the bytes before the first NUL |
| TarWriter.Tar.PutFile | TarClass.cpp:131-147 | `putFile` appends the entry for the file's bytes under `nameInArchive` |
| TarWriter.Tar.Finish | TarClass.cpp:86-95 | sets `finished` and appends 1024 zero bytes, whatever the previous state |
| TarWriter.Tar.constructor | TarClass.cpp:67-75 | the writer starts unfinished, bound to the given stream |
| TarWriter.Tar.Dispose | TarClass.cpp:77-83 | the destructor warns exactly when `finish` never ran |
| TarReader.DecodeTarOctal | readTar.cpp:31-48 | the two pointer loops return the value of the bytes before the first NUL/space in `data[0..size]`, modulo 2^64 |
| TarReader.FileSize | readTar.cpp:80-82 | `getFileSize` is below 2^64 |
| TarReader.FileSizeOfTerminatedField | readTar.cpp:80-82 | when the size field holds its own terminator, the scanned mtime byte does not matter |
| TarReader.CheckChecksum | readTar.cpp:88-105 | leaves all 512 bytes as they were; true exactly when the stored number equals the unsigned sum or the signed sum (as `uint64_t`), both over the blanked header |
| TarReader.ChecksumIgnoresBeyond | readTar.cpp:103 | once the copied field holds a terminator, the stack bytes the decoder reads past the copy do not matter |
| TarReader.EntryNameAssembled | readTar.cpp:157-162 | the reported name is the name field up to its NUL, behind `prefix + "/"` when the prefix field is not empty |
| TarReader.StepAt | readTar.cpp:164-201 | each step that goes on advances by a positive multiple of 512: `512 + size + padding` for a file, 512 for `'5'`, `'L'` and other types |
| TarReader.StepKeepsAlignment | readTar.cpp:184-188 | a walk from a block boundary stays on block boundaries |
| TarReader.ReadFileEntry | readTar.cpp:164-190 | the file branch takes exactly the step `StepAt` describes: it reports (name, size) and skips content and padding; after `'L'` the name comes from this block and the size from the next, and the flag is cleared; it stops when the stream runs out |
| TarReader.ReadEntry | readTar.cpp:138-201 | one turn of the loop takes exactly the step `StepAt` describes, stopping at the zero block or when the stream runs out and otherwise moving past what it consumed |
| TarReader.StepStopsEnds | readTar.cpp:137-140 | a turn that runs out of stream ends the walk with that turn's report, and without the end marker |
| TarReader.ReadTar | readTar.cpp:132-202 | the loop reports exactly `ReadEntries(archive, false)` |
| TarReader.EndIsFinal | readTar.cpp:141-145 | once the walk meets a zero block, nothing after it changes the result |
| TarReader.ZeroBlockEnds | readTar.cpp:141-145 | a zero block ends the walk with no report, whatever follows |
| TarReader.StepAtExtends | readTar.cpp:138-140 | a step that does not run out of input reads only the bytes it consumes |
| TarReader.LongNameRecovered | readTar.cpp:164-197 | an `'L'` entry whose name block holds 1..156 bytes, followed by the real header, is reported as one file under that name with the real header's size |
| TarRoundTrip.InitialHeaderIsUstar | readTar.cpp:73-75 | every header `_init` prepares passes `isUSTAR` |
| TarRoundTrip.WrittenHeaderIsUstar | TarClass.cpp:20 | every header `put` writes passes `isUSTAR`, is not a zero block, and has type flag NUL |
| TarRoundTrip.WrittenSizeReadsBack | TarClass.cpp:44 | `getFileSize` on a written header gives back the size `_size` wrote |
| TarRoundTrip.WrittenNameReadsBack | TarClass.cpp:53 | the loop reports a written header under the name `_filename` stored |
| TarRoundTrip.WrittenHeaderPassesChecksum | TarClass.cpp:39 | every header `put` writes passes `checkChecksum`, whatever bytes lie past the copied field |
| TarRoundTrip.WrittenEntryStep | TarClass.cpp:106-117 | the loop's step over any entry `put` appended reports one file under the stored name with the size the size field holds, and skips that size and its padding |
| TarRoundTrip.EntryRoundTrip | TarClass.cpp:106-117 | one entry `put` appends for content below 4 GiB is read back as one file (stored name, content length), and the walk resumes right after it |
| TarRoundTrip.LargeEntryMisread | TarClass.cpp:112 | for content of 4 GiB or more the size field holds the length modulo 2^32: the loop reports that wrong size and resumes inside the entry's content |
| TarRoundTrip.BodyAppend | TarClass.cpp:114-116 | writing one more file extends the stream by exactly its entry |
| TarRoundTrip.BodyReadsBack | TarClass.cpp:106-117 | the entries `put` appends for a list of files, each below 4 GiB, are read back as one report per file, in order, and the walk goes on with whatever follows them |
| TarRoundTrip.PutAll | TarClass.cpp:106-117 | `put`ting each file in turn appends exactly the entries of the list |
| TarRoundTrip.ArchiveRoundTrip | readTar.cpp:137-145 | entries from `put` (each file below 4 GiB) closed by `finish` read back as exactly the files written, in order, ending at the trailer |
| TarRoundTrip.WriteThenRead | TarClass.cpp:86-95 | a write–finish–read session over files below 4 GiB returns every file with its stored name and size, finds the end, and raises no unfinished warning |

## Left out

- `main.cpp` is a demo driver with fixed paths, and it calls a member that `Tar` does not declare. It is not part of this model.
- The command-line check, `ifstream`, the Boost filtering stream, gzip and the file-suffix dispatch of `readTar` (readTar.cpp:110-131, 204) are I/O. The reader's input is the decompressed archive as bytes.
- The `cout`/`cerr` messages are not printed. The reader's messages become `Report` values and the `foundEnd` flag. The `THROW` of `_filename` becomes the returned flag `nameValid`. The destructor's `std::cerr` warning (TarClass.cpp:81) becomes the returned flag `warnUnfinished`.
- `time(NULL)` is the parameter `clock`.
- TarWriter.Tar.PutFile: `fopen`/`fseek`/`ftell`/`fread` are left out. The method takes the file's bytes. An unopenable file (the source prints and carries on with a null `FILE*`) is not modelled. Nor is a file of 2 GiB or more, whose length does not fit the `long int` that `ftell` returns on MSVC.
- TarWriter.Tar.WriteFilename: a null `filename` is not modelled, because byte sequences cannot be null.
- TarWriter.ULong: the model takes `unsigned long` as 32 bits, as on MSVC. On a platform with a 64-bit `unsigned long`, the cast changes nothing, and a length or clock of 8^11 or more would make `%011llo`/`%011lo` write past its field. That platform is not modelled.
- TarRoundTrip.ArchiveRoundTrip is stated for files below 4 GiB. LargeEntryMisread shows what the reader does with a larger one.
- TarRoundTrip.BodyReadsBack is stated for files below 4 GiB, for the same reason.
- TarRoundTrip.WriteThenRead is stated for files below 4 GiB, for the same reason.
- TarReader.DecodeTarOctal adds with unbounded integers and reduces modulo 2^64 at the end. This returns the same number as the source's wrapping `uint64_t` steps, but the individual wrapped steps are not modelled.
- TarReader.CheckChecksum: the source decodes its 8-byte copy with the default size 12, so it reads five more bytes of the stack. Those five bytes are the parameter `beyond`. ChecksumIgnoresBeyond shows that they do not matter once the field holds a terminator.
- TarReader.ReadTar departs from the source when the input runs out.
  - With fewer than 512 bytes left for a header or an `'L'` metadata block, the source processes its partly filled, uninitialised header buffer once more.
  - After padding is ignored at end of file, it also reads one more empty header.
  - The model ends the walk at that point and reports nothing for those bytes.
  - A file whose content or padding is cut short is still reported, as in the source, and the walk then ends.
- TarReader.ReadFileEntry: after an `'L'` entry, the name is `strlen` of the whole block. The model stops at the end of the 512-byte block. The source runs on past the struct when the block holds no NUL.
- TarReader.LongNameRecovered is stated for names of at most 156 bytes only. A longer GNU name puts a non-NUL byte at offset 156 of its data block. The source, and the model with it, then takes that block as an entry of another type, unless that byte is `'0'`. In that case the block counts as a regular file and the name is still recovered with `strlen`.
- The heap buffer `fileData` is not modelled. The model only advances past the content.
- `checkChecksum` and `isUSTAR` are modelled, but the loop calls neither, because their `assert`s are commented out in the source (readTar.cpp:149, 152).
- The code raises no error for the following conditions, and the model follows the code: calling `put` or `finish` after `finish`, a second `finish` (it appends another 1024 zero bytes), non-octal bytes in a numeric field (`ASCII_TO_NUMBER` is `num - 48` unchecked), and a bad checksum while reading.
- The mismatch between the constructor declared in `TarClass.h` and the one defined in `TarClass.cpp` is a C++ detail and is not modelled.
