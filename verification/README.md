# Verification of the ZIP codec and the compose builder

Two parts of this repository are modelled in Dafny and proved correct:

* **`pkg/util/zip`**, a writer that emits an archive step by step and a reader that finds and
  parses it from the end, after the PKWARE .ZIP File Format Specification (sections 4.3.7,
  4.3.9, 4.3.12, 4.3.14 to 4.3.16, 4.4.6 and 4.5.3 of APPNOTE.TXT). The main results say that
  every run of writer calls is read back as what was asked for, headers and contents alike,
  with any number of entries, past 4 GiB and behind a prefix, under the conditions listed
  below; and, for archives of any origin, what the reader makes of each record and each kind
  of damage.
* **Placeholder substitution and the docker-compose builder** (`pkg/util/common.go`,
  `pkg/export/docker-compose.go`): when rewriting a string once per placeholder is
  substitution, when rendering a map from itself is independent of the iteration order, and
  that every mounted volume exists.

## How it is built

Code that works in place is a class or a method with loops, proved to compute a function of
its inputs or its old state; the properties are then lemmas about those functions.

| files | content |
|---|---|
| `Wrappers`, `Bytes`, `Clock`, `Calendar`, `Utf8`, `Codecs` | integers with their wrap-around, byte buffers, times, that their dates are the calendar's, UTF-8, streaming compressors |
| `Crc`, `CrcPolynomial` | the CRC-32 register; that it computes a polynomial remainder |
| `ZipFormat`, `ZipRecords` | constants, headers and MS-DOS times; the byte layout of every record |
| `WriterModel`, `Writer` | what each writer operation does to an abstract state; the classes that do it |
| `ReaderModel`, `Reader` | what the reader computes from the bytes of a file; the methods and classes that do it |
| `ExtraFields`, `HeaderCodec`, `HeaderMeaning`, `EndCodec` | round trips of extra fields, headers, times, encodings and the end of the directory |
| `ForeignHeaders`, `ForeignEnds`, `ForeignContents` | what the reader makes of archives from other tools, and of damaged ones |
| `Layout`, `Offsets`, `ArchiveRoundTrip`, `ClientJournal`, `EndToEnd` | invariants and round trips over whole runs; what a client can note of its calls, and gets back |
| `ParserTotality`, `Contents` | what holds of the reader on every input; reading contents |
| `LateCalls` | calls after Close |
| `Variables`, `Environment` | substitution and rendering |
| `Compose`, `ComposeClosure`, `ComposeMounts`, `ComposeNames` | the compose builder, its volumes, mounts and names |

A run is a list of `Call`s folded over the abstract state (`Layout.Run`); `Writer.Writer.State`
ties the class to that state, and each method's contract names the step it takes. `ReadBack` is
the file the reader lists for a written header: the header itself, with the zip64 record in its
extra field, the deprecated 32-bit sizes saturated, and time and encoding mark derived anew
(`ModifiedRoundTrip` and `EncodingRoundTrip` say what those are worth).

## Where the code needs something of its callers

The round trips hold exactly under the conditions named, or assume them; the lemmas show why:

* every name, entry comment and extra field fits 16 bits, with the timestamp and the 28 bytes
  of a zip64 record (`HeaderRoundTripIff`, `ArchiveRoundTrip`, both directions): nothing checks
  the comment, the record is appended after the check of the extra field, and CreateHeader
  enters a header in the directory before it refuses it (`RefusedNeverFits`,
  `UnfitHeaderSpoils`, pkg/util/zip/writer.go:381-384);
* the first zip64 record of an entry that needs one tells the truth (`HeaderRoundTripIff`,
  `ArchiveRoundTrip`, both directions; `ToldByCaller`, `ForeignZip64Wins`, `SwallowedZip64`);
* an archive comment without a later end record (`EndRoundTrip`, `ArchiveRoundTrip`, both
  directions; `NestedEndHides`);
* no misleading locator at the end of a directory of exactly 65535 bytes (`EndRoundTrip`, both
  directions; `FalseLocatorFails`), because the reader compares the directory size with 0xffff
  where the format says 0xffffffff (pkg/util/zip/reader.go:537);
* for the modification time, that the written timestamp is the last record with a time: so it
  is if the caller's extra field consists of complete records (`ModifiedRoundTrip`,
  `SwallowedStamp`);
* positions in [0, 2^63): `ProperRun` and `InRange`.

Other places where comments promise more than the code does: volume names are not unique
(pkg/export/docker-compose.go:324; `VolumeNamesUnique` says when they are, `VolumeNamesClash`
gives two components that share one); service names are unique only if suffixes are not drawn
twice (pkg/export/docker-compose.go:270; `NamesDistinct`, `NameDrawnTwice`); CreateHeader and
SetComment are accepted after a successful Close, although SetComment says it can only be
called before (pkg/util/zip/writer.go:79; `LateCallsLost`, `LateHeaderAccepted`).

## Model

| member | source | states |
|---|---|---|
| `EndToEnd.ArchiveAsAsked` | pkg/util/zip/writer.go:269-388 | for every run of CreateHeader, Write, SetOffset, SetComment and RegisterCompressor calls that is Readable (the conditions listed above), and the Close after it, the reader finds exactly one file per entry asked for, in call order, and the last comment accepted; each file has the caller's name, comment, attributes and method, the flag word, versions, MS-DOS date and extra field that follow from the caller's, and the CRC-32, length and compressed length of all the bytes written to it; what was asked for is noted from the calls and the registry alone (Log) |
| `ClientJournal.RunFollows` | pkg/util/zip/writer.go:269-388 | every run enters exactly the headers that are not passed twice in a row and have a known method, prepared, in order, feeds each file all the writes that follow it, compresses them with the compressor in force at the time, the writer's own before the package's, and keeps the last comment that is not too long |
| `ClientJournal.CreateOutcome` | pkg/util/zip/writer.go:269-388 | which of the four errors CreateHeader gives, what it enters in the directory in each case, and that nothing is written unless it succeeds |
| `EndToEnd.HeadersAfterClose` | pkg/util/zip/writer.go:115-145 | Close leaves in the client's header objects what the reader will list: the zip64 record is appended to the extra field of an entry that needs one, and nothing else changes |
| `EndToEnd.UnfitHeaderSpoils` | pkg/util/zip/writer.go:381-384 | one header in the log whose name, extra field (with the timestamp) or comment does not fit 16 bits is enough: the archive is not read back as written |
| `ClientJournal.CommentOutcome` | pkg/util/zip/writer.go:80-86 | a comment is refused exactly if it is longer than 65535 bytes |
| `EndToEnd.ContentAsAsked` | pkg/util/zip/reader.go:194-263 | for every run within the position range, and every entry whose header fits, opening the file the archive lists gives the bytes passed to Write, for any compressor and a decompressor that undoes it, and reading them in any pieces ends in a plain EOF; for a directory exactly if its CRC was left zero |
| `ArchiveRoundTrip.ArchiveRoundTrip` | pkg/util/zip/reader.go:116-154 | for every run whose directory is clear, the reader's init on prefix + output succeeds with the writer's final headers and positions (ReadBack of each) and the comment, exactly if the comment hides no later end record and every entry fits its length fields and had its zip64 values told |
| `EndToEnd.OneFileArchive` | pkg/util/zip/writer.go:269-388 | a stored file of less than 4 GiB with an ordinary header meets every condition of the results above: the archive reads back as one file listing just what was asked for |
| `ArchiveRoundTrip.ConcludedRoundTrip` | pkg/util/zip/writer.go:100-220 | the same for Close on any laid-out state: both directions |
| `ArchiveRoundTrip.ClearForFree` | pkg/util/zip/reader.go:603-615 | a comment shorter than ten bytes hides no end record, and a directory not exactly 65535 bytes long needs no care |
| `ArchiveRoundTrip.DirectoryRoundTrip` | pkg/util/zip/writer.go:104-158 | reading any number of listable central headers followed by anything gives their files and then whatever that rest gives |
| `ArchiveRoundTrip.AllListable` | pkg/util/zip/reader.go:137-147 | conversely, a directory whose files are all read back has only listable entries |
| `ArchiveRoundTrip.RefusedNeverFits` | pkg/util/zip/writer.go:390-397 | a header CreateHeader refused never fits, so its entry is not listable |
| `ArchiveRoundTrip.TrailerStops` | pkg/util/zip/reader.go:137-147 | the header loop stops in front of the zip64 or plain trailer, whatever follows it, with one of the two errors init tolerates |
| `Layout.RunLaidOut` | pkg/util/zip/writer.go:269-388 | invariant of every run: the output is the concatenation of the entries' segments in creation order, every recorded offset is base + the length of the segments before it, only the last entry can be open, and headers agree with what was written |
| `Layout.NextKeepsLayout` | pkg/util/zip/writer.go:61-70 | one call of any kind keeps that invariant, and the counter in step with the output: position minus bytes written stays the same unless SetOffset comes before the first byte |
| `Layout.SegmentAt` | pkg/util/zip/writer.go:340-344 | segment i starts where segment i-1 ends and lies in the output at the recorded position |
| `Offsets.SetOffsetTransparent` | pkg/util/zip/writer.go:61-70 | an archive written after SetOffset(n) and put behind any n bytes reads as the same files in the same order, n bytes further on, with the same comment; only zip64 records and deprecated sizes can tell, and the time if the extra field is ill formed |
| `Offsets.RunShifted` | pkg/util/zip/writer.go:61-70 | a run after SetOffset(n) is the run without it with every position moved by n (modulo 2^64) and the same output |
| `Offsets.MovedFile` | pkg/util/zip/writer.go:115-145 | what is listed of a moved entry is the same with its offset moved by n, even if only the move makes it a zip64 entry |
| `ForeignHeaders.ParseComplete` | pkg/util/zip/reader.go:339-382 | for every complete central header, whoever wrote it: the first zip64 record of its extra field supplies exactly those of the two sizes and the offset whose 32-bit fields are saturated, one behind the other, the others stay, and the header is refused exactly if that record is too short for them; without such a record, exactly if the compressed size or the offset is saturated |
| `ForeignHeaders.ParsedFields` | pkg/util/zip/reader.go:293-315 | every other field of such a header is read from its place in the record, the strings in the order of name, extra field and comment |
| `ForeignHeaders.Incomplete` | pkg/util/zip/reader.go:287-315 | what every other byte string is refused with |
| `ForeignHeaders.OffsetAlone` | pkg/util/zip/reader.go:362-382 | a zip64 record that holds only the offset, for a small file behind the first 4 GiB |
| `ForeignHeaders.ParsedEncoding` | pkg/util/zip/reader.go:321-337 | NonUTF8 is set exactly on names or comments that are not UTF-8, and on those that need UTF-8 and do not carry the flag |
| `ForeignHeaders.ParsedTime` | pkg/util/zip/reader.go:422-438 | which instant and zone the time has, from the time found in the extra field and the MS-DOS date |
| `ForeignHeaders.NearestQuarter` | pkg/util/zip/struct.go:197-208 | the zone is the nearest quarter of an hour, or zero if that is out of range |
| `ForeignHeaders.NtfsStamp` | pkg/util/zip/reader.go:383-405 | behind any other attributes an NTFS record gives the time of its attribute 1 |
| `ForeignHeaders.NtfsTicks` | pkg/util/zip/reader.go:397-404 | in units of 100 nanoseconds from the start of 1601, negative ones included |
| `ForeignHeaders.UnixStamp` | pkg/util/zip/reader.go:406-412 | a Unix record gives the second of its two times |
| `ForeignHeaders.ExtendedStamp` | pkg/util/zip/reader.go:413-418 | an extended timestamp gives its time exactly if the lowest flag is set |
| `HeaderCodec.HeaderRoundTrip` | pkg/util/zip/writer.go:104-158 | parsing a written central header gives back the header, both 64-bit sizes and the offset, zip64 or not, and consumes exactly its record, if it is Recoverable |
| `HeaderCodec.HeaderRoundTripIff` | pkg/util/zip/reader.go:313-382 | for every header and any extra field of the caller, that round trip holds exactly if name, comment and extra field, the zip64 record included, fit their 16-bit length fields, and, where a zip64 record is needed, the first one in the listed extra field tells both sizes and a saturated offset |
| `ZipRecords.CentralFields` | pkg/util/zip/writer.go:105-145 | every field of a written central header stands at its place, saturated in a zip64 entry |
| `ZipRecords.LocalFields` | pkg/util/zip/writer.go:398-419 | every field of a written local header stands at its place, the CRC and both sizes zero |
| `ZipRecords.LocalStrings` | pkg/util/zip/writer.go:398-419 | behind them the name, and then the extra field |
| `ZipRecords.DescriptorFields` | pkg/util/zip/writer.go:491-513 | signature, CRC and both sizes of a written descriptor, in eight bytes each for a zip64 entry |
| `ZipRecords.Zip64EndFields` | pkg/util/zip/writer.go:170-182 | every field of a written zip64 end record |
| `ZipRecords.Zip64LocatorFields` | pkg/util/zip/writer.go:184-188 | and of its locator |
| `ZipRecords.EndFields` | pkg/util/zip/writer.go:202-211 | every field of a written end record |
| `HeaderCodec.ToldByCaller` | pkg/util/zip/reader.go:357-382 | for an extra field of complete records the last condition means: the caller brought no zip64 record, or its first one is true |
| `HeaderCodec.ParseByWalk` | pkg/util/zip/reader.go:287-455 | what a complete central record parses to is up to the walk over its extra field |
| `HeaderCodec.WalkListed` | pkg/util/zip/reader.go:339-382 | for every triple of 64-bit sizes and offset the walk over the listed extra field recovers the triple and leaves nothing needed, exactly if it was told |
| `HeaderCodec.ForeignZip64Wins` | pkg/util/zip/reader.go:357-382 | a zip64 record the caller brought along is the one that is read, for the offset too: the header reads back exactly if that record is true, is refused if it is too short, and else gets its values |
| `HeaderCodec.SwallowedZip64` | pkg/util/zip/reader.go:348-354 | an extra field that ends in the start of a 28-byte record swallows the written zip64 record: the header is refused |
| `HeaderCodec.FoundTimeListed` | pkg/util/zip/writer.go:122-130 | the zip64 record appended on Close does not disturb the modification time |
| `HeaderMeaning.ModifiedRoundTrip` | pkg/util/zip/writer.go:308-334 | for any extra field, the modification time reads back to the second exactly if the last record with a time says it or, without one, the zone makes up for the odd second of the MS-DOS date; behind a well-formed extra field that is: exactly if it fits 32 bits, and for a wall-clock year 1980 to 2107 the zone then comes back exactly if it is a quarter-hour zone between -12h and +14h |
| `HeaderMeaning.SeenTime` | pkg/util/zip/reader.go:422-438 | the time of the last record with one decides what is read, and without any the MS-DOS date |
| `HeaderMeaning.SwallowedStamp` | pkg/util/zip/reader.go:348-354 | an extra field that ends in the start of a nine-byte record swallows the timestamp: the MS-DOS date is read |
| `HeaderMeaning.StampFound` | pkg/util/zip/reader.go:413-418 | behind any well-formed extra field the written timestamp is the one that counts |
| `HeaderMeaning.ZoneIsQuarterHour` | pkg/util/zip/struct.go:197-208 | timeZone only ever answers with a quarter-hour zone in range |
| `HeaderMeaning.EncodingRoundTrip` | pkg/util/zip/reader.go:321-337 | the NonUTF8 read equals: name or comment is not UTF-8, or one of them requires UTF-8 and the caller had set NonUTF8 |
| `EndCodec.EndRoundTrip` | pkg/util/zip/writer.go:161-219 | for every record count, directory size and offset the reader recovers the true 64-bit values, clamped or not, exactly if no later end record hides in the comment and a 65535-byte directory does not end in a misleading locator |
| `EndCodec.TrailerForm` | pkg/util/zip/writer.go:161-219 | below 65535 entries and 2^32 - 1 bytes the trailer is a plain end record, and from there on the zip64 record, its locator and an end record with saturated fields: lengths and fields |
| `ForeignEnds.Zip64Counts` | pkg/util/zip/reader.go:536-545 | in an archive of another tool with a zip64 end record the 64-bit values count as soon as any one of the three fields of the end record is saturated, and otherwise its own |
| `ForeignEnds.EndBytesRead` | pkg/util/zip/reader.go:519-534 | of an end record the total count, size, position and comment are read, whatever its disk numbers and its count for this disk are |
| `ForeignEnds.Zip64BytesRead` | pkg/util/zip/reader.go:581-601 | likewise of a zip64 end record |
| `ForeignEnds.Zip64Refused` | pkg/util/zip/reader.go:581-589 | it is refused exactly if it runs past the end of the file (EOF) or has another signature |
| `ForeignEnds.LocatorTest` | pkg/util/zip/reader.go:556-577 | the 20 bytes in front of the end record are a locator of the first and only disk for some position, which is the result, or the result is -1 |
| `ForeignEnds.EndRefused` | pkg/util/zip/reader.go:497-551 | no end record, or a directory that would begin behind the file, is a format error |
| `EndCodec.SearchFindsEnd` | pkg/util/zip/reader.go:603-615 | the search stops at the true end record exactly if nothing behind its start passes for one |
| `EndCodec.ShortCommentUnambiguous` | pkg/util/zip/reader.go:603-615 | a comment of fewer than ten bytes never does |
| `EndCodec.NestedEndHides` | pkg/util/zip/reader.go:603-615 | a comment that ends in an end record of its own hides the true one: the reader takes the inner values |
| `EndCodec.LaterEndIsShorter` | pkg/util/zip/reader.go:497-534 | then whatever the reader accepts has a shorter comment than the one written |
| `EndCodec.FalseLocatorFails` | pkg/util/zip/reader.go:536-545 | a 65535-byte directory that ends in a locator pointing beyond the file makes the reader fail with EOF |
| `ExtraFields.WalkIsFold` | pkg/util/zip/reader.go:347-420 | on every byte string the walk is the fold over its complete records |
| `ExtraFields.RecordsOfEncoded` | pkg/util/zip/reader.go:348-354 | of an encoded record list, in front of anything the walk gives up on, each record is visited once and in order |
| `ExtraFields.RecordsThenRest` | pkg/util/zip/reader.go:348-354 | every byte string is its records followed by a rest the walk gives up on |
| `ExtraFields.LastTimeWins` | pkg/util/zip/reader.go:383-419 | the last record with a valid timestamp decides the time |
| `ExtraFields.FoldWithoutNeeds` | pkg/util/zip/reader.go:357-419 | without a zip64 record, or with nothing needed, the walk cannot fail and touches only the time |
| `ExtraFields.FoldIsFirst` | pkg/util/zip/reader.go:347-420 | only the first zip64 record can matter for sizes and offset, and only the records with a time for the time |
| `ExtraFields.FoldTimeIsLast` | pkg/util/zip/reader.go:383-419 | the time after any record list is that of its last record with one |
| `ExtraFields.TakeNeeded` | pkg/util/zip/reader.go:362-382 | for every combination of the three needs and every payload: a zip64 record is refused exactly if it has fewer than eight bytes for each needed value; otherwise each is found behind those needed before it, and the values not needed stay |
| `ExtraFields.WrittenTells` | pkg/util/zip/writer.go:122-130 | the written zip64 record tells both sizes and the offset |
| `ParserTotality.AcceptedArchive` | pkg/util/zip/reader.go:116-154 | on every byte string: init accepts exactly if the end is found, declares at most one entry for 30 bytes of file, and the headers stop at something that is none after as many as declared modulo 65536; the files are then those parsed from the directory inside the file, at most 1/46 of its bytes |
| `ParserTotality.RefusedArchive` | pkg/util/zip/reader.go:116-154 | with which error it refuses otherwise |
| `ParserTotality.HeadersBounded` | pkg/util/zip/reader.go:287-315 | every header takes at least 46 bytes |
| `ParserTotality.SearchComplete` | pkg/util/zip/reader.go:497-517 | the search fails exactly if the window holds no acceptable end record, and otherwise gives the last one |
| `ParserTotality.ClosingEndFound` | pkg/util/zip/reader.go:497-517 | the window covers every end record that closes the file, with a comment of any legal length |
| `Contents.EofMeansVerified` | pkg/util/zip/reader.go:228-263 | for every script of underlying reads, EOF is reported only after a prefix of exactly UncompressedSize64 bytes (modulo 2^64) whose CRC and descriptor verify, or whose CRC is zero without descriptor |
| `Contents.ErrorsStick` | pkg/util/zip/reader.go:228-263 | every error except the premature end is returned, without bytes, by all later reads |
| `Contents.PrematureEndPasses` | pkg/util/zip/reader.go:228-243 | the premature end comes without bytes, and the next read asks the underlying reader again |
| `ForeignContents.DamageIsTold` | pkg/util/zip/reader.go:228-263 | with which error the reading of contents that do not verify ends, and with which bytes: a wrong length, a descriptor that breaks off or disagrees, a wrong checksum |
| `ForeignContents.BrokenOff` | pkg/util/zip/reader.go:228-243 | an error of the underlying reader is handed on at once |
| `ForeignContents.DescriptorAccepted` | pkg/util/zip/reader.go:457-495 | a descriptor is accepted exactly if it starts with the signature and the CRC and has 16 bytes, or with the CRC, which is not the signature, and has 12 |
| `ForeignContents.DescriptorRefused` | pkg/util/zip/reader.go:457-495 | and is otherwise refused with the end of the file, the unexpected end or the checksum error, in exactly these cases |
| `ForeignContents.OpenForeign` | pkg/util/zip/reader.go:194-217 | for a local header with strings of any length and flags of any kind, the data behind it is what is decompressed, and the descriptor is read behind the data exactly if bit 3 is set |
| `ForeignContents.OpenRefused` | pkg/util/zip/reader.go:194-205 | opening fails exactly if the local header is not found or the method is unknown |
| `ForeignContents.LocalHeaderIs` | pkg/util/zip/reader.go:269-282 | when a local header is found, its length, and each error |
| `Contents.ReadsHandOn` | pkg/util/zip/reader.go:228-263 | however the contents arrive, all reads hand on what was delivered, and the last one ends well exactly if the whole verifies |
| `Contents.OpenRoundTrip` | pkg/util/zip/reader.go:184-217 | for every entry of a closed archive DataOffset is the first data byte (although a zip64 entry lists 28 more extra bytes than its local header has), Open decompresses to the bytes written, and the descriptor is found behind the data |
| `Contents.ContentRoundTrip` | pkg/util/zip/reader.go:219-263 | reading that entry in any pieces returns exactly the bytes and then EOF; a directory ends well exactly if its CRC is zero |
| `Contents.WrittenDescriptorAccepted` | pkg/util/zip/writer.go:491-513 | the descriptor fileWriter.close writes is accepted for every CRC, short form or long |
| `Contents.UnsignedDescriptor` | pkg/util/zip/reader.go:457-495 | one without signature is accepted exactly unless its CRC is the signature value and is not repeated behind it |
| `Contents.SealedFields` | pkg/util/zip/writer.go:476-489 | the header of a completed entry holds the CRC-32 (`ChecksumIsRemainder`), length and compressed length of what was written |
| `Codecs.StoreIsInverse` | pkg/util/zip/register.go:119-132 | Store is an inverse pair, however the data is cut into writes |
| `CrcPolynomial.ChecksumIsRemainder` | pkg/util/zip/writer.go:366 | the checksum of every message is the complemented remainder of its polynomial, with the first 32 coefficients complemented, times x^32 divided by the generator 0x04C11DB7; the shift register does not occur in the statement |
| `CrcPolynomial.OneRemainder` | pkg/util/zip/writer.go:366 | a polynomial has only one remainder by the generator, so the last statement leaves no choice |
| `CrcPolynomial.GeneratorIsIEEE` | pkg/util/zip/writer.go:366 | the generator is the polynomial with the exponents 32, 26, 23, 22, 16, 12, 11, 10, 8, 7, 5, 4, 2, 1 and 0 |
| `CrcPolynomial.SelfChecking` | pkg/util/zip/reader.go:249-256 | every message with its own checksum behind it has the checksum of four zero bytes |
| `Contents.DeprecatedSizes` | pkg/util/zip/writer.go:479-489 | and its deprecated sizes are the true ones, or both saturated if one does not fit |
| `Crc.FeedConcat` | pkg/util/zip/writer.go:463 | feeding the checksum in pieces is feeding the concatenation |
| `Utf8.DetectUTF8Correct` | pkg/util/zip/writer.go:242-260 | detectUTF8 is valid exactly on the encodings of Unicode scalar values (sections 3 and 4 of RFC 3629), and then requires UTF-8 exactly if some rune is below 0x20, above 0x7d or a backslash |
| `Utf8.DecodeEncoded` | pkg/util/zip/writer.go:244 | decoding a rune undoes encoding it, whatever follows |
| `Utf8.EncodeDecoded` | pkg/util/zip/writer.go:244 | every decodable prefix is the encoding of its rune, so no overlong or surrogate form is |
| `Utf8.EncodedForm` | pkg/util/zip/writer.go:244 | where the groups of six bits of a rune stand, for one to four bytes (section 3 of RFC 3629) |
| `Clock.DateOfWallClock` | pkg/util/zip/struct.go:213-237 | building a date from a wall clock undoes reading it, leap years included |
| `Calendar.MonthsFollow` | pkg/util/zip/struct.go:213-237 | every month begins as many days after the one before as that has in the Gregorian calendar, and the year after December |
| `Calendar.PartsAddUp` | pkg/util/zip/struct.go:213-228 | days, hours, minutes and seconds count on from the first of the month, and twelve months are a year, in or out of range |
| `Calendar.ClockShows` | pkg/util/zip/struct.go:233-237 | the clock shows a date of the calendar, and the one its time is |
| `Calendar.Epochs` | pkg/util/zip/reader.go:400 | the Unix epoch, the start of the NTFS count and the zero time are the dates they should be |
| `Calendar.Difference` | pkg/util/zip/reader.go:422-438 | a difference of times is exact within int64 and saturated outside |
| `Calendar.DosBits` | pkg/util/zip/struct.go:213-228 | the time that any MS-DOS date and time stand for, out of range or not |
| `Calendar.DosLayout` | pkg/util/zip/struct.go:233-237 | the bits of an MS-DOS date and time |
| `ZipFormat.DosDateRoundTrip` | pkg/util/zip/struct.go:213-237 | between 1980 and 2107 the packed MS-DOS date and time unpack to the wall clock with the second rounded down to even |
| `ZipFormat.ZoneRoundTrip` | pkg/util/zip/struct.go:197-208 | timeZone recovers a quarter-hour zone although up to one second was lost |
| `Variables.ParseIsSubstituteIff` | pkg/util/common.go:45-59 | for unnested placeholders with values free of "$", "{" and "}", rewriting the whole string once per match equals the one-pass substitution exactly if no match is spelled by other text when its turn comes |
| `Variables.NoGapIsUnspelled` | pkg/util/common.go:45-59 | that is the case if no value is empty or no placeholder stands right behind a dollar sign |
| `Variables.EmptyValueCounterexample` | pkg/util/common.go:45-59 | it is not for a dollar sign, a placeholder with the empty value and the rest of another placeholder: the two results differ |
| `Variables.KeyAlone` | pkg/util/common.go:61-76 | "${key}" stands for the configured value or for nothing |
| `Variables.KeyAndDefault` | pkg/util/common.go:61-76 | "${key:default}" stands for the configured value, or else for the default if that is not empty, or for nothing; a second colon ends the default |
| `Variables.HeadMatch` | pkg/util/common.go:45-59 | a placeholder in front of any text is the first match, and the substitution is its value in front of that of the text |
| `Variables.PlainText` | pkg/util/common.go:45-59 | text in which no placeholder opens has no match and stays as it is |
| `Variables.SweptIsReplaceAll` | pkg/util/common.go:52-56 | replacing all occurrences in the text is sweeping its tokens: real placeholders and plain text that reads like them |
| `Variables.SweptAgainstFill` | pkg/util/common.go:52-56 | sweeping changes only the placeholders unless plain text spells the match, and then loses dollar signs |
| `Environment.RenderConfluent` | pkg/export/docker-compose.go:166-169 | if every referenced variable is absent or has a placeholder-free value, every iteration order gives the same map, each value rendered from the original one |
| `Environment.OrderShowsOnChain` | pkg/export/docker-compose.go:166-169 | a chain of two references is enough for two orders to differ |
| `ComposeClosure.VolumesClosed` | pkg/export/docker-compose.go:281-327 | for every application, each mount of each service, own or dependent, has a source that is a declared global volume or a config path built for some component |
| `ComposeMounts.MountsAre` | pkg/export/docker-compose.go:281-316 | what each service mounts, exactly and in order: the volumes of the last component with its share ID, each "service_name:path" or "./" + joined path + ":path" for a config file, then of all components with that ID the dependent volumes that exist |
| `ComposeMounts.IndexKeys` | pkg/export/docker-compose.go:285-302 | a volume exists for others exactly if some component has one of that share ID and name |
| `ComposeClosure.DependentResolves` | pkg/export/docker-compose.go:303-313 | a dependent mount resolves to the owner's volume unless a later volume has the same share ID + name key |
| `ComposeClosure.IndexOwner` | pkg/export/docker-compose.go:285-302 | of the volumes with a key the index keeps the last |
| `ComposeNames.NamesDistinct` | pkg/export/docker-compose.go:265-278 | service names are distinct exactly if no two repetitions of a name drew the same four-character suffix and no suffix turned a repetition into a name that comes before it; said of the components and suffixes alone |
| `ComposeNames.NamesDistinctPlain` | pkg/export/docker-compose.go:265-278 | where no name looks like another with its suffix: exactly if no two components of one name, neither being the first with it, drew the same suffix |
| `ComposeNames.ServiceNameIs` | pkg/export/docker-compose.go:265-278 | the name of a share ID is that of the last component with it: the base name, with the suffix exactly if it repeats |
| `ComposeNames.NamesKeys` | pkg/export/docker-compose.go:265-278 | exactly the share IDs of the components have names |
| `ComposeNames.ServicesDistinct` | pkg/export/docker-compose.go:265-278 | with distinct share IDs, services have distinct names exactly if the suffixes tell repetitions apart |
| `ComposeNames.NameOf` | pkg/export/docker-compose.go:265-278 | a component gets its suffix exactly if it has the name of an earlier one or one that an earlier repetition turned into |
| `ComposeNames.NameDrawnTwice` | pkg/export/docker-compose.go:265-278 | three components of one name, of which the last two drew the same suffix, do not get three names |
| `ComposeNames.VolumeNamesUnique` | pkg/export/docker-compose.go:318-327 | the global volumes the builder lists have distinct names exactly if no two of them, of all components, clash: same service and volume name, or one service name goes on after an underscore with what the other volume name begins with |
| `ComposeNames.NamedInGlobals` | pkg/export/docker-compose.go:281-327 | a name is that of a global volume exactly if it is service_name for an ordinary volume of some component |
| `ComposeNames.JoinedAlike` | pkg/export/docker-compose.go:324-326 | two pairs of service and volume name are joined to the same string exactly in those cases |
| `ComposeNames.VolumeNamesClash` | pkg/export/docker-compose.go:281-327 | two components with different service and volume names whose global volumes are one |
| `LateCalls.LateCallsLost` | pkg/util/zip/writer.go:90-100 | calls after Close are accepted, but a second Close fails and writes no directory: what they wrote stands behind the archive, where the reader ignores it as long as its search ends at the old end record; if the search finds none it fails with a format error |
| `LateCalls.SameEnd` | pkg/util/zip/reader.go:497-517 | the search still ends there exactly if nothing later passes for an end record and the record is still within the window |
| `LateCalls.LateHeaderAccepted` | pkg/util/zip/writer.go:269-388 | CreateHeader after Close succeeds and appends its local header |
| `Writer.Writer.constructor` | pkg/util/zip/writer.go:56-59 | a new writer is in the empty state |
| `Writer.Writer.SetOffset` | pkg/util/zip/writer.go:61-70 | moves the position counter and nothing else |
| `Writer.Writer.SetComment` | pkg/util/zip/writer.go:80-86 | sets the comment, or refuses one longer than 65535 bytes and changes nothing |
| `Writer.Writer.RegisterCompressor` | pkg/util/zip/writer.go:425-430 | overrides one compressor |
| `Writer.Writer.Compressor` | pkg/util/zip/writer.go:432-438 | the writer's own compressor, else the package's |
| `Writer.Writer.CreateHeader` | pkg/util/zip/writer.go:269-388 | closes the open entry, refuses the header added last, rewrites the caller's header, and enters the new entry even if its local header is refused: new state, header contents and error as CreateStep says |
| `Writer.Writer.Prepare` | pkg/util/zip/writer.go:296-334 | encoding flag, versions, MS-DOS date, timestamp record, directory or descriptor flag |
| `Writer.Writer.Add` | pkg/util/zip/writer.go:336-387 | a compressor is chosen (or there is none), the entry enters the directory, its local header is written, and the file writer is tied to it |
| `Writer.Writer.Close` | pkg/util/zip/writer.go:90-220 | completes the open entry, refuses a second Close, and writes directory and trailer: the whole new state and error |
| `Writer.Writer.WriteDirectory` | pkg/util/zip/writer.go:102-158 | the loop over the directory writes the central headers in order and leaves each header as listed |
| `Writer.Writer.WriteTrailer` | pkg/util/zip/writer.go:159-219 | zip64 record and locator where needed, the end record with clamped values, the comment |
| `Writer.FileWriter.Write` | pkg/util/zip/writer.go:459-465 | appends to the open entry, or fails on a closed one and changes nothing |
| `Writer.FileWriter.Push` | pkg/util/zip/writer.go:463-464 | feeds checksum, compressor and counters and writes what the compressor emits |
| `Writer.FileWriter.Close` | pkg/util/zip/writer.go:467-514 | completes the entry: compressor flushed, header filled in, descriptor written; a second close fails and changes nothing |
| `Writer.FillIn` | pkg/util/zip/writer.go:476-489 | the size, CRC and version fields of the completed header |
| `Writer.WriteHeader` | pkg/util/zip/writer.go:390-420 | the local header, or the error for a long name or extra field and no bytes |
| `Writer.CentralFixedOf` | pkg/util/zip/writer.go:105-145 | the 46 fixed bytes of a central header and the extra field with its zip64 record |
| `Writer.DescriptorOf` | pkg/util/zip/writer.go:496-511 | the 16- or 24-byte data descriptor |
| `Writer.Zip64EndOf` | pkg/util/zip/writer.go:170-189 | zip64 end record and locator |
| `Writer.EndOf` | pkg/util/zip/writer.go:202-211 | the end record |
| `Writer.CountWriter.Write` | pkg/util/zip/writer.go:521-525 | bytes are appended and counted |
| `Utf8.DetectUTF8Loop` | pkg/util/zip/writer.go:242-260 | the loop computes the function DetectUTF8Correct is about |
| `Bytes.WriteBuf.PutUint32` | pkg/util/zip/writer.go:547-550 | appends the little-endian value to what the buffer holds |
| `Bytes.WriteBuf.PutUint64` | pkg/util/zip/writer.go:552-555 | likewise for 64 bits |
| `Bytes.ReadBuf.Uint64` | pkg/util/zip/reader.go:637-641 | takes the little-endian value off the front |
| `Bytes.ReadBuf.Sub` | pkg/util/zip/reader.go:643-647 | splits off the first n bytes |
| `Bytes.GetPut64` | pkg/util/zip/writer.go:552-555 | reading a written 64-bit value gives it back at any position |
| `Bytes.LittleEndian` | pkg/util/zip/writer.go:540-555 | the least significant byte comes first |
| `Bytes.PutGet64` | pkg/util/zip/reader.go:637-641 | writing what was read gives the bytes it was read from |
| `Bytes.SignedReading` | pkg/util/zip/reader.go:576 | the signed reading of a 64-bit word |
| `Reader.Reader.Init` | pkg/util/zip/reader.go:116-154 | on every byte string terminates and gives the files and comment, or the error, that the model says |
| `Reader.ReadDirectoryHeader` | pkg/util/zip/reader.go:287-455 | consumes one record and gives its file, or the error of the first thing wrong with it: what ParseHeader says, and thus `ParseComplete`, `ParsedFields` and `Incomplete` |
| `Reader.ParseExtras` | pkg/util/zip/reader.go:339-420 | the nested walk over extra fields terminates on every input and gives what WalkExtras says (`WalkIsFold`, `FoldIsFirst`, `TakeNeeded`) |
| `Reader.NtfsCase` | pkg/util/zip/reader.go:383-405 | the inner walk over NTFS attributes: irrelevant ones are skipped, a truncated one ends it |
| `Reader.SearchEnd` | pkg/util/zip/reader.go:497-517 | the search in the last 1 KiB and then the last 65 KiB is one scan down the last 66560 bytes |
| `Reader.SearchWindow` | pkg/util/zip/reader.go:506-512 | the last end record in the last bLen bytes |
| `Reader.FindSignatureInBlock` | pkg/util/zip/reader.go:603-615 | the last position with a signature and a comment that fits, or -1 if there is none |
| `Reader.ReadEndRecord` | pkg/util/zip/reader.go:519-534 | the fields of a found end record; its comment always fits, so the "invalid comment length" error cannot occur |
| `Reader.FindDirectory64End` | pkg/util/zip/reader.go:556-577 | where a valid locator in front of the end record points, else -1 |
| `Reader.ReadDirectory64End` | pkg/util/zip/reader.go:581-601 | the 64-bit values of a zip64 end record, or the error |
| `Reader.ReadDirectoryEndOf` | pkg/util/zip/reader.go:497-551 | the end of the directory with its zip64 values, or the error |
| `Reader.FindBodyOffset` | pkg/util/zip/reader.go:269-282 | the length of a local header, or the error |
| `Reader.DataOffset` | pkg/util/zip/reader.go:184-190 | header offset plus that length |
| `Reader.OpenFile` | pkg/util/zip/reader.go:194-217 | data section, decompressor and descriptor section of a file, or the error, with a fresh checksum reader |
| `Reader.ChecksumReader.Read` | pkg/util/zip/reader.go:228-263 | one read: the new state and the answer for whatever the underlying reader delivers, with the CRC-32 of `ChecksumIsRemainder` |
| `Reader.ReadDataDescriptor` | pkg/util/zip/reader.go:457-495 | accepts or refuses a descriptor with or without signature |
| `Variables.ParseVariable` | pkg/util/common.go:45-59 | the replacement loop, with the values of `KeyAlone` and `KeyAndDefault`; it is the one-pass substitution exactly under the condition of ParseIsSubstituteIff |
| `Environment.Render` | pkg/export/docker-compose.go:166-169 | the result is that of some order of the keys, and of all of them in a settled environment |
| `Compose.DockerCompose.constructor` | pkg/export/docker-compose.go:251-263 | names, mounts and global volumes of the whole application |
| `Compose.DockerCompose.BuildServiceNames` | pkg/export/docker-compose.go:265-278 | share ID to name, as `ServiceNameIs` and `NamesKeys` say |
| `Compose.DockerCompose.BuildVolumes` | pkg/export/docker-compose.go:281-316 | the mounts `MountsAre` lists, and the global volumes |
| `Compose.DockerCompose.BuildVolume` | pkg/export/docker-compose.go:318-327 | config path or volume name, and the mount |
| `Compose.DockerCompose.GetGlobalVolumes` | pkg/export/docker-compose.go:335-343 | exactly the global volumes |

## Left out

- File and network access: `OpenReader`, unzipping, tar files, registry clients. A file is an
  in-memory byte sequence, and reading it fails only by reaching its end.
- Errors of the underlying writer, buffering and partial writes: it takes everything.
- DEFLATE and the pooled compressors and decompressors: any inverse pair stands for them. The
  package-level registries (with their locks) are map parameters; a compressor whose constructor
  fails is not modelled.
- The value returned for a directory is null; its refusal of writes
  (pkg/util/zip/writer.go:440-447) is not part of this model.
- `Create`, `Flush`, `FileInfoHeader` and the conversion of file modes: simple wrappers and bit
  tables.
- Writer.Writer.CreateHeader: the caller may pass the header object added last, which is
  refused as in the source, but no earlier one; two directory entries that share one header
  object are not modelled.
- Writer.Writer.SetOffset: called with data already written the source panics; here it is a
  precondition, and in a run such a call does nothing.
- Layout.RunLaidOut: the layout is that of runs before Close; `LateCallsLost` says what
  becomes of later calls.
- The signed 64-bit position counter and the section bounds in Open do not wrap around in the
  model; the results assume positions below 2^63. Sizes, offsets and counts stored in headers
  do wrap around.
- ArchiveRoundTrip.ArchiveRoundTrip: archives with a misleading locator behind a directory of
  65535 bytes are set aside (`DirectoryClear`); `EndRoundTrip` treats them.
- Decompression is a function of the whole compressed section; how a decompressor asks for its
  input is not modelled. How it hands out its output is (`Delivery`).
- The three unused disk fields of the end record are not kept.
- Time zones are fixed offsets in whole seconds. The calendar is the proleptic Gregorian one of
  Go's time package, without the range limits of its 64-bit representation.
- Environment.RenderConfluent: the condition is sufficient; an environment outside it can be
  independent of the order by accident.
- ComposeClosure.DependentResolves: sufficient; if a later volume has taken the key its name
  may happen to be the same.
- Variables.ParseIsSubstituteIff: nested placeholders, and values that contain "$", "{" or "}",
  where rewriting and substitution differ by design, are outside it.
- Compose names (pinyin conversion), path joining and random suffixes are parameters of the
  compose model. The layering of a component's environment before it is rendered, the YAML
  output, the run script and exported config files are not part of this model.
- `pkg/oam`, `pkg/ram`, `pkg/util/docker` and `pkg/util/image`: field copying, validation and
  client calls that would only add easy members.
