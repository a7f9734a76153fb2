# FromSoftware archive containers, verified

A model of the archive family of souls-formats-c: the containers BND, BND2, BND3, BND4, BHD5 and
FSDATA, together with the binary reader and writer, the reservation table and the path hash on which
they rest.

Every writer here lays down headers full of placeholders, then names, index and payloads, and fills
each placeholder once its value is known. The model keeps that form: `Writing.BinaryWriter` is a class
over a growing buffer with an open-addressing table of reservations, and each archive writer is a
method that drives it in loops. Beside each of them stands the image as a closed form, in which every
offset is computed from the sizes of what comes before, and the writer is proved to produce exactly
that image. Every reader is a method over a cursor, proved equal to a parsing function on the buffer;
what reading a written image gives is then a lemma about the parsing function and the closed form.

The writer object carries a ghost `target`, the image it is working towards, and keeps the
invariant that its buffer is the beginning of the target except where reservations are still open.
Each step is justified by a piece of the target that stands at the current position. Where the order
of equal hashes is left open by the sort, the target is replaced once the sort has run.

Things the code calls but does not contain are parameters: text encoders, the DCX compressor, the AES
cipher, the RSA exponentiation, the allocator's failures. Where a property needs them to be inverse
to each other, that is assumed for the texts and payloads at hand, not for all inputs.

Modules, bottom up:

* `Bytes`, `Labels`, `Texts`: integers in both byte orders, placement of texts in buffers, reservation
  names, foreign encodings.
* `Reservations`, `Writing`, `Reading`, `Emitting`: the reservation table, writer, reader, and single
  writer steps towards a target.
* `PathHashing`, `HashIndex`, `HashTableCodec`: path hash and prime group count, the index built by
  counting sort, and its bytes.
* `Words`: words and texts in a buffer spelled out byte by byte. On it rest `BinderWords`, `Bnd3Words`,
  `Bnd4Words`, `HashTableWords`, `ItemWords`, `BndWords`, `Bnd2Words`, `FsdataWords`, `Bhd5Words` and
  `Bhd5Images`, which say for each format, in literal words at literal offsets, which bytes are read as
  which archive, in both directions, and which bytes are written. `BinderRefusals`, `Bnd3Refusals`,
  `Bnd4Refusals`, `BndRefusals`, `Bnd2Refusals` and `Bhd5Refusals` (on `Refusals`) say in the same words
  with which error everything else is refused.
* `Format`, `Binder`, `BinderWriting`, `BinderReading`: what BND3 and BND4 share.
* `Bnd3*`, `Bnd4*`: the two formats; `Bnd4Estimate` accounts for the size estimate, `Bnd4Object`,
  `Bnd4Heads`, `Bnd4Load` and `Bnd4Runs` for the ownership of memory over whole lives of an object (on
  `Allocation`).
* `Bhd5*`: the index of the encrypted archive pair, its range pools, decryption and RSA unwrapping.
* `Items`, `ItemWriting`, `Bnd*`, `Bnd2*`: the two oldest containers, which share their layout.
* `Fsdata*`: the sector-addressed archive.

## Where the code does not keep what it promises

* The BND4 size estimate is called an upper bound and is not one: one named file of 16 bytes is written
  as 128 bytes and estimated as 113 (`Bnd4Estimate.EstimateTooSmall`). `EstimateSuffices` says when it
  is one, `EstimateNearlySuffices` that it is never more than 15 bytes short. Nor is it always capped
  where it is too large: some of its sums wrap (`WordsExact`, `EstimateWraps`).
* A format byte with Flag7 does not survive reversed bits unless `Format.FormatStable` holds; 0x83 is
  read as 0xC1, which is written as 0xC1 (`Format.UnstableFormatRead`).
* A BHD5 index is read back only if `Bhd5RoundTrip.Recognised` holds: big-endian images, and short ones
  without buckets, are misjudged by the width guess (`Bhd5RoundTrip.BigEndianLost`).
* An RSA block of nothing but zeros is lost, since the RSA layer reports an empty number as a failure
  (`Bhd5Unwrapping.UnwrapRestores`, `ZeroBlockLost`).
* Not everything that BND2, BND3 and BND4 write is accepted when it is read: the unknown word, the
  extended byte and the path mode are written unchecked (`NotReadBack` in each of the three).
* The FSDATA reader copies from in front of its buffer for a negative sector number whose fetch ends
  inside, as the bounds check adds with wrap-around (`FsdataReading.OutsideExactly`, `FetchInFront`).
* An FSDATA file without a byte is dropped on reading, and if it lies behind another file the image is
  not reproduced (`FsdataReading.WriteReadWrite`, `EmptyFileLost`).
* Under an allocator other than the default one every name of a BND4 archive leaves a block behind: the
  decoded name is copied and then handed to the default allocator (binder_common.c:392-396), although an
  object is to be freed by the allocator it was made with (sf_common.h:98-101). The heap is restored
  exactly under the default allocator or without names (`Bnd4Runs.WholeLife`).
* A BND4 archive of 699944 files or more cannot be written with an index, as no prime group count
  exists for it (`PathHashing.GroupCountZero`).

## Model

| member | source | states |
|---|---|---|
| Labels.DecimalInjective | src/archive/binder_common.c:174-176 | different entry indices print differently |
| Labels.LabelNameInjective | src/archive/bnd2.c:136-139 | a prefix and a decimal index determine each other, so two reservations of one archive never share a name |
| Reservations.ProbeLookup | src/core/binary_writer.c:401-419 | the probe ends at the slot of the key exactly when the key is stored, across tombstones and wrap-around |
| Reservations.ProbeInsert | src/core/binary_writer.c:421-442 | an insertion point is found whenever a slot is free, and a duplicate is reported exactly when the key is stored |
| Reservations.Rehash | src/core/binary_writer.c:444-466 | the larger table holds the same bindings and no tombstones |
| Reservations.ReservationTable.Push | src/core/binary_writer.c:468-500 | fails exactly for a name and kind already open, otherwise the table is the old map with one binding more |
| Reservations.ReservationTable.Peek | src/core/binary_writer.c:521-531 | finds the position of an open reservation, nothing else |
| Reservations.ReservationTable.Pop | src/core/binary_writer.c:502-519 | removes exactly the one binding |
| Writing.LinkedUpdate | src/core/binary_writer.c:502-548 | opening and closing by name is opening and closing by field and entry |
| Writing.AgreesFill | src/core/binary_writer.c:589-607 | filling a reservation with the target's bytes leaves the buffer a beginning of the target outside the remaining reservations |
| Writing.BinaryWriter.Pad | src/core/binary_writer.c:209-230 | zero bytes up to the next multiple, in chunks |
| Writing.BinaryWriter.Reserve | src/core/binary_writer.c:533-548 | appends a placeholder, fails exactly when the reservation is open |
| Writing.BinaryWriter.FillIn | src/core/binary_writer.c:589-607 | overwrites exactly the reserved bytes, closes the reservation, returns to the end |
| Writing.BinaryWriter.Finish | src/core/binary_writer.c:148-156 | succeeds exactly when no reservation is open; the buffer then is the target |
| Bytes.EncSigned | src/core/binary_writer.c:299-320 | a signed value of any width loads back from either byte order |
| Reading.PlacedText | src/core/binary_reader.c:660-688 | a terminated text of one- or two-byte units reads back |
| Reading.BinaryReader.ReadTerminated | src/core/binary_reader.c:660-755 | the unit-by-unit loop returns the bytes up to the first terminator |
| Reading.BinaryReader.GetBytes | src/core/binary_reader.c:430-438 | steps in, reads, steps out: absolute offset read, cursor unchanged |
| Words.Read64 | src/core/binary_reader.c:241-280 | a 64-bit read, signed or not, in either byte order, returns the number that the eight bytes spell, or reports the end of data |
| Words.Stored32 | src/core/binary_writer.c:299-320 | a stored 32-bit integer is the one that its four bytes spell |
| Words.Bytes4 | src/core/binary_writer.c:299-320 | the bytes of a stored integer one by one, lowest first, or highest first in big-endian order |
| Words.ReadWide | src/core/binary_reader.c:727-755 | a wide text ends at the first pair of zero bytes |
| Texts.FixedTextRead | src/core/binary_reader.c:757-771 | a fixed-size text field gives its text back when the code fits |
| PathHashing.ComputePathHash | src/core/filename_hash.c:22-56 | the one-pass loop is the sum, mod 2^32, of the bytes of the path's spelling times falling powers of 37: capitals as small letters, 0x5C as 0x2F, and 0x2F in front unless the path begins with one of the two |
| PathHashing.HashOfA | src/core/filename_hash.c:32-53 | "a", "/a" and "\A" hash to 47 * 37 + 97 |
| PathHashing.IsPrime | src/core/filename_hash.c:76-95 | odd trial division up to the square root decides primality |
| PathHashing.GroupCount | src/archive/binder_common.c:526-532 | the least prime from a seventh of the file count on, zero only if there is none up to 100000 |
| PathHashing.GroupCountUnique | include/souls_formats/sf_hash.h:49-60 | that answer is determined by the file count |
| PathHashing.GroupCountZero | src/archive/binder_common.c:526-532 | it is zero exactly from 699944 files on |
| HashIndex.CountBuckets | src/archive/binder_common.c:585-594 | the counters are the bucket sizes |
| HashIndex.PrefixSums | src/archive/binder_common.c:609-615 | the offsets are the bucket starts |
| HashIndex.Scatter | src/archive/binder_common.c:617-625 | with the counters reused as cursors every entry lands in its bucket, every slot is written once |
| HashIndex.SortSlice | src/archive/binder_common.c:627-636 | a bucket becomes ascending and keeps its entries; other buckets are untouched |
| HashIndex.BuildIndex | src/archive/binder_common.c:585-636 | the whole construction yields an index: each bucket's slice holds that bucket's entries, ascending |
| HashIndex.IndexIsPermutation | src/archive/binder_common.c:596-636 | the index is a permutation of all (hash, file) pairs |
| HashIndex.SlicesDisjoint | src/archive/binder_common.c:646-656 | the group records' slices do not overlap |
| HashIndex.StartTotal | src/archive/binder_common.c:646-656 | together the slices cover all files |
| HashIndex.FoundIsMatching | src/archive/binder_common.c:566-672 | the files found in a hash's slice are exactly those with that hash |
| HashIndex.IndexRefinesScan | src/archive/bnd4.c:801-811 | the index finds something exactly when the linear scan does, and the scan's answer is the first of what it finds |
| HashTableCodec.LookupInBytes | src/archive/binder_common.c:638-664 | looking a hash up in the written group and hash records finds what the index holds |
| HashTableWords.TableSpelled | src/archive/binder_common.c:638-664 | the table to the word: groups that follow each other and cover all records, hashes ascending in each, and a record for every file in the group of its hash |
| Format.FormatSurvives | src/archive/binder_common.c:31-45 | a format byte comes back exactly when it is stable: bits not reversed, or no Flag7, or the big-endian bit beside it (and with Flag6 a byte that reads the same both ways) |
| Format.UnstableFormatRead | src/archive/binder_common.c:31-45 | a byte that is accepted on reading and not reproduced by writing |
| Format.FlagsSurvive | src/archive/binder_common.c:53-67 | file flags always come back |
| BinderWords.FormatIs | src/archive/binder_common.c:31-45 | which bits of a byte are mirrored on reading and on writing |
| BinderWords.FlagsIs | src/archive/binder_common.c:53-67 | file flags are mirrored exactly in the other bit order |
| Binder.EntryFieldsStand | src/archive/binder_common.c:322-337 | an entry's fields stand at the offsets of its flag-dependent layout |
| Binder.RecordsStand | src/archive/binder_common.c:339-511 | entry, name and padded payload of every file stand at their computed positions |
| Binder.PayloadsLaidOut | src/archive/binder_common.c:232-272 | payloads in order, disjoint, inside the data area, non-empty ones on 16-byte boundaries |
| BinderWriting.OpenStep | src/archive/binder_common.c:410-459 | the next entry field's reservation is never already open |
| BinderWriting.CloseStep | src/archive/binder_common.c:461-511 | each fill finds its reservation open, at the position of its field |
| BinderWriting.AllFilled | src/archive/bnd4.c:604-608 | after the last payload nothing of the entries is open |
| BinderWriting.WriteHeader4 | src/archive/binder_common.c:410-459 | writes a BND4 entry, reserving what is not known yet |
| BinderWriting.WriteHeader3 | src/archive/binder_common.c:178-221 | writes a BND3 entry, reserving what is not known yet |
| BinderWriting.WriteName | src/archive/binder_common.c:492-511 | fills the name offset with the position at which the text is then written |
| BinderWriting.WriteDataCore | src/archive/binder_common.c:232-272 | pads unless the file is empty, then writes the payload, compressed if flagged |
| BinderWriting.WriteData | src/archive/binder_common.c:461-490 | fills sizes and offset of the payload just written |
| BinderReading.ReadEntry4 | src/archive/binder_common.c:339-408 | reads a BND4 entry as the parsing function says |
| BinderReading.ReadEntry3 | src/archive/binder_common.c:114-172 | reads a BND3 entry as the parsing function says |
| BinderReading.EntryRoundTrip | src/archive/binder_common.c:339-459 | an entry reads back: flags, offsets, id and name under the format's rules |
| BinderWords.NameIs | src/archive/binder_common.c:386-390 | a name is read as pairs of bytes in the archive's byte order if it is Unicode, otherwise as single bytes |
| BinderWords.Entry4Read | src/archive/binder_common.c:339-408 | a BND4 entry is read exactly from the words that carry it, each at its offset for the bits of the format |
| BinderWords.Entry3Read | src/archive/binder_common.c:114-172 | the same for BND3 |
| BinderRefusals.Entry4Refused | src/archive/binder_common.c:339-408 | with which error a BND4 entry is refused, in terms of its words and its name |
| BinderRefusals.Entry3Refused | src/archive/binder_common.c:114-172 | the same for BND3 |
| BinderRefusals.PayloadRefused | src/archive/bnd4.c:330-378 | with which error a payload is refused: for where it lies, or by the decompressor |
| BinderWords.FileSpelled | src/archive/binder_common.c:461-511 | the words of a written entry; at the name offset the name in the encoding that applies with its terminator, at the payload offset the payload |
| BinderWords.NamesAssembled | src/archive/binder_common.c:492-511 | names follow each other without gaps |
| BinderWords.PayloadAssembled | src/archive/binder_common.c:232-272 | a payload stands on the next multiple of 16, or right behind the last for an empty file, with zeros between |
| BinderReading.BodyRoundTrip | src/archive/bnd4.c:330-378 | all files of a written body read back, in order |
| Bnd3.ImagePieces | src/archive/bnd3.c:574-630 | every piece of the BND3 image stands at its computed offset |
| Bnd3.PayloadsInImage | src/archive/bnd3.c:614-625 | BND3 payloads behind entries and names, in order, disjoint, aligned; filled fields in front of the names |
| Bnd3Writing.WriteArchive | src/archive/bnd3.c:574-630 | writing succeeds exactly when all texts and payloads can be encoded, and yields the closed-form image; no reservation taken twice or left open; otherwise the first error of version, names and payloads |
| Bnd3Reading.ReadArchive | src/archive/bnd3.c:264-344 | the reader computes the parsing function, errors included |
| Bnd3Words.ReadExactly | src/archive/bnd3.c:264-401 | the parser returns an archive exactly for the bytes that carry it, word by word; behind byte 16 in big-endian order if the head or the format says so |
| Bnd3Words.WrittenExactly | src/archive/bnd3.c:574-630 | the BND3 image to the byte: head, entries, names, payloads, and how they are packed |
| Bnd3Words.WritableMeans | src/archive/bnd3.c:574-630 | what can be written, in terms of the encodings |
| Bnd3Refusals.RefusedWith | src/archive/bnd3.c:264-401 | with which error any bytes are refused: head, then entries in their order, then payloads; or that they are read |
| Bnd3Refusals.StoppedIs | src/archive/bnd3.c:574-630 | with which error writing stops, the first text or payload that fails |
| Bnd3Reading.RoundTrip | src/archive/bnd3.c:264-401 | a written BND3 archive reads back, in both byte orders, exactly when the format byte is stable and the unknown word is 0 or 0x80000000 |
| Bnd3Reading.NotReadBack | src/archive/bnd3.c:264-344 | archives without files that can be written and are not read back: unknown word 1, format 0xC1 |
| Bnd3Reading.ReadWriteRead | src/archive/bnd3.c:407-450 | an archive read from any bytes is the same after writing and reading again, exactly when its format byte is stable |
| Bnd3Reading.Lossless | src/archive/bnd3.c:380-399 | exactly which archives lose nothing on the way |
| Bnd4.ImagePieces | src/archive/bnd4.c:538-613 | every piece of the BND4 image stands at its computed offset |
| Bnd4.PayloadsInImage | src/archive/bnd4.c:602-608 | BND4 payloads behind entries, names and index, in order, disjoint, aligned; filled fields in front of the names |
| Bnd4Writing.WriteTable | src/archive/binder_common.c:638-664 | emits the index; its offset field is filled with where the hash records begin |
| Bnd4Writing.WriteArchive | src/archive/bnd4.c:538-613 | writing succeeds exactly when texts and payloads can be encoded and an index, if asked for, has a group count; it yields the closed-form image; no reservation taken twice or left open; otherwise the first error of version, names, index and payloads |
| Bnd4Reading.ReadArchive | src/archive/bnd4.c:230-378 | the reader computes the parsing function, errors included |
| Bnd4Words.ReadExactly | src/archive/bnd4.c:230-448 | the parser returns an archive exactly for the bytes that carry it, word by word, names in the encoding that head and byte order choose |
| Bnd4Words.WrittenExactly | src/archive/bnd4.c:538-613 | the BND4 image to the byte: head, entries, names in UTF-16 of either order or single bytes, index, payloads, and how they are packed |
| Bnd4Words.WritableMeans | src/archive/bnd4.c:538-613 | what can be written: in terms of the encodings, and with an index less than 699944 files |
| Bnd4Refusals.RefusedWith | src/archive/bnd4.c:230-448 | with which error any bytes are refused: head, index, then entries in their order, then payloads; or that they are read |
| Bnd4Refusals.StoppedIs | src/archive/bnd4.c:538-613 | with which error writing stops: version, names, an index for 699944 files, payloads |
| Bnd4RoundTrip.RoundTrip | src/archive/bnd4.c:230-448 | a written BND4 archive reads back, every file's flags, payload, id and name under the format's rules, exactly when the format byte is stable and the extended byte is 0, 1, 4 or 0x80 |
| Bnd4RoundTrip.NotReadBack | src/archive/bnd4.c:276-284 | archives without files that can be written and are not read back: extended byte 2, format 0xC1 |
| Bnd4RoundTrip.PlainRoundTrip | src/archive/bnd4.c:230-448 | for single-byte texts without NUL and uncompressed files the round trip needs no assumption about foreign code |
| Bnd4RoundTrip.ReadWriteRead | src/archive/bnd4.c:380-448 | an archive read from any bytes is the same after writing and reading again, exactly when its format byte is stable |
| Bnd4RoundTrip.Lossless | src/archive/bnd4.c:369-376 | exactly which archives lose nothing on the way |
| Bnd4RoundTrip.LookupRefinesScan | src/archive/bnd4.c:801-811 | looking a hash up in the image's bytes finds exactly the files the linear scan would accept, its answer first |
| Bnd4Estimate.EstimateSize | src/archive/bnd4.c:620-656 | the loops, with the sums the code checks and the 64-bit ones it does not, compute the capped sum of what each quantity leaves in 64 bits, with the group count the index will have |
| Bnd4Estimate.EstimateSpelled | src/archive/bnd4.c:620-656 | the sum in numbers: 64 bytes, the entries, a byte or two per character and terminator, 24 bytes and eight per group and file for an index, payloads rounded up to 16 |
| Bnd4Estimate.WordsExact | src/archive/bnd4.c:620-656 | that is the capped true sum exactly when none of the unchecked sums exceeds 64 bits, or the rest is too much anyway |
| Bnd4Estimate.EstimateWraps | src/archive/bnd4.c:650-654 | a payload of 2^64 - 1 bytes is rounded to nothing: 97 instead of the cap |
| Bnd4Estimate.WrittenSize | src/archive/bnd4.c:538-656 | the written size to the byte, as the estimate plus the pad in front of the payloads less three kinds of slack |
| Bnd4Estimate.EstimateSuffices | src/archive/bnd4.c:615-656 | the estimate is an upper bound exactly when the slack covers that pad; so is what the loops compute, when nothing wraps |
| Bnd4Estimate.EstimateNearlySuffices | src/archive/bnd4.c:615-656 | with the assumed bytes per character the image exceeds it by at most 15 bytes |
| Bnd4Estimate.EstimateTooSmall | src/archive/bnd4.c:615-656 | an archive whose image is larger than estimated |
| Allocation.FreeKeepsRest | src/internal/sf_internal.h:37-41 | freeing a part of what is owned leaves the rest owned and other people's memory alone |
| Allocation.StagedIsOther | src/internal/sf_internal.h:37-41 | blocks held for a while are nobody else's |
| Bnd4Object.BlocksRemove | src/archive/bnd4.c:790-799 | what the entries own is what one entry owns and what the others own |
| Bnd4Object.FilesStay | src/archive/bnd4.c:127-137 | the files are what they were as long as their blocks and the pool are |
| Bnd4Object.Object.Grow | src/archive/bnd4.c:743-755 | room for one more, same list, nothing leaked; on failure nothing has changed |
| Bnd4Object.Object.FreeEntry | src/archive/bnd4.c:127-137 | frees payload and name, but not a name in the pool |
| Bnd4Object.Object.AddFile | src/archive/bnd4.c:757-767 | a deep copy is appended, or out of memory with the list and other people's memory as before |
| Bnd4Object.Object.TakeFile | src/archive/bnd4.c:769-788 | the payload's block changes hands on success and stays with the caller on failure |
| Bnd4Object.Object.RemoveFile | src/archive/bnd4.c:790-799 | the list without one file, whose blocks are freed |
| Bnd4Object.Object.Destroy | src/archive/bnd4.c:207-217 | frees exactly what the object owns |
| Bnd4Object.Object.FindByPathHash | src/archive/bnd4.c:801-811 | the linear scan: the first file with the hash |
| Bnd4Load.PooledName | src/archive/bnd4.c:139-176 | each name reads back from its offset in the pool |
| Bnd4Heads.Gather | src/core/binary_reader.c:660-700 | the bytes up to the terminator gather in a block that doubles and is never overrun; no block is left behind on failure |
| Bnd4Heads.ReadText | src/core/binary_reader.c:727-755 | the decoded text in one new block, the scratch blocks freed, or the memory as before with the reader's error or a failed allocation |
| Bnd4Heads.ReadHead | src/archive/bnd4.c:230-301 | the head, with a block for the version that is freed if anything behind it is wrong |
| Bnd4Heads.ReadName | src/archive/binder_common.c:382-400 | the name in a block of its own; with an allocator other than the default one a copy, and the first block is lost to it |
| Bnd4Heads.ReadEntry | src/archive/binder_common.c:339-408 | the entry as the parsing function says; a name already read is freed when the fields behind it are wrong |
| Bnd4Heads.ReadHeaders | src/archive/bnd4.c:230-328 | head and entries, or an error of the parser or of a failed allocation; in either case exactly the blocks that are owned remain, and under another allocator one lost block per name |
| Bnd4Load.ReadBlock | src/archive/bnd4.c:330-378 | a payload in a block of its own, or nothing left behind |
| Bnd4Load.Load | src/archive/bnd4.c:380-448 | the object ends up with exactly the parsed files, or with none, and fails only as the parser does or because an allocation failed; of other people's memory nothing is touched |
| Bnd4Load.ReadObject | src/archive/bnd4.c:468-501 | a new object with the parsed files, or the heap as it was, but for the lost blocks |
| Bnd4Runs.TakenEarlier | src/archive/bnd4.c:769-788 | what has been taken was handed over by an earlier call |
| Bnd4Runs.LiveAndDie | src/archive/bnd4.c:743-799 | for every sequence of calls, a payload being offered again after a failed take included, and every pattern of allocation failures: the list follows the successful calls, each failure has its reason, and at the end each owned block has been freed once and nothing else |
| Bnd4Runs.LostRemains | src/archive/binder_common.c:392-396 | what reading has lost is still there after any calls, apart from what was taken over |
| Bnd4Runs.WholeLife | src/archive/bnd4.c:207-217 | the same from creating or reading to destroying: the heap ends up as it was, without the payloads taken over, exactly when the allocator is the default one or no file has a name; otherwise one block per name is left |
| Bhd5.MetaSize | src/archive/bhd5.c:851-865 | the precomputed position of a file's range records is where they are written |
| Bhd5.RecordsStand | src/archive/bhd5.c:899-938 | every bucket, header, SHA and AES record of the image stands at its precomputed offset |
| Bhd5Writing.PlanRuns | src/archive/bhd5.c:851-855 | the header offsets are the starts of the buckets' runs |
| Bhd5Writing.PlanMeta | src/archive/bhd5.c:856-865 | the SHA and AES offsets, zero where there is no record, and the end of the image |
| Bhd5Writing.WriteIndex | src/archive/bhd5.c:818-949 | writing yields the closed-form image, and is out of range exactly for what the format cannot hold |
| Bhd5Parsing.AsciiToText | src/core/encoding_win32.c:254-299 | the two loops compute the text in which every byte from 0x80 on has become a question mark |
| Bhd5Parsing.ParsedIsProducible | src/archive/bhd5.c:435-622 | whatever is read has an ASCII salt without NUL, buckets that tile the files, bounded range counts and fields in range |
| Bhd5Words.ReadExactly | src/archive/bhd5.c:435-622 | the parser returns an index exactly for the bytes that carry it, word by word, in the width that the bytes decide: bucket records of 16 bytes or 8, headers of both kinds of games, range records |
| Bhd5Refusals.RefusedWith | src/archive/bhd5.c:435-622 | with which error any bytes are refused: mark, counts, salt, bucket records, headers, records of ranges, all of one kind before any of the next; or that they are read |
| Bhd5Images.ShortRoundTrip | src/archive/bhd5.c:493-545 | every index a reader can have produced, of any game and in either byte order, is read from its 32-bit image |
| Bhd5Images.ShortSample | src/archive/bhd5.c:527-545 | 76 bytes of a Sekiro index with one file, and what they are read as |
| Bhd5Images.WrittenWords | src/archive/bhd5.c:818-949 | the written image carries the index in 64-bit width, with its own length and the place of the buckets |
| Bhd5Images.WritableMeans | src/archive/bhd5.c:818-865 | what can be written, in numbers |
| Bhd5RoundTrip.CountsBack | src/archive/bhd5.c:467-499 | what the width guess makes of a written head, in all four cases |
| Bhd5RoundTrip.DirectoryBack | src/archive/bhd5.c:522-549 | the bucket table reads back with the precomputed offsets |
| Bhd5RoundTrip.HeaderBack | src/archive/bhd5.c:357-416 | a file header of either layout reads back |
| Bhd5RoundTrip.BigEndianBlind | src/archive/bhd5.c:467-499 | a big-endian image is read as an empty index |
| Bhd5RoundTrip.RoundTrip | src/archive/bhd5.c:435-622 | any index a reader can have produced, of any game, reads back from its image exactly when the width guess recognises it |
| Bhd5RoundTrip.BigEndianLost | src/archive/bhd5.c:467-499 | a big-endian index with one empty bucket is one that is not read back |
| Bhd5RoundTrip.ReadWriteRead | src/archive/bhd5.c:818-949 | reading, writing, reading: the second reading agrees exactly then |
| Bhd5Reading.CountRanges | src/archive/bhd5.c:576-593 | the first pass computes both pool sizes, and fails exactly when the index cannot be read |
| Bhd5Reading.ReadRangesInto | src/archive/bhd5.c:240-249 | the ranges are copied to the cursor, the rest of the pool is unchanged |
| Bhd5Reading.FillPools | src/archive/bhd5.c:600-611 | the second pass stays in bounds, gives each file its own ranges, and uses the pools up exactly |
| Bhd5Reading.TiledCovers | src/archive/bhd5.c:595-611 | slices lie inside their pool, are disjoint, and cover it |
| Bhd5Archive.Archive.Parse | src/archive/bhd5.c:435-622 | the object holds the index that the bytes carry, word by word, or they carry none and the reader's error is returned |
| Bhd5Archive.ReadDirectory | src/archive/bhd5.c:525-547 | the bucket loop, with its running total |
| Bhd5Archive.ReadHeaders | src/archive/bhd5.c:562-574 | each bucket's headers land at the bucket's first file; empty buckets are skipped |
| Bhd5Archive.BuildLookup | src/archive/bhd5.c:418-433 | each hash is entered for its first file only |
| Bhd5Archive.LookupIsScan | src/archive/bhd5.c:682-686 | the table answers as a scan from the first file would, duplicates included |
| Bhd5Archive.ExtractFile | src/archive/bhd5.c:718-746 | bounds errors, or the stored bytes, changed only where a range denotes them by its own numbers, and with ranges apart each decrypted; that succeeds exactly when each range can be |
| Bhd5Decrypting.DecryptRanges | src/archive/bhd5.c:688-716 | the in-place loop applies the ranges one after the other, or reports the first that is out of bounds |
| Bhd5Decrypting.RangeMeans | src/archive/bhd5.c:691-714 | one range in its own numbers: which bytes it decrypts, counted from the payload if it ends inside and from the archive otherwise, and each error |
| Bhd5Decrypting.RangesMean | src/archive/bhd5.c:691-714 | the whole list in these numbers |
| Bhd5Decrypting.Frame | src/archive/bhd5.c:692-714 | on success every range was inside the payload and no byte outside the ranges has changed |
| Bhd5Decrypting.EachByItself | src/archive/bhd5.c:691-714 | for disjoint ranges the loop succeeds exactly when each range can be decrypted by itself, and each window holds its own decryption |
| Bhd5Decrypting.OrderIndependent | src/archive/bhd5.c:691-714 | disjoint ranges may be decrypted in any order |
| Bhd5Decrypting.UndoesEncryption | src/archive/bhd5.c:691-714 | decrypting undoes the encryption of disjoint ranges |
| Bhd5Unwrapping.NextCapacity | src/archive/bhd5.c:177-183 | the doubling loop ends with enough room |
| Bhd5Unwrapping.UnwrapSealed | src/archive/bhd5.c:141-208 | the chunk loop over a growing buffer computes the concatenation of padded blocks |
| Bhd5Unwrapping.UnwrapExactly | src/archive/bhd5.c:141-208 | what is opened, to the byte: chunks of 256 bytes, each giving a block of 255 that holds the same number without its leading zeros, not zero, and the magic in front |
| Bhd5Refusals.NotUnwrapped | src/archive/bhd5.c:141-208 | with which error a sealed text is refused: the first chunk that fails, has no digit but zero, or too many; at last the missing magic |
| Bhd5Unwrapping.BlockRestored | src/archive/bhd5.c:156-196 | a block is the fixed-length encoding of its number (I2OSP, section 4.1 of RFC 8017), exactly when that is not zero and fits 255 bytes |
| Bhd5Unwrapping.BlocksRestored | src/archive/bhd5.c:153-199 | the buffer in front of the magic check is the concatenation of these encodings |
| Bhd5Unwrapping.UnwrapRestores | src/crypto/rsa_cng.c:201-207 | a sealed text comes back exactly when it has the magic and no block is all zeros |
| Bhd5Unwrapping.ZeroBlockLost | src/crypto/rsa_cng.c:201-207 | two sealed blocks, the magic and zeros, that are refused |
| Items.ItemStands | src/archive/bnd2.c:482-536 | entry, name and payload of every file stand at their computed positions |
| Items.PayloadsLaidOut | src/archive/bnd2.c:523-536 | payloads behind the names, in order, disjoint, on multiples of the alignment, also for alignment zero |
| Items.EntryOpens | src/archive/bnd2.c:482-497 | an entry's reservations are new |
| Items.PayloadCloses | src/archive/bnd2.c:523-536 | each payload's reservations are open when they are filled |
| ItemWriting.WriteEntry | src/archive/bnd.c:353-362 | writes an entry, reserving what is not known yet |
| Bnd.WriteArchive | src/archive/bnd.c:337-406 | writing succeeds exactly for encodable texts and an image within 31 bits, and yields the closed-form image; no reservation taken twice or left open; otherwise the first encoding error, or out of range if the image is too long |
| BndReading.ReadArchive | src/archive/bnd.c:152-251 | the reader computes the parsing function, errors included |
| BndWords.ReadExactly | src/archive/bnd.c:152-251 | the parser returns an archive exactly for the bytes that carry it, word by word; a file without a name offset is called after its id |
| BndWords.WrittenExactly | src/archive/bnd.c:337-406 | the image to the byte: head, entries, root, names, payloads, and how they are packed |
| BndWords.WritableMeans | src/archive/bnd.c:337-406 | what can be written |
| BndRefusals.RefusedWith | src/archive/bnd.c:152-251 | with which error any bytes are refused, or that they are read |
| BndReading.RoundTrip | src/archive/bnd.c:152-270 | a written archive reads back as its normal form |
| BndReading.WriteReadWrite | src/archive/bnd.c:337-406 | writing what was read reproduces the image byte for byte |
| Bnd2.PreparedTwice | src/archive/bnd2.c:434-455 | the drive prefix is added at most once |
| Bnd2.WriteArchive | src/archive/bnd2.c:460-540 | writing succeeds exactly for encodable texts and an image within 31 bits, and yields the closed-form image; no reservation taken twice or left open; otherwise the first encoding error, or out of range if the image is too long |
| Bnd2.RecognisesOwn | src/archive/bnd2.c:70-93 | a written image passes the format check exactly when version, path mode and unknown byte are in range |
| Bnd2Reading.ReadArchive | src/archive/bnd2.c:236-318 | the reader computes the parsing function, errors included |
| ItemWords.NumberIs | src/archive/bnd2.c:295-299 | a decimal name is the only one without leading zeros that has the value of the id, with a minus sign if that is negative |
| Bnd2Words.ReadExactly | src/archive/bnd2.c:236-345 | the parser returns an archive exactly for the bytes that carry it, word by word |
| Bnd2Words.WrittenExactly | src/archive/bnd2.c:460-540 | the image to the byte: in path mode 2 the code of "K:\" and the name stands at the name offset unless its second byte is a colon, in every other case that of the name |
| Bnd2Words.NameReadBack | src/archive/bnd2.c:434-455 | what is read back for a name: the text with its drive, the id in decimal, or nothing |
| Bnd2Words.WritableMeans | src/archive/bnd2.c:460-540 | what can be written |
| Bnd2Words.FormatCheck | src/archive/bnd2.c:70-93 | the quick check in words, on any bytes |
| Bnd2Refusals.RefusedWith | src/archive/bnd2.c:236-345 | with which error any bytes are refused, or that they are read |
| Bnd2Reading.RoundTrip | src/archive/bnd2.c:236-345 | a written archive reads back as its normal form, names regenerated from ids in nameless mode, exactly when path mode and unknown byte are ones the reader knows |
| Bnd2Reading.NotReadBack | src/archive/bnd2.c:236-318 | an archive without files that can be written and is not read back: path mode 7 |
| Bnd2Reading.NormalIsStable | src/archive/bnd2.c:434-455 | the normal form is laid down like the archive, and is its own normal form |
| Bnd2Reading.WriteReadWrite | src/archive/bnd2.c:460-540 | writing what was read reproduces the image byte for byte, for every path mode, name-offset flag and alignment |
| Fsdata.SortById | src/ac/fsdata.c:180-187 | an ascending arrangement of the same files |
| Fsdata.WriteFiles | src/ac/fsdata.c:192-243 | the in-place writes produce the closed-form image |
| Fsdata.PayloadsLaidOut | src/ac/fsdata.c:203-239 | payloads on 32 KiB boundaries, in id order, disjoint, inside the image |
| Fsdata.AscendingUnique | src/ac/fsdata.c:180-187 | there is only one ascending arrangement |
| FsdataArchive.Archive.Add | src/ac/fsdata.c:74-104 | appended, or refused for an id out of range or taken |
| FsdataArchive.Archive.Write | src/ac/fsdata.c:173-249 | the image of the ascending arrangement of the files |
| FsdataArchive.OrderOfAddingIrrelevant | src/ac/fsdata.c:180-187 | the order in which files were added does not show in the image |
| FsdataArchive.Read | src/ac/fsdata.c:116-171 | for any bytes the reader computes the parsing function, errors included, up to the first row that makes it copy from in front of the buffer |
| FsdataWords.ReadExactly | src/ac/fsdata.c:116-171 | reading succeeds exactly for tables whose rows all lie in the buffer, in sectors of 2048 bytes from the end of the table, and gives these files in the order of the rows |
| FsdataWords.RefusedWith | src/ac/fsdata.c:116-171 | which tables are refused: those of another size, and those with a row that ends outside the buffer and none before it that begins in front of it |
| FsdataWords.WrittenExactly | src/ac/fsdata.c:192-243 | the image to the byte: rows, zero where there is no file, and payloads filled up with zeros to the next 32 KiB |
| FsdataReading.UndefinedExactly | src/ac/fsdata.c:145-150 | reading comes to such a row exactly when there is one and no row in front of it is refused |
| FsdataReading.OutsideExactly | src/ac/fsdata.c:145-150 | exactly which rows pass the wrapping bounds check although they reach in front of the buffer; none with a sector number from zero on |
| FsdataReading.FetchInFront | src/ac/fsdata.c:145-150 | a table of 16384 bytes whose first row, sector -9 and length 1, is such a row |
| FsdataReading.RoundTrip | src/ac/fsdata.c:116-171 | reading back gives the non-empty files in ascending id order, filled up to whole sectors, and every fetch stays in the buffer |
| FsdataReading.WriteReadWrite | src/ac/fsdata.c:173-249 | the image of what comes back is the image exactly when no empty file lies behind one that is not empty |
| FsdataReading.EmptyFileLost | src/ac/fsdata.c:203-239 | one byte and an empty file behind it: the image is not reproduced |
| FsdataReading.SizeOfAnyOrder | src/ac/fsdata.c:203-239 | the order of the files does not show in the size |
| FsdataArchive.Rewrite | src/ac/fsdata.c:116-249 | an archive is written, read, and written again: the second bytes equal the first exactly when no empty file lies behind one that is not empty |

## Left out

- Compression, ciphers and text encoders: parameters. DCX, zlib, AES, RSA and the code pages are not part of this model; what is needed of them is assumed of the inputs at hand.
- The readers' flexible mode, which skips the value checks, and single-precision and vector fields.
- File streams, path variants and the lazily reading archive objects: memory images only. Wrapped archives, that is DCX around a whole container, are not unwrapped.
- Allocation failures in the writers and parsers are left out, except for the BND4 object with its reading and its file list; elsewhere allocations succeed. The blocks of the stream and the reader itself are not counted.
- The reader's step stack: stepping in and out is a saved position, since the archive readers never nest steps. Bytes that are written one after the other are appended in one go.
- Widths: image sizes below 2^31 are assumed where a round trip needs the 32-bit fields to be exact. The sums of range counts and offsets in BHD5 are unbounded integers; the checks for 64-bit overflow in them, which no index in memory reaches, are left out, as is the one in the RSA buffer.
- What a copy from in front of the buffer yields in FSDATA, and what the default allocator does with a block that another one made: both are undefined in the source, and the model stops or loses the block there.
- The index builder's `qsort` is an insertion sort here; of the order of equal hashes nothing is used.
- FSDATA in compressed mode, because its sizes depend on zlib.
- BHD5 opening of the paired data file: extraction works on its bytes.
- Default versions from the current time, timestamps, property getters and setters.
- The split container (BXF), the Armored Core formats besides FSDATA, and all formats that are only declared.
