# A verified model of binary-reader

binary-reader parses a binary file by a definition file: the definition names types, each with
integer fields or fields of earlier types, and the program decodes the file's bytes by them, lazily
and field by field, and can dump the result as JSON. This project models that stack in Dafny and
proves that every layer agrees with a simple function of the file's bytes.

`dafny verify dfyconfig.toml` checks everything. The files, from the bottom up:

| file | what it models |
|---|---|
| `Bits.dfy`, `Numbers.dfy`, `Sizes.dfy` | shifts and masks on 64-bit words, bit fields of bytes, wrapping bit counts |
| `FileSystem.dfy` | the file reader contract (short reads, failures), `ReadFully`, the in-memory reader |
| `BufferedFileReader.dfy`, `OutOfStep.dfy` | the sliding window that all objects of a file read through, and what goes wrong if its reader is moved |
| `TypeInfo.dfy`, `IntegerFields.dfy` | the integer decoder, and reading an integer through the window |
| `Types.dfy` | types, static sizes and field layout |
| `FileObject.dfy`, `Trees.dfy`, `Histories.dfy`, `Session.dfy` | objects with a lazily filled cache, the places and the eager decoding they must agree with, and every history of accesses |
| `Errors.dfy`, `Options.dfy`, `OptionSet.dfy` | error collection, option table, building options |
| `DefinitionText.dfy` | definition files by their text alone: the names of integers and options, which files are right, and what is reported |
| `DefinitionParser.dfy`, `DefinitionLaws.dfy`, `DefinitionTypes.dfy` | the semantic pass, which files it accepts and what it reports, and what their types are like |
| `ReferenceDecoder.dfy`, `WrappingSizes.dfy` | a decoder with no bound on offsets, for which types the objects agree with it, and accepted types for which they do not |
| `DefinitionMeaning.dfy` | what the bytes of a file mean by the text of a definition, with no types, offsets or windows in between |
| `JsonText.dfy`, `JsonLayout.dfy`, `JsonDump.dfy` | the text of a dump, a parser for it, its layout, and the dump itself, which reads the file while it writes |
| `EndToEnd.dfy` | the program from definition and bytes to text |
| `Codecs.dfy`, `CodecLaws.dfy`, `CodecRfc.dfy` | the streaming UTF-8 converter, its round trips, and RFC 3629 and RFC 2781 |

## Main results

* **Laziness is invisible.** `Session.Run`: whatever is asked of, cleared in or reparsed on the
  root and every object reached from it, in any order, over one shared reader that may read short
  and may fail, each request has the outcome that the file has at the static place of its path: the
  value there, the error of reading it, or null for a path that leads nowhere
  (`Histories.HistoryIsNavigation`). Only a failing reader adds errors of its own, one for each call
  that fails, no failure is ever cached, and a value once given is given again until its object is
  cleared or reparsed (`Histories.SameAnswerAgain`).
* **What a definition means.** `DefinitionMeaning.Meant` reads bytes by the text of a definition
  alone: the width and the sign of an integer from the letters and digits of its name, sign and byte
  order from the last option that tells them, each byte at the weight of its place, member after
  member. The reference decoding of every accepted type is exactly that
  (`DefinitionMeaning.MeantIsReference`), and so are the outcome of every request of every history
  (`EndToEnd.HistoryIsMeant`) and the text of every dump (`EndToEnd.DumpIsMeant`), if and only if no
  integer 2^61 bytes or more into the file wraps around into it (`EndToEnd.DumpIsMeantIff`). The only
  error of such a request is that an integer's bytes run past the file (`EndToEnd.HistoryErrors`).
* **The eager decoding is a reference decoder, exactly where it can be.** Decoding by wrapping bit
  offsets, windows, shifts and sign fill is decoding whole bytes one after the other, with plain
  big- or little-endian and two's-complement values, in one file if and only if no integer past
  2^64 bits has its wrapped offset inside the file (`ReferenceDecoder.EagerIsReferenceIff`), and in
  every file if and only if no integer starts past 2^64 bits
  (`ReferenceDecoder.ReferenceOnAllFilesIff`). `WrappingSizes.DoublingBoundary` has accepted
  definitions on both sides.
* **What is accepted.** `DefinitionLaws.AcceptedIff`: the semantic pass reports no error exactly
  when a condition on the text alone holds (distinct type names, none of them built in, distinct
  members, types used strictly after their definition, right options), and
  `DefinitionLaws.ReportsOfText` gives every error and warning of every file, right or wrong, in
  order, from its text. Accepted types are sized, and any type, accepted or not, consists of aligned
  whole-byte integers (`DefinitionTypes.ElaboratedTypes`, `DefinitionTypes.LeavesAligned`), and every
  object and field that a history asks for is one (`EndToEnd.HistoryIsAligned`), so the partial-byte
  paths of the integer read are never taken.
* **Integers at any bit position.** `IntegerReads.RawBigIff` says for exactly which offsets and
  sizes the big-endian read is the number that the field's bits write; `IntegerFields.ReadInteger`
  and `IntegerFields.DecodeMeaning` say when a read fails and what it gives otherwise, for every
  state of the window.
* **Through any window.** `IntegerFields.ReadInteger`: an integer read gives what the bytes ahead of
  it give, wherever they come from; in step with the reader these are the file's
  (`Buffered.BufferedFileReader.StreamInStep`), and out of step the read is right exactly if the
  file repeats the same bytes (`OutOfStep.AcrossIsRightIff`).
* **The program end to end.** `EndToEnd.RunProgram`, `EndToEnd.DumpIsReference` and
  `EndToEnd.DumpIsReferenceIff`: the text that is printed reads back, by a JSON parser, as the
  reference decoding of the file if and only if no integer of it is misread. Its layout is that of
  a scan with a count of open braces (`EndToEnd.DumpIsLaidOut`).
* **Streaming UTF-8.** `Codecs.DecodeChunks`: cutting a stream into chunks changes nothing.
  `CodecLaws.RoundTripIff`, `CodecRfc.DecodeWellFormed`, `CodecRfc.EncodeTextIff` and
  `CodecRfc.WellFormedRoundTripIff` say on exactly which inputs the converter is right, and
  `CodecRfc.WellFormedIff` which inputs it accepts beyond the standard.

## Where the code is not what it seems to intend

The model follows the code; each departure has its exact condition.

* `src/ast/type_info.cc:128` shifts the last partial byte down by the number of bits it holds, not
  by the number it does not hold: right only for zero or four such bits. A field of fewer than
  eight bits at bit offset 0 reads as 0. `IntegerReads.RawBigIff` has both, `IntegerReads.RawBigWrong`
  gives a file for every wrong layout.
* `src/public/codecs.cc:60` compares with `<`, so U+FFFF becomes two units; `src/public/codecs.cc:85`
  adds before it ors, so a pair whose high surrogate has bit 6 set loses its carry. The encoder
  keeps no state, so a cut inside a surrogate pair changes its output, and no other cut does
  (`CodecLaws.EncodeSplitIff`).
* The decoder accepts, besides well-formed sequences, overlong forms, surrogates and code points
  above U+10FFFF, and nothing else: what it accepts is well-formed exactly if no sequence starts
  with one of the bytes or byte pairs that only these have (`CodecRfc.WellFormedIff`,
  `CodecRfc.StrictHeadIff`).
* Sizes wrap at 2^64 bits: an accepted file of 59 short definitions has a type that is not empty and
  has static size 0 (`WrappingSizes.SizeWrapsToZero`). That type is still read rightly; the next
  larger one is not. `ReferenceDecoder.ReferenceOnAllFilesIff` has the boundary.
* A window relies on being the only one to move its reader. The failed read of
  `src/public/file_system.cc:54-61` may have moved it, and so does a second parse over the same
  reader. A field that the window has whole is still read rightly (`OutOfStep.WholeFieldIsRight`);
  one across its end exactly under the condition of `OutOfStep.AcrossIsRightIff`, and the value read
  is cached in any case (`OutOfStep.MisreadIsCached`).
* A user-defined type declares no valid options, and an empty set of valid options allows all:
  `little` on a field of a user-defined type is accepted and has no effect. An option without a
  name may be given twice, and the last one decides (`DefinitionLaws.OptionsIff`,
  `DefinitionLaws.LastOptionWins`).

## Model

| member | source | states |
|---|---|---|
| Sizes.PlusIsModular | include/binary_reader/size.h:44-53 | Adding bit counts is addition modulo 2^64, in any grouping, and subtraction undoes it. |
| Sizes.FromBytes | include/binary_reader/size.h:32-34 | A byte count below 2^61 is eight times as many bits, with nothing lost. |
| Sizes.FromBytesAdds | include/binary_reader/size.h:32-53 | Counting bytes as bits before or after adding them is the same, wherever the counts wrap. |
| FileSystem.FileReader.Read | include/binary_reader/file_system.h:55-68 | Any short read: at least one byte unless none is wanted or left; the bytes are the file's, in order, and the position moves by as many; a failure only garbles the output range and is counted. |
| FileSystem.FileReader.Seek | include/binary_reader/file_system.h:70-83 | A success stands at the target clamped to the file's length; a failure may stand anywhere and is counted. |
| FileSystem.FileReader.ReadMore | src/public/file_system.cc:111-117 | One turn keeps the bytes so far equal to the file up to the position, and gets nothing only at the end of the file. |
| FileSystem.FileReader.ReadFully | src/public/file_system.cc:102-123 | Ends, and gives exactly the whole file for every start, known or unknown size and split of reads; on failure the caller's buffer is as it was. |
| FileSystem.MemoryFileReader.Read | src/util/memory_file_system.cc:44-50 | Gives as many bytes as are wanted and left, and so keeps the reader contract without ever failing. |
| FileSystem.MemoryFileReader.Seek | src/util/memory_file_system.cc:52-55 | Clamps to the length of the file, within the reader contract. |
| FileSystem.MemoryFileReader.constructor | src/util/memory_file_system.cc:28-30 | A reader over a buffer stands at the given position in it. |
| Buffered.BufferedFileReader.constructor | src/util/buffered_file_reader.cc:28-29 | The window starts empty at position 0, whatever the position of the reader it is given. |
| Buffered.BufferedFileReader.Seek | src/util/buffered_file_reader.cc:35-49 | Ends at the position asked for. Inside the window nothing is read or moved; outside, and on failure, the window is empty, so nothing stale can be read. What will be read from there on is then fixed, and is the file for a window in step. |
| Buffered.BufferedFileReader.StreamInStep | src/util/buffered_file_reader.cc:80-88 | While the reader stands where the window ends, what will be read from the position on is the file from there on. |
| Buffered.BufferedFileReader.Skip | src/util/buffered_file_reader.cc:51-53 | Moves the position on by the given bits, modulo 2^64, and keeps the window right. |
| Buffered.BufferedFileReader.Compact | src/util/buffered_file_reader.cc:70-78 | Moving the bytes from the position on to the front keeps each of them, the position and the window's match with the file. |
| Buffered.BufferedFileReader.Extend | src/util/buffered_file_reader.cc:81-87 | One read appends what the reader has next, wherever it stands; nothing comes only when the window is full or the file at its end. A window in step stays so, and any right window stays right exactly if the file has the same bytes where they belong. |
| Buffered.BufferedFileReader.Fill | src/util/buffered_file_reader.cc:80-90 | The read loop ends for every split of reads, with the bits buffered, the file's end reached or the buffer full; it appends what the reader has next, and bits already there cost no read. |
| Buffered.BufferedFileReader.EnsureBuffer | src/util/buffered_file_reader.cc:65-91 | For any window over any reader: the position is unmoved, no byte from it on is given up, what will be read does not change, and what the reader has next is appended. In step, the window stays the file's bytes, and on success the bits are buffered or all that fits or is left is. |
| Buffered.BufferedFileReader.GetBuffer | src/util/buffered_file_reader.cc:55-63 | What it points at are the first of the bytes that will be read from the position on, and it finds none only where there are none. |
| Buffered.BufferedFileReader.FoundInStep | src/util/buffered_file_reader.cc:60-61 | In step these are the file's bytes from the position on. |
| Buffered.BufferedFileReader.NoWrap | src/util/buffered_file_reader.cc:31-33 | While the window is right neither its end nor the position wraps around. |
| Buffered.BufferedFileReader.AvailableBytes | src/util/buffered_file_reader.cc:60-61 | The buffered bytes from the position on are the file's, and none are claimed past its end. |
| Buffered.BufferedFileReader.MatchesIff | src/util/buffered_file_reader.cc:83-87 | A window whose later bytes were read elsewhere is right exactly if the file has the same bytes in both places. |
| Buffered.InStepIff | src/util/buffered_file_reader.cc:83-87 | That holds for every file exactly if they were read where the window ended: a failed read must leave the position alone. |
| OutOfStep.StreamOfWindow | src/util/buffered_file_reader.cc:80-88 | A right window whose reader has been moved gives its own bytes and then those at the reader. |
| OutOfStep.WholeFieldIsRight | src/ast/type_info.cc:95-139 | An integer that the window has whole is read as the file has it, wherever the reader is. |
| OutOfStep.AcrossIsRightIff | src/ast/type_info.cc:95-139 | Whole bytes across the window's end are read rightly if and only if the file has at the reader the bytes that belong at the window's end, or too few in both places. |
| OutOfStep.MisreadIsCached | src/public/file_object.cc:114-126 | With a reader moved under a window by a second use, and no call failing, `EnsureField` caches a number made of bytes from two places of the file, which is not the file's. |
| Numbers.EqualsIsByValue | src/public/number.cc:77-95 | Two integers are equal exactly when their values are, although the two alternatives are never compared with one another. |
| Numbers.LittleRoundTrip | src/ast/type_info.cc:118-119 | Little-endian reading inverts little-endian writing at every byte width. |
| Numbers.TwosComplementRange | src/ast/type_info.cc:131-136 | The signed value lies in the range of its width, is congruent to the bits, and is negative exactly when the top bit is set. |
| IntegerReads.DecodeHead | src/ast/type_info.cc:109-115 | Masking and shifting the first byte gives the number of the field's bits in it. |
| IntegerReads.DecodeWholeBytes | src/ast/type_info.cc:116-124 | The loop leaves the number of all bits taken so far, in either byte order. |
| IntegerReads.DecodeBits | src/ast/type_info.cc:107-129 | The whole decode assembles the word of the touched bytes and stays within 64 bits. |
| IntegerReads.HeadBits | src/ast/type_info.cc:111-113 | A mask and a shift pick out the bits that start inside the first byte. |
| IntegerReads.NoLoss | src/ast/type_info.cc:121 | A 64-bit shift loses nothing while the bits consumed stay within 64, even across nine bytes. |
| IntegerReads.BigStep | src/ast/type_info.cc:121-122 | One more whole byte extends the big-endian number by its eight bits. |
| IntegerReads.LittleStep | src/ast/type_info.cc:118-119 | One more byte extends the little-endian number at its own weight. |
| IntegerReads.AssembledBig | src/ast/type_info.cc:126-129 | What the last partial byte adds, as written. |
| IntegerReads.RawBigExact | src/ast/type_info.cc:109-129 | On the exact layouts the read is the number written by the field's bits. |
| IntegerReads.RawBigBits | src/ast/type_info.cc:107-129 | What is read on every layout, by bits: on the inexact ones the last byte's top bits, as many as it has to spare, are or-ed in. |
| IntegerReads.RawBigWrong | src/ast/type_info.cc:127-128 | On every other layout there are bytes that are read wrong. |
| IntegerReads.RawBigIff | src/ast/type_info.cc:83-129 | The big-endian read is right on all bytes if and only if more than one byte is spanned with 0 or 4 final bits, or exactly one with a bit offset or size 8. |
| IntegerReads.WordNumberValue | src/ast/type_info.cc:131-139 | Sign bit test, sign fill and cast give the two's-complement value, in the signed alternative only when negative. |
| IntegerFields.DecodeMeaning | src/ast/type_info.cc:89-105 | Decoding succeeds exactly for a field wholly in the file that is aligned if little endian, fails with the alignment error exactly for a misaligned one and otherwise with the end of the file, and on success gives its two's-complement or plain value where the layout is exact. |
| IntegerFields.RawFieldValue | src/ast/type_info.cc:107-129 | The word of a field is the value of its bits or bytes and fits its width. |
| IntegerFields.AlignedBigEndian | src/ast/type_info.cc:116-124 | A field of whole bytes on a byte boundary has the big-endian value of its bytes. |
| IntegerFields.BufferField | src/ast/type_info.cc:95-105 | Fewer bytes than needed are found exactly when what is to be read ends first; if there are enough, those found are its first. |
| IntegerFields.ReadWord | src/ast/type_info.cc:95-129 | Through any window and any split of reads, the word is that of the bytes to be read at the position. |
| IntegerFields.DecodeInStep | src/ast/type_info.cc:83-139 | From the file's own bytes, decoding what is to be read is decoding the file. |
| IntegerFields.ReadNumber | src/ast/type_info.cc:83-139 | The result is that of the bytes to be read, in step the pure decoding of the file at the position, or an I/O failure of an unreliable reader. |
| IntegerFields.ReadInteger | src/ast/type_info.cc:83-141 | As above, and a success moves the position on by exactly the static size. |
| Types.TypeNamedSpec | src/parser/definition_parser.cc:40-49 | A lookup finds the first type of a name, and none only if there is none. |
| Types.CalculateSize | src/ast/type_definition.cc:27-39 | The loop's result is the static size of the fields: their sum modulo 2^64, or none. |
| Types.SizeIff | src/ast/type_definition.cc:31-33 | A static size exists exactly when every field's type has one. |
| Types.ResolvedIffSized | src/ast/type_definition.cc:31-33 | A type has a static size exactly when no null type is nested in it, however deep. |
| Types.StaticSizeWraps | src/ast/type_definition.cc:33 | The static size is the true size modulo 2^64. |
| Types.OffsetsEnd | src/public/file_object.cc:93-105 | The running offset after all fields is the start plus the static size. |
| Types.TilesIff | src/public/file_object.cc:93-105 | The integers of a type tile its range with no gap and no overlap, through all nesting, if and only if the range does not pass 2^64 bits. |
| Objects.NameMapSpec | src/public/file_object.cc:98 | The name table has exactly the field names, each with the last field of that name. |
| Objects.FileObject.constructor | src/public/file_object.cc:128-131 | A new object has no fields laid out and stands where it was told to. |
| Objects.FileObject.AddField | src/public/file_object.cc:96-98 | A field is laid out at the running offset, with no value. |
| Objects.FileObject.ReparseObject | src/public/file_object.cc:83-112 | Succeeds if and only if the type's static size exists, lays out every field at its static offset and leaves no value cached. |
| Objects.FileObject.ClearCache | src/public/file_object.cc:77-81 | Leaves no value cached and keeps the layout. |
| Objects.FileObject.EnsureField | src/public/file_object.cc:114-126 | A cached value is kept and costs no call of the reader; otherwise what the reader's bytes give at the field's offset is cached on success, in step the file's own value, and nothing changes on failure; no other field is touched. |
| Objects.FileObject.CacheRightIff | src/public/file_object.cc:119-124 | What a read has cached is right exactly if the bytes read decode as the file does. |
| Objects.ReadFrom | src/public/file_object.cc:119-123 | A seek and a read from there give the value or the error at the offset, whatever was read before. |
| Objects.FileObject.GetFieldValue | src/public/file_object.cc:64-75 | Null for an unknown name; otherwise the file's value at the field's static offset, which is cached, or the error of reading it, which is not. |
| Objects.ReadValue | src/ast/type_info.cc:83-141 | A value of any type is the one that the file gives it at the position, and the position moves on by the static size. |
| Objects.ReadDefinition | src/ast/type_definition.cc:51-63 | A nested object starts at the position, is laid out, and is skipped by its static size, which exists when its layout succeeds. |
| Trees.EagerFieldsSpec | src/public/file_object.cc:93-105 | The eager decoding has exactly the named fields, each decoded at its own static offset. |
| Trees.PlaceAtSnoc | src/public/file_object.cc:96-105 | The place of a path is found one field at a time, by the static offsets alone. |
| Trees.ReadAlongIsTreeAt | src/public/file_object.cc:64-75 | What is found along a path is the eager decoding's part there, with null for what cannot be read. |
| Trees.AnswerFromRead | src/public/file_object.cc:64-75 | Every outcome of a field read is a right answer: the value at the field's place, or the very error of decoding it there, or a failed read. |
| Trees.AnswerOutcome | src/public/file_object.cc:64-75 | A right answer has the outcome of the place asked for; null is answered exactly for a name without a field; an object stands at that place. |
| Trees.AnswerMeaning | src/public/file_object.cc:64-75 | By the eager decoding of the object: a value is the field's, and only a field that cannot be decoded fails over a reliable reader. |
| Trees.ReadIsDetermined | src/public/file_object.cc:114-126 | Without faults two reads of one place agree, in success, error and meaning. |
| Trees.NavigationIsEager | src/public/file_object.cc:64-75 | A value reached along any path of names is the part of the root's eager decoding at that path. |
| Session.ParseFile | src/public/file_parser.cc:219-248 | The root object of the selected type stands at the start of the file, wherever the reader was; an unknown type name is an error. |
| Session.FindDefinition | src/public/file_parser.cc:227-232 | The first definition of the name. |
| Session.AskField | src/public/file_object.cc:64-75 | One access keeps every object of a client right, answers with the value or the error of the field's place, gives what was cached, caches what it gives and gives up nothing. |
| Session.Ask | src/public/file_object.cc:64-75 | One access answers what was answered before and not forgotten, and remembers the answer. |
| Session.ClearOne | src/public/file_object.cc:77-81 | A clear empties its object, keeps all objects right and forgets nothing of any other. |
| Session.ReparseOne | src/public/file_object.cc:83-112 | So does a reparse, which succeeds. |
| Session.Perform | src/public/file_object.cc:64-112 | Each operation is carried out on its object: an access is answered rightly, a clear or reparse leaves nothing cached, and all objects stay right. |
| Session.Run | src/public/file_object.cc:64-126 | Every history of accesses, clears and reparses on the root and the objects reached from it: each operation is carried out, each request is answered with the value or the error of its place, a remembered value is given again, and as many requests fail for the reader as calls of the reader have failed. |
| Session.Turn | src/public/file_object.cc:64-112 | An operation for an object that the client does not hold yet changes nothing; any other is carried out on that object. |
| Histories.ObjectsAtPaths | src/public/file_object.cc:64-126 | After any history every object held stands at the static place of the path that led to it, over the root's reader. |
| Histories.AskedAtPlace | src/public/file_object.cc:64-75 | Every request is about the place of its own path. |
| Histories.FaultsNeedFailures | include/binary_reader/file_system.h:55-83 | Over a reliable reader no request of any history is answered with a read failure. |
| Histories.HistoryIsNavigation | src/public/file_object.cc:64-126 | Each request of a history has the outcome of the file at the place of its path, value or error, unless a read fails; null is answered exactly for a path that leads nowhere. |
| Histories.HistoryIsEager | src/public/file_object.cc:64-126 | Each value answered is the part of the root's eager decoding at its path, and only a null part can fail over a reliable reader. |
| Histories.SameAnswerAgain | src/public/file_object.cc:114-126 | What was answered once is answered again, even over an unreliable reader, until its object is cleared or reparsed. |
| Errors.ErrorCollection.Add | src/public/error_collection.cc:25-29 | Errors are kept in order, and only one of error level makes the collection have errors. |
| Options.OptionsObject.SetOption | src/public/options.cc:177-196 | Sets exactly the named option if the value has its type, and nothing otherwise. |
| Options.ParseOption | src/public/options.cc:130-158 | Over any table: unknown, success or ambiguous as no, one or several allowed types have the name, and on success that one's type and value. |
| Options.OneTypeIsUnambiguous | src/ast/option_set.cc:60-64 | With a named type nothing is ambiguous, if each type has one row. |
| Options.OptionDataIsSound | src/public/options.cc:43-57 | In the real table no name is ambiguous, and each value has the type of its option. |
| OptionSets.OptionSet.AddStatic | src/ast/option_set.cc:84-95 | An explicitly typed option is added unless its type was given before, which adds exactly one error; an untyped one always is. |
| OptionSets.AddOption | src/ast/option_set.cc:29-80 | One entry sets its option or adds exactly one error, as `EntryOutcome` says. |
| OptionSets.RejectedIff | src/ast/option_set.cc:29-80 | Over any table: which error an entry gives, by how many meanings its text has, whether its type was named and whether that is valid; without one it applies its only meaning. |
| OptionSets.OptionSet.BuildStaticOptions | src/ast/option_set.cc:97-108 | The settings and the errors are those of the entries in order, and it succeeds exactly when it added none. |
| OptionSets.LastEntryWins | src/ast/option_set.cc:97-108 | Each option type ends at its last entry that applies, or as it was. |
| OptionSets.OneErrorEach | src/ast/option_set.cc:97-108 | There are as many errors as rejected entries. |
| OptionSets.NoErrorsIff | src/ast/option_set.cc:97-108 | No error exactly when every entry applies. |
| DefinitionParser.BuiltInByName | src/ast/type_info.cc:32-50 | The built-in types are the integers of the ten names: 8 bits for a byte, else the number that ends the name; unsigned for `byte` and a leading `u`; no byte order. |
| DefinitionParser.Visitor.GetType | src/parser/definition_parser.cc:39-49 | Definitions so far come before the built-in types; one that is found there is the integer that its name tells. |
| DefinitionParser.Visitor.FindMember | src/parser/definition_parser.cc:51-59 | Finds a member exactly if one of this type's so far has the name. |
| DefinitionParser.Visitor.VisitOption | src/parser/definition_parser.cc:125-137 | `signedness` is the one option, `byte_order` and `order` the other; any other name is reported and goes on as no name. |
| DefinitionParser.Visitor.VisitOptionList | src/parser/definition_parser.cc:139-151 | The entries of a left-recursive list in order, without the repeated types, each of which is reported. |
| DefinitionParser.Visitor.BuildOptions | src/parser/definition_parser.cc:162-167 | The settings of one use of a type, and all errors of its option list. |
| DefinitionParser.Visitor.VisitCompleteType | src/parser/definition_parser.cc:153-173 | The instantiated type, or the null type and one error for an unknown name; `DefinitionLaws.UseOfInteger` says which type that is. |
| DefinitionParser.Visitor.VisitTypeMember | src/parser/definition_parser.cc:93-103 | A repeated name is an error, one that is a type's name or the type's own is a warning; the field is kept in any case. |
| DefinitionParser.Visitor.VisitTypeDefinition | src/parser/definition_parser.cc:91-112 | The definition with its fields in order, every error and warning of its members, and an empty list of statements after. |
| DefinitionParser.Visitor.VisitGlobalDefinition | src/parser/definition_parser.cc:75-84 | A type is known only after its own members; a name already known is an error, and the type is kept in any case. |
| DefinitionParser.Visitor.VisitMain | src/parser/definition_parser.cc:73-87 | All types in order and everything that is reported. |
| DefinitionParser.ParseDefinitions | src/parser/definition_parser.cc:264-287 | Succeeds exactly when no error has been reported, now or before; warnings do not matter. |
| DefinitionLaws.OutcomeOfText | src/ast/option_set.cc:29-80 | On the real table: `signed`, `unsigned`, `big`, `network` and `little` set their value under their own option or under none; anything else is an unknown value, typed if an option is named; the kind of type makes no difference. |
| DefinitionLaws.BuildOfText | src/ast/option_set.cc:97-108 | The whole error list of applying options: in order, one for each that is no repeat and whose text is no value. |
| DefinitionLaws.OptionsIff | src/parser/definition_parser.cc:162-167 | All that an option list reports, on a built-in or a defined type, by its text; nothing exactly when each option is right and no option is named twice. |
| DefinitionLaws.LastOptionWins | src/ast/type_info.cc:68-75 | Of right options on an integer, the last for signedness and the last for byte order decide. |
| DefinitionLaws.UseOfInteger | src/ast/type_info.cc:68-75 | A use of a built-in integer has the width of its name, the sign of the last sign option or else of its name, and the byte order of the last order option or none. |
| DefinitionLaws.LookupIff | src/parser/definition_parser.cc:39-49 | A name is found exactly if it is built in or declared earlier in the file. |
| DefinitionLaws.MembersOfText | src/parser/definition_parser.cc:91-104 | Everything the members of a type report, in order, by their text. |
| DefinitionLaws.ReportsOfText | src/parser/definition_parser.cc:73-175 | Everything that is reported of a file, right or wrong, errors and warnings in order, by its text. |
| DefinitionText.OptionReportsIff | src/parser/definition_parser.cc:125-151 | Nothing is reported of an option list exactly when each option has a known name or none, a value of it, and no earlier one of its kind. |
| DefinitionText.MembersIff | src/parser/definition_parser.cc:91-104 | The members report no error exactly when each uses a known type with right options under a name of its own. |
| DefinitionLaws.AcceptedIff | src/parser/definition_parser.cc:73-175 | A file is accepted exactly when type names are distinct and not built in, member names are distinct, and members use built-in or strictly earlier types with right options. |
| DefinitionTypes.InstantiateKeeps | src/ast/type_info.cc:68-75 | A use of a type keeps its size and name under any options, and a definition altogether. |
| DefinitionTypes.ElaboratedTypes | src/ast/type_info.cc:32-50 | Accepted or not, every type has integers of 1, 2, 4 or 8 bytes only, and the i-th nests at most i definitions, itself counted. |
| DefinitionTypes.MemberTypeIs | src/parser/definition_parser.cc:153-173 | In an accepted file a member has the earlier definition of its type name as it is, or the integer that its type name and its options tell. |
| DefinitionTypes.AcceptedIsSized | src/ast/type_definition.cc:27-39 | Every type of an accepted file has no null field and has a static size, so dereferencing it is safe. |
| DefinitionTypes.AcceptedNames | src/public/file_object.cc:98 | In an accepted type every field is found under its own name. |
| DefinitionTypes.LeavesAligned | src/public/file_object.cc:93-105 | Every integer of the layout of such a type starts on a byte and spans whole bytes. |
| DefinitionTypes.PlacesAligned | src/public/file_object.cc:93-105 | So does every place that a path leads to. |
| DefinitionTypes.AlignedError | src/ast/type_info.cc:89-105 | An aligned whole-byte value fails to be read exactly if it runs past the file, and with that error; never as misaligned. |
| DefinitionTypes.AcceptedNamesApart | src/parser/definition_parser.cc:94-97 | No definition of an accepted file has two fields of one name, at any depth. |
| ReferenceDecoder.FieldStart | src/public/file_object.cc:93-105 | The running offsets are the true byte positions modulo 2^64 bits. |
| ReferenceDecoder.EagerIsReference | src/public/file_object.cc:93-126 | A type of whole bytes of which no integer is misread in a file decodes there, at any byte, as the whole-byte reference decoder says. |
| ReferenceDecoder.FitsStartsBelow | src/public/file_object.cc:105 | Every type that ends within 2^64 bits is such a type. |
| ReferenceDecoder.MisreadDiffers | src/public/file_object.cc:105 | With distinct names one misread integer makes the decodings differ. |
| ReferenceDecoder.MisreadIff | src/public/file_object.cc:105 | In a file of 15 bytes or more some integer is misread exactly if one starts past 2^64 bits. |
| ReferenceDecoder.EagerIsReferenceIff | src/public/file_object.cc:93-126 | In any one file the decodings agree if and only if no integer past 2^64 bits has its wrapped offset, and all its bytes, inside the file. |
| ReferenceDecoder.ReferenceOnAllFilesIff | src/public/file_object.cc:93-126 | They agree on all files if and only if no integer starts past 2^64 bits. |
| ReferenceDecoder.AlongIsReference | src/public/file_object.cc:64-126 | Where none is misread, along every path the objects find what the reference decoder finds, errors included. |
| ReferenceDecoder.ReferenceAlongIsTreeAt | src/public/file_object.cc:64-75 | What the reference decoder finds along a path is its decoding's part there. |
| DefinitionMeaning.MeantIsReference | src/public/file_object.cc:93-126 | The decoding of an accepted type is, in every file and at every byte, what the text of its definition means there. |
| DefinitionMeaning.MemberRead | src/ast/type_info.cc:83-141 | The read of an integer member of an accepted file gives the weighed bytes, in two's complement if its text says signed, least byte first if it says little, or the error that the file ends first. |
| DefinitionMeaning.TwoBytes | src/ast/type_info.cc:116-139 | What two bytes mean in each sign and order. |
| DefinitionMeaning.AlongIsMeant | src/public/file_object.cc:64-126 | Along every path the decoding finds what the text means there, errors included. |
| DefinitionMeaning.MisreadsIffOverruns | src/public/file_object.cc:105 | An integer is misread exactly if one of the text starts 2^61 bytes or more into the file and wraps around into it. |
| WrappingSizes.SizeWrapsToZero | src/ast/type_definition.cc:33 | There are accepted files, from 59 definitions on, whose last type is not empty and has static size 0; with fewer its size is the true one. |
| WrappingSizes.DoublingBoundary | src/public/file_object.cc:105 | Of these the first 59 types decode rightly on all files and no later one does. |
| WrappingSizes.WrapMisreads | src/public/file_object.cc:105 | For the later ones both halves are read from the start of the file, on every file of 8 bytes or more, which is not the reference decoding. |
| JsonText.DumpRoundTrip | src/public/json.cc:28-69 | Every dump, pretty or compact and at any indentation, reads back under sections 2 to 7 of RFC 8259 as the document that was dumped. |
| JsonText.NumberRoundTrip | src/public/json.cc:34-36 | A printed integer reads back as itself, up to a delimiter. |
| JsonText.ItemsSnoc | src/public/json.cc:53-63 | Each further member adds a comma and its own text, as the field loop writes them. |
| JsonLayout.LayoutIsBlanks | src/public/json.cc:56-68 | Two dumps of one document in any two layouts differ in spaces and line breaks only. |
| JsonLayout.SqueezedIsCompactIff | src/public/json.cc:56-68 | Removing spaces and line breaks gives the compact dump exactly when no name has one. |
| JsonLayout.DumpLayout | src/public/json.cc:49-69 | By the text alone: a compact dump has no blank outside names; in a pretty dump each name, and each brace that closes a filled object, starts a line indented by the open braces around it, a space follows each colon, a line break each closing brace that is not indented, and there is no other blank. |
| JsonDump.ShowsOne | src/public/json.cc:49-69 | A document without faults shows one tree only, so what a dump shows determines the decoding. |
| JsonDump.GetFieldNames | src/public/file_object.cc:44-51 | Every field name exactly once, in any order. |
| JsonDump.WriteKey | src/public/json.cc:54-60 | A comma but for the first member; in a pretty dump a line break and the indentation; the quoted name and a colon, with a space after it in a pretty dump. |
| JsonDump.WriteObjectEnd | src/public/json.cc:64-68 | The end of an object in a pretty dump: a line break and the indentation before the brace unless it is empty, and a line break after it at indentation 0; just the brace otherwise. |
| JsonDump.FieldOrNull | src/public/file_object.cc:57-62 | The field's value, or null if it cannot be decoded or a call of the reader failed for it. |
| JsonDump.DumpJsonValue | src/public/json.cc:28-47 | What is appended is the text of a document that shows the value's eager decoding. |
| JsonDump.DumpMembers | src/public/json.cc:53-63 | The field loop writes all members, each showing its field, while it reads through the shared window. |
| JsonDump.DumpJsonObject | src/public/json.cc:49-69 | The text is that of one JSON object with each field once, in any order, each showing its decoding; a null may stand for a field's value only if a call of the reader has failed meanwhile. |
| EndToEnd.CreateFromDefinition | src/public/file_parser.cc:132-152 | Types are returned exactly for a file that is right and not empty, with no earlier error; what is reported is what the text tells. |
| EndToEnd.DumpFile | src/app/main.cc:37-44 | A dump of the selected type, as one JSON object, or nothing written if there is none or a read fails. |
| EndToEnd.RunProgram | src/app/main.cc:25-46 | Prints one JSON object, a dump by the selected definition; unless a call of the reader has failed, it fails exactly when the definitions are wrong or none is selected, and then prints nothing. |
| EndToEnd.DumpIsReference | src/app/main.cc:25-46 | What is printed for a file in which no integer is misread reads back as one document that shows the reference decoding of the file, up to failed reads. |
| EndToEnd.DumpIsReferenceIff | src/app/main.cc:25-46 | Without faults it shows the reference decoding if and only if no integer is misread. |
| EndToEnd.DumpIsMeant | src/app/main.cc:25-46 | What is printed reads back as what the text of the definition says that the bytes of the file mean, up to failed reads, unless an integer overruns. |
| EndToEnd.DumpIsMeantIff | src/app/main.cc:25-46 | Without faults it does so if and only if no integer overruns. |
| EndToEnd.DumpIsLaidOut | src/public/json.cc:49-69 | What is printed is laid out as `JsonLayout.DumpLayout` says, whatever the definition and the file. |
| EndToEnd.RunHistory | src/public/file_parser.cc:219-248 | For an accepted file and any operations, parsing succeeds unless no definition is selected or a read fails, and the history that follows is answered as `Session.Run` says. |
| EndToEnd.HistoryIsReference | src/public/file_object.cc:64-126 | For every accepted definition, every file in which it misreads no integer and every history, each request has the outcome of the whole-byte reference decoder at its path, errors included, unless a read fails. |
| EndToEnd.HistoryIsMeant | src/public/file_object.cc:64-126 | In every history each request has the outcome that the text of the definition gives to the bytes at its path, errors included, unless an integer overruns or a read fails. |
| EndToEnd.HistoryIsAligned | src/public/file_object.cc:93-105 | Every object of such a history and every field asked for lies on whole bytes. |
| EndToEnd.HistoryErrors | src/ast/type_info.cc:89-105 | Over a reliable reader a request fails exactly for an integer whose bytes run past the file; the only other error, of a failing read, needs an unreliable reader; a misaligned integer is never met. |
| EndToEnd.DumpsAgree | src/public/json.cc:49-69 | Without faults any two dumps of a file, whatever layout and field order, read back as the same tree. |
| Codecs.GetNumBytes | src/public/codecs.cc:115-127 | The masks tell the length of a sequence by the range of its first byte. |
| Codecs.CodePointFits | src/public/codecs.cc:46-57 | No code point exceeds 21 bits. |
| Codecs.AppendedUnits | src/public/codecs.cc:60-67 | The units pushed for a code point, with the wrap at U+FFFF. |
| Codecs.Utf8Converter.ReadSequence | src/public/codecs.cc:45-57 | The code point of the sequence in the waiting bytes and the buffer together, if all its bytes continue it. |
| Codecs.Utf8Converter.KeepTail | src/public/codecs.cc:39-43 | What is left of the buffer is kept behind the waiting bytes, at most three in all. |
| Codecs.Utf8Converter.DecodeOne | src/public/codecs.cc:28-73 | One turn takes one sequence off the stream, keeps a partial one, or fails with nothing changed. |
| Codecs.Utf8Converter.Decode | src/public/codecs.cc:25-75 | Output, status and waiting bytes are those of decoding the bytes waiting before and the buffer as one stream. |
| Codecs.Utf8Converter.Reset | src/public/codecs.cc:110-112 | Forgets the waiting bytes. |
| Codecs.DecodeSplit | src/public/codecs.cc:25-75 | Decoding a concatenation goes on from where its first part stopped. |
| Codecs.PendingIsSuffix | src/public/codecs.cc:39-43 | Pending bytes are exactly the undecoded suffix, at most three. |
| Codecs.DecodeParts | src/public/codecs.cc:25-75 | Whole sequences decode to their units one after the other, up to the end, to a partial sequence, which is kept whatever its bytes are, or to bytes that are no sequence. |
| Codecs.PartsOf | src/public/codecs.cc:25-75 | Every stream is whole sequences and one such rest. |
| Codecs.UnitsTell | src/public/codecs.cc:60-67 | The units of a code point tell it, but for U+FFFF, which is two units. |
| Codecs.DecodeChunks | src/public/codecs.cc:25-75 | Any cut into chunks, empty ones included, gives the output, status and pending bytes of the whole. |
| CodecLaws.CombinePair | src/public/codecs.cc:84-85 | The code point of a surrogate pair as it is computed. |
| CodecLaws.CarryInto | src/public/codecs.cc:85 | Or-ing in the sum adds 0x10000 exactly when bit 6 of the high unit is clear. |
| CodecLaws.EncodedBytes | src/public/codecs.cc:91-105 | Shifts and masks give the bytes of the table in section 3 of RFC 3629. |
| CodecLaws.Encode | src/public/codecs.cc:77-108 | Always succeeds and appends the encoding of the units, pairs taken together and unpaired surrogates as they are. |
| CodecLaws.DecodeEncode | src/public/codecs.cc:25-108 | Every encoding decodes, with nothing pending. |
| CodecLaws.RoundTripIff | src/public/codecs.cc:25-108 | Encoding and decoding give the units back exactly if there is no U+FFFF and no pair whose high unit has bit 6 set. |
| CodecLaws.EncodeSplitIff | src/public/codecs.cc:77-108 | Encoding two parts is encoding the whole exactly if the cut is not inside a surrogate pair. |
| CodecRfc.EncodedIsWellFormed | src/public/codecs.cc:91-105 | The encodings of scalar values are the well-formed sequences of section 4 of RFC 3629. |
| CodecRfc.DecodeWellFormed | src/public/codecs.cc:25-75 | Well-formed bytes decode, and to the UTF-16 of section 2.1 of RFC 2781 exactly when U+FFFF is not among them. |
| CodecRfc.EncodeTextIff | src/public/codecs.cc:77-108 | Encoding UTF-16 is right exactly for texts with no character of an even supplementary plane. |
| CodecRfc.WellFormedRoundTripIff | src/public/codecs.cc:25-108 | Well-formed bytes come back exactly if they have neither U+FFFF nor a character of an even supplementary plane. |
| CodecRfc.StrictHeadIff | src/public/codecs.cc:46-57 | A complete sequence passes the byte conditions exactly if its code point is a scalar value in its shortest form. |
| CodecRfc.WellFormedIff | src/public/codecs.cc:25-75 | Bytes are well-formed exactly if they decode with nothing pending and no sequence in them starts as an overlong form, a surrogate or a code point above U+10FFFF does. |
| CodecRfc.IllFormedIsAccepted | src/public/codecs.cc:118-124 | One witness of each of the three: an overlong zero, a surrogate and U+110000 all decode. |

## Left out

- Lexing and parsing of definition files: the semantic pass starts from a syntax tree.
- Expected values of fields (`= expression`): they are parsed and never used.
- `FileFileReader`, opening files and the command line: the reader contract stands for them.
- Doubles in `Number`, ordering and conversion of numbers: no file field produces a double.
- Texts, positions and offsets of errors: errors are kinds and levels, in order.
- String values in dumps: no parsed field is a string, and quotes would not be escaped.
- `FileParser` and `UtfString` overloads, option ABI structs, `CodecCollection`: thin wrappers.
- `Size::operator-=`, which adds instead of subtracting and is not used here.
- The `test_fields` mode of `FileObject`, and `InvalidValueType` options, which the parser cannot produce.
- Loops, conditionals, arrays and templates of the repository's README, which are not implemented.
- FileSystem.FileReader.Read: a failing read leaves the reader's position alone. The contract in
  the source does not say so, and `FileFileReader` need not keep it (`src/public/file_system.cc:54-61`);
  without it a window can be extended out of step (`Buffered.InStepIff`, `OutOfStep.AcrossIsRightIff`).
  The junk a failing read may leave is one byte value throughout.
- FileSystem.MemoryFileReader.constructor: not for a position past the end of the buffer, which the
  source takes and then subtracts from its size.
- Files are shorter than 2^61 bytes, so that bit positions in them do not wrap.
- Buffered.BufferedFileReader.constructor: the window size is a parameter from 9 bytes to 2^40
  instead of 64 MiB; nine bytes hold any 64-bit field.
- Objects.FileObject.GetFieldValue: only for a window in step with its reader; `EnsureField` below it
  is modelled for any window, and `OutOfStep` says what is read then.
- Objects.ReadValue: not for a definition with a null field, where the source would follow a null
  pointer. No accepted definition has one.
- Session.ParseFile: the definitions are those of an accepted file and at least one, as
  `FileParser` guarantees.
- Session.Run: values are compared by type, position and file, not by object identity; a reparse
  of a parent does not invalidate objects obtained from it before, as in the source.
- Codecs.Utf8Converter.Decode: buffers are sequences, and the error's offset is not modelled.
- Where the source has one long function the model has several methods, one for each phase or turn
  of a loop, each with its own contract.
