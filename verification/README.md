# Verified models of hiredis, rapidxml and the data layer

This project models the stateful libraries this repository is built on, and the pieces it adds to
them, as Dafny programs, and proves what they promise over every input and every run.

**hiredis.** `RespGrammar` says what one reply is, as a plain recursive grammar of the Redis
serialization protocol. `RespMachine` is the reader as it works, a stack of tasks that stops anywhere
and goes on when more bytes arrive, and proves that it reads exactly what the grammar says. `RespStream`
lifts this to whole conversations: however the bytes are cut into feeds and whenever replies are asked
for, the replies are the same. `RespReader` is the C code (scans, a three-slot task array, a buffer that
is appended to, swapped and compacted), each operation proved to be the step of the machine.
`RespEncoding` and `RespFormat` are the other direction: what a server says and what a client formats
are read back exactly. `RespOutput` adds the output buffer with partial sends, and connects both ends,
and `RespTemplates` says what formats mean. `AsyncModel`, `AsyncProofs` and `AsyncOutcomes` are the
asynchronous layer as a protocol with re-entrant callbacks, deferred free and disconnect; `CallbackList`
and `AsyncContext` are its linked list and its context object, operation by operation. `Dict` (module
`HashTable`) is the chained hash table with its relinking rehash and its iterator. `Sds` and
`SdsQuoting` are the dynamic strings, and the quoting of strings and its parser.

**rapidxml.** `XmlGrammar` is `parse<0>` as a function of the text. `XmlInPlace` is the same parser on
an array: it expands references and writes terminators into the text it is still reading, and its nodes
are offsets and lengths into that array. `XmlPrint` prints with `print_no_indenting`, and `XmlRoundTrip`
says exactly which trees survive printing and parsing, and what becomes of the others; `XmlParsed` says
what trees the parser builds, and which of those survive; `XmlCut`, what the parser makes of a text that
ends early; `XmlMarkup`, `XmlTags` and `XmlReferences`, what it makes of the markup, the spelling of
tags and the references that the printer does not write. `Utf8` is the encoder of numeric references.
`XmlSiblings` is the intrusive child list, and `MemoryPool` is the bump allocator on addresses.

**The repository's own pieces.** `RedisBuffer` collects value changes and writes them out in batches,
`RedisSyncData` and `StringValue` parse the published messages, and `RedisReplication` says when a
subscriber gets back what was written. `RedisCommands` says what hiredis makes of the batched texts,
which it is given as format strings, and which keys they write to. `FastMemcpy` is `memcpy_fast`, and
`Aabb` the swept-box and ray-box tests over the reals.

`Bits` has C's bit operators on numbers, `Bytes` bytes and decimal numerals; `Spellings` says which
characters and words the constants are.

## Where the code and what is said about it differ

- `async.c:376` performs the clean disconnect without looking at the reply list, although
  `async.c:294` asserts that the list is empty there. `CleanDisconnectOrphans` says, for every run and
  every user, when callbacks are waiting then: when fewer replies have arrived than commands were
  accepted. It happens when the user disconnects (`CleanDisconnectCanOrphan`) and when a callback does
  (`DisconnectInCallbackCanOrphan`). The assertions of the asynchronous layer are compiled out in the
  model, as in a release build; those of the reader, the formatter and the hash table are proved.
- The comment above `sdssplitargs` promises the form `"\xff\x00otherstuff"`, which it does not decode
  (`sds.c:445-452`). `SplitJoin` says what comes out, `RoundTripIff` when nothing is lost.
- `intersectMovingAABB` reports no intersection for boxes that only share a face along an axis without
  movement, although the closed boxes meet (`SharedFaceIsNoIntersection`, `TouchingIsBetween`).
- A value with a `|`, a `:` or a NUL, an empty value and a field id from 2^31 on do not survive in a
  published message (`PayloadRoundTripIff`), and hiredis, which takes the text for a format string that
  ends at the first NUL, cuts or changes a message with a space, a percent sign or a NUL in it
  (`PublishTokensIff`).
- The save command breaks in the same way, and on an empty value, which loses its argument and shifts
  those behind it (`SaveTokensIff`).
- A first key of 0 leaves the second key out of the key that is saved to (`RedisBuffer.cpp:52-57`), so
  that groups of a table with first key 0 overwrite each other (`SaveKeyIff`, `DistinctKeysIff`).
- rapidxml drops white-space-only text and joins adjacent data nodes on the way through print and parse
  (`PrintParseNormalizes`, `XmlRoundTrip.RoundTripIff`), and so not even every document that it has
  parsed survives (`ParsedSurvivesIff`): references give blank text (`BlankTextParsed`) and NULs, which
  end the printed text early (`NulTextParsed`), and markup that makes no node gives adjacent texts
  (`SplitTextParsed`).
- rapidxml reads letters as digits in decimal references as well, and numbers modulo 2^32
  (`ReferenceExpands`).
- `redisFormatCommand` and `redisFormatCommandArgv` count in an `int` without checking it, so from 2^31
  bytes on they return another length than the command has (`FormatCommandArgv`, `FormatCommand`).
- Above LONG_MAX/2 entries a hash table stays at LONG_MAX buckets, which is no power of two, and may
  hold more entries than buckets (`HashTable.NextPower`, `HashTable.Dict.Expand`).

## Model

| member | source | states |
|---|---|---|
| RespStream.ChunkIndependence | CoreLib/DataHandle/hiredis_win/hiredis.c:587-668 | for every sequence of feeds and reply reads, the replies handed out so far are a prefix of those the grammar reads in all the bytes offered, and when the reader has nothing to hand out they are all of them, with the same protocol error |
| RespStream.SameBytesSameReplies | CoreLib/DataHandle/hiredis_win/hiredis.c:587-668 | two callers that offered the same bytes cut up differently and drained their readers got the same replies, and the same error or both none |
| RespStream.GetReplyThenFeed | CoreLib/DataHandle/hiredis_win/hiredis.c:619-668 | asking for a reply early, before more bytes are fed, loses and adds nothing |
| RespMachine.RootRefines | CoreLib/DataHandle/hiredis_win/hiredis.c:333-557 | an idle reader run on any bytes delivers exactly the reply the recursive grammar reads, breaks exactly where the grammar has an error, and otherwise waits |
| RespMachine.ItemRefines | CoreLib/DataHandle/hiredis_win/hiredis.c:333-557 | inside any nesting the task stack reads one item as the grammar does, puts it into its slot of the reply tree and goes on behind it |
| RespMachine.RunExtend | CoreLib/DataHandle/hiredis_win/hiredis.c:619-648 | running on a prefix and then on the rest with more bytes appended is running on the whole: the machine can be suspended anywhere |
| RespMachine.StepOk | CoreLib/DataHandle/hiredis_win/hiredis.c:333-557 | every step keeps the stack invariant (at most three tasks, each index inside the array of its parent) and consumes input, so the loop ends and the assertions on indices hold |
| RespReader.SeekNewline | CoreLib/DataHandle/hiredis_win/hiredis.c:263-286 | the scan returns the first CR LF of the bytes, or none if there is none |
| RespReader.ReadLongLong | CoreLib/DataHandle/hiredis_win/hiredis.c:291-316 | the loop computes the grammar's number: sign, 64-bit wrap-around, and -1 for any byte that is no digit |
| RespReader.Reader.SetError | CoreLib/DataHandle/hiredis_win/hiredis.c:189-213 | an error drops reply, buffer and task stack and stays |
| RespReader.Reader.MoveToNextTask | CoreLib/DataHandle/hiredis_win/hiredis.c:333-356 | pops finished arrays and advances the first unfinished one, as the machine does |
| RespReader.Reader.ProcessLineItem | CoreLib/DataHandle/hiredis_win/hiredis.c:358-390 | a status, error or integer line is taken as the machine takes it, or nothing changes when the line is incomplete |
| RespReader.Reader.ProcessBulkItem | CoreLib/DataHandle/hiredis_win/hiredis.c:392-443 | a bulk string is taken whole or not at all, nil for a negative length |
| RespReader.Reader.ProcessMultiBulkItem | CoreLib/DataHandle/hiredis_win/hiredis.c:445-508 | nil, an empty array, or an opened array with a task for its first element; an error beyond the supported depth |
| RespReader.Reader.ProcessItem | CoreLib/DataHandle/hiredis_win/hiredis.c:510-557 | one step of the loop is one step of the machine, with the type byte kept when the item has to wait |
| RespReader.Reader.Feed | CoreLib/DataHandle/hiredis_win/hiredis.c:587-617 | the unread bytes are the old ones and the new, whether the buffer grew or was swapped; nothing happens after an error |
| RespReader.Reader.ProcessItems | CoreLib/DataHandle/hiredis_win/hiredis.c:643-646 | the loop ends in the state of the machine's run |
| RespReader.Reader.Compact | CoreLib/DataHandle/hiredis_win/hiredis.c:652-658 | removing the bytes read leaves the unread ones as they are |
| RespReader.Reader.GetReply | CoreLib/DataHandle/hiredis_win/hiredis.c:619-667 | state, result and reply of a call are those of the abstract reader |
| RespEncoding.ReplyRoundTrip | CoreLib/DataHandle/hiredis_win/hiredis.c:358-508 | every reply a server can say, with any 64-bit integers and both spellings of nil in it, encoded and followed by any bytes, is read as what is meant and reading stops at its end |
| RespEncoding.StreamRoundTrip | CoreLib/DataHandle/hiredis_win/hiredis.c:587-668 | a stream of encoded replies is read as those replies, with nothing left and no error |
| RespEncoding.LongLongOfSigned | CoreLib/DataHandle/hiredis_win/hiredis.c:291-316 | the number reader wraps the value of every numeral into 64 bits, so it is exact on a numeral if and only if a long long holds its value |
| RespEncoding.LongLongOfPlus | CoreLib/DataHandle/hiredis_win/hiredis.c:291-316 | a plus sign may stand in front |
| RespEncoding.LongLongUpToCr | CoreLib/DataHandle/hiredis_win/hiredis.c:291-316 | only what stands before the first CR counts |
| RespEncoding.LongLongOfOthers | CoreLib/DataHandle/hiredis_win/hiredis.c:291-316 | any other byte behind sign and digits makes the number -1 |
| RespEncoding.NullArrayReads | CoreLib/DataHandle/hiredis_win/hiredis.c:463-474 | the null array *-1, at every depth at which an array may stand, is nil and takes five bytes |
| RespEncoding.HeaderBelow | CoreLib/DataHandle/hiredis_win/hiredis.c:392-474 | every negative length is nil; a count of 0 or below, but for -1, is an array of that count without elements; numbers are cut to 32 bits first |
| RespEncoding.BulkReads | CoreLib/DataHandle/hiredis_win/hiredis.c:392-443 | a bulk string is read whole whatever two bytes close it |
| RespEncoding.UnknownType | CoreLib/DataHandle/hiredis_win/hiredis.c:510-557 | a byte that is none of the five types is a protocol error; one that is waits for more |
| RespEncoding.ThirdArray | CoreLib/DataHandle/hiredis_win/hiredis.c:445-456 | an array inside two others, of any sizes, is the error of too deep nesting |
| RespFormat.CommandRoundTrip | CoreLib/DataHandle/hiredis_win/hiredis.c:899-931 | a formatted command, whatever bytes its arguments hold, is read as one array of exactly those strings |
| RespFormat.PipelineRoundTrip | CoreLib/DataHandle/hiredis_win/hiredis.c:899-931 | a pipeline of commands is read back command by command with nothing left over |
| RespFormat.IntLen | CoreLib/DataHandle/hiredis_win/hiredis.c:670-681 | the division loop counts the bytes printf prints for an integer, sign included |
| RespFormat.BulkLen | CoreLib/DataHandle/hiredis_win/hiredis.c:684-686 | the size of every bulk string, header and end mark included, whose argument has that length, if an int holds the length; sizes wrap at 2^32 |
| RespFormat.Build | CoreLib/DataHandle/hiredis_win/hiredis.c:908-930 | with the right total, the bytes written fill the announced length exactly, so the assertion pos == totlen holds, and are the protocol form of the arguments |
| RespFormat.FormatCommandArgv | CoreLib/DataHandle/hiredis_win/hiredis.c:899-931 | the length returned, counted in an int that may overflow, is that of the protocol form if and only if an int holds that length, and then the block holds the protocol form and a terminator |
| RespFormat.FormatCommand | CoreLib/DataHandle/hiredis_win/hiredis.c:688-871 | every format, with literals, %s, %b, %% and printf conversions, gives the same command as the vector of its tokens, with a length as exact as that of the vector; conversions that are none, or are too long for the buffer, add nothing but take an argument |
| RespFormat.DetectConversion | CoreLib/DataHandle/hiredis_win/hiredis.c:753-789 | the scan over flags, width, precision, modifiers and specifier finds the printf conversion the grammar of formats has, or none |
| RespFormat.OnlyLiteralSpacesSplit | CoreLib/DataHandle/hiredis_win/hiredis.c:688-871 | the number of arguments depends only on where literal spaces stand: interpolated text never splits, and empty text still makes an argument |
| RespTemplates.TemplateReads | CoreLib/DataHandle/hiredis_win/hiredis.c:688-871 | a format spelled from any words, each of plain bytes, %%, %s, %b, printf conversions and unknown letters, with any spaces between and in front, takes the arguments in order and gives the command of the words with all of them in place |
| RespTemplates.ConversionReads | CoreLib/DataHandle/hiredis_win/hiredis.c:753-789 | flags, width, precision, modifier and letter in order are found as one conversion, if it is shorter than 14 bytes, whatever stands behind it |
| RespOutput.Output.AppendCommandArgv | CoreLib/DataHandle/hiredis_win/hiredis.c:1220-1240 | a formatted command whose length an int holds joins the bytes that are sent or waiting, behind all earlier ones |
| RespOutput.Output.BufferWrite | CoreLib/DataHandle/hiredis_win/hiredis.c:1097-1129 | exactly what the socket took leaves the front of the buffer and joins the bytes sent, and nothing in any other case; sent and waiting bytes stay together the commands in order; done means all are sent; an error stays |
| RespOutput.PeerReads | CoreLib/DataHandle/hiredis_win/hiredis.c:587-668 | from any prefix sent, cut up in any way, a reader at the other end gets the first of the commands whole and in order and never an error; from all of them, all |
| AsyncProofs.EachCallbackOnceInOrder | CoreLib/DataHandle/hiredis_win/async.c:185-317 | over every run of calls, reads and writes: callbacks are taken in the order they were accepted, none twice; the n-th one gets the n-th reply or NULL at the free; functions run exactly for the non-null ones; after the free none is left |
| AsyncProofs.LiveCallbacksServed | CoreLib/DataHandle/hiredis_win/async.c:366-428 | while the context lives, every reply taken from the reader was given to a callback, and accepted callbacks are those served and those waiting |
| AsyncProofs.SentAreAcceptedCommands | CoreLib/DataHandle/hiredis_win/async.c:476-501 | bytes sent and bytes waiting are exactly the bytes of the accepted commands, in order |
| AsyncProofs.StepInv | CoreLib/DataHandle/hiredis_win/async.c:220-580 | every event, with any calls the user makes inside callbacks, keeps the invariant of the protocol |
| AsyncProofs.CleanDisconnectOrphans | CoreLib/DataHandle/hiredis_win/async.c:286-382 | over every run and every user: callbacks are waiting at the asserted place if and only if the run ended in a clean disconnect and fewer replies had arrived than commands were accepted; every free without an error that nobody asked for is a clean disconnect |
| AsyncProofs.CleanDisconnectCanOrphan | CoreLib/DataHandle/hiredis_win/async.c:286-317 | whatever the user does: two commands, a disconnect and one reply, and the asserted emptiness of the list fails |
| AsyncProofs.DisconnectInCallbackCanOrphan | CoreLib/DataHandle/hiredis_win/async.c:307-382 | two commands and one reply whose callback disconnects: the deferred disconnect fails the assertion too |
| AsyncOutcomes.CleanWaits | CoreLib/DataHandle/hiredis_win/async.c:366-382 | a clean disconnect that arriving replies make happen was asked for and finds the output empty: all accepted commands are sent |
| AsyncOutcomes.CleanDisconnectHasSent | CoreLib/DataHandle/hiredis_win/async.c:366-474 | so over every run and for every user, when the event that ends it is a readable one |
| AsyncOutcomes.DisconnectPending | CoreLib/DataHandle/hiredis_win/async.c:300-317 | a disconnect asked for while callbacks wait only sets the flag |
| AsyncOutcomes.StepOutcome | CoreLib/DataHandle/hiredis_win/async.c:230-317 | how a free, a disconnect, an end or failure of the connection and a failed write end a live context, and with which error; callbacks that wait are told NULL |
| AsyncOutcomes.CommandOutcome | CoreLib/DataHandle/hiredis_win/async.c:522-580 | a command is queued with its callback until the disconnect is asked for, and refused from then on |
| AsyncOutcomes.CallbackCommands | CoreLib/DataHandle/hiredis_win/async.c:216-317 | of any calls a callback makes: each closing flag is set if and only if its call is among them, and exactly the commands before the first closing call are queued, in order |
| AsyncOutcomes.FreeInCallback | CoreLib/DataHandle/hiredis_win/async.c:411-424 | a free asked for inside a callback happens when that callback returns, and without one the loop goes on |
| AsyncOutcomes.WriteOutcome | CoreLib/DataHandle/hiredis_win/async.c:476-501 | what the socket takes is what was first in the output |
| AsyncOutcomes.RepliesServedAtOnce | CoreLib/DataHandle/hiredis_win/async.c:366-428 | over every run: while the context lives, every whole reply in the bytes received was given to its callback, and there is no protocol error in them |
| AsyncOutcomes.ErrorsMean | CoreLib/DataHandle/hiredis_win/async.c:366-428 | over every run: a protocol error is that of the bytes received, right behind the replies served; another error text is that of an error reply nobody waited for; only such a reply that is no error ends at the assertion |
| CallbackList.List.Push | CoreLib/DataHandle/hiredis_win/async.c:185-202 | a callback joins the linked list at its tail |
| CallbackList.List.Shift | CoreLib/DataHandle/hiredis_win/async.c:204-218 | the head leaves the list and is handed out, or an empty list is reported and nothing changes |
| AsyncContext.Context.Command | CoreLib/DataHandle/hiredis_win/async.c:522-580 | a command is refused once the context closes, and otherwise queues its bytes and its callback together |
| AsyncContext.Context.RunCallback | CoreLib/DataHandle/hiredis_win/async.c:220-227 | the function runs with the callback flag set, and what it calls has the effect the model gives it |
| AsyncContext.Context.AsyncFree | CoreLib/DataHandle/hiredis_win/async.c:230-276 | every waiting callback is told NULL in order, the list ends empty, and the loop ends because new commands are refused |
| AsyncContext.Context.AsyncDisconnect | CoreLib/DataHandle/hiredis_win/async.c:286-305 | with or without an error, the disconnect ends in the free, as in the model |
| AsyncContext.Context.ProcessCallbacks | CoreLib/DataHandle/hiredis_win/async.c:366-428 | the loop over replies is the model's, including deferred free, clean disconnect and replies without a callback |
| AsyncContext.Context.HandleRead | CoreLib/DataHandle/hiredis_win/async.c:455-474 | what arrives, nothing, an end or an error, leads to the model's state |
| AsyncContext.Context.HandleWrite | CoreLib/DataHandle/hiredis_win/async.c:476-501 | any part of the output may be taken, it is what was first in it, and the rest stays |
| AsyncContext.Context.Handle | CoreLib/DataHandle/hiredis_win/async.c:286-580 | whatever the program or its event loop does to a live context is a step of the model, so a context that stands where a run of events ends stands after it where the longer run ends: the theorems about runs hold of the object |
| HashTable.NextPower | CoreLib/DataHandle/hiredis_win/dict.c:306-315 | the least power of two from 4 on that holds the size, or LONG_MAX |
| HashTable.Dict.Relink | CoreLib/DataHandle/hiredis_win/dict.c:116-121 | moving one entry to the front of its new bucket keeps every other chain, and the entry is found by its hash |
| HashTable.Dict.MoveBucket | CoreLib/DataHandle/hiredis_win/dict.c:109-125 | all entries of an old bucket and no others arrive in the new table, each once |
| HashTable.Dict.Rehash | CoreLib/DataHandle/hiredis_win/dict.c:106-126 | the rehash moves every entry and counts to zero, so the assertion used == 0 holds |
| HashTable.Dict.Expand | CoreLib/DataHandle/hiredis_win/dict.c:88-132 | a rehash changes no entry and no value, fails exactly when there are more entries than asked for, and makes the least table |
| HashTable.Dict.ExpandIfNeeded | CoreLib/DataHandle/hiredis_win/dict.c:295-303 | never fails: a table without buckets gets four, a full one twice as many, up to LONG_MAX, and any other stays |
| HashTable.Dict.KeyIndex | CoreLib/DataHandle/hiredis_win/dict.c:320-337 | -1 if and only if the key is in the map, otherwise the bucket the key hashes to |
| HashTable.SlotIsModulus | CoreLib/DataHandle/hiredis_win/dict.c:320-327 | in a table of a power of two the bucket of a key is its hash modulo the size |
| HashTable.Dict.Add | CoreLib/DataHandle/hiredis_win/dict.c:135-154 | adds the key to the map if and only if it was not there |
| HashTable.Dict.Replace | CoreLib/DataHandle/hiredis_win/dict.c:160-179 | the map with the key set, and whether the key is new |
| HashTable.Dict.Delete | CoreLib/DataHandle/hiredis_win/dict.c:182-210 | the map without the key, whether it was there, and only its own chain relinked |
| HashTable.Dict.Find | CoreLib/DataHandle/hiredis_win/dict.c:243-256 | NULL if and only if the key is not in the map, otherwise the entry with its value |
| HashTable.InsertShape | CoreLib/DataHandle/hiredis_win/dict.c:145-152 | linking a new entry into the bucket of its hash keeps buckets and map in agreement, without duplicates |
| HashTable.RemoveShape | CoreLib/DataHandle/hiredis_win/dict.c:193-205 | so does unlinking one |
| HashTable.FlatShape | CoreLib/DataHandle/hiredis_win/dict.c:258-286 | the buckets in order hold every entry of the map exactly once |
| HashTable.Iterator.Next | CoreLib/DataHandle/hiredis_win/dict.c:268-286 | returns the first of the entries that are left, and then has the others left; NULL when none is |
| HashTable.DeleteReturned | CoreLib/DataHandle/hiredis_win/dict.c:182-210 | deleting the entry just returned changes nothing in what the iterator still has to return |
| HashTable.Visit | CoreLib/DataHandle/hiredis_win/dict.c:268-286 | a walk that deletes some of the entries as they are returned visits every key exactly once and leaves just the others |
| Sds.Buffer.MakeRoomFor | CoreLib/DataHandle/hiredis_win/sds.c:89-107 | contents stay; the room is there, doubled when the string had to move |
| Sds.Buffer.CatLen | CoreLib/DataHandle/hiredis_win/sds.c:128-140 | appends the bytes and keeps length, spare room and terminator right |
| Sds.Buffer.GrowZero | CoreLib/DataHandle/hiredis_win/sds.c:111-126 | appends zeros up to the length, or nothing |
| Sds.Buffer.CpyLen | CoreLib/DataHandle/hiredis_win/sds.c:146-161 | the contents become the bytes |
| Sds.Buffer.KeepRange | CoreLib/DataHandle/hiredis_win/sds.c:220-249 | the bytes from start to end with C's clamping of both, in place; length and spare room keep their sum |
| Sds.RangeDrops | CoreLib/DataHandle/hiredis_win/sds.c:220-249 | the range from n to -1 is what is behind the first n bytes, as the reader's compaction and the output buffer use it |
| Sds.RangeIs | CoreLib/DataHandle/hiredis_win/sds.c:220-254 | both ends are kept, and either may be counted from the end of the string |
| Sds.RangeOutside | CoreLib/DataHandle/hiredis_win/sds.c:220-254 | ends outside of the string stand for its first or last byte, but for a start behind it, which keeps nothing |
| Sds.Buffer.CatRepr | CoreLib/DataHandle/hiredis_win/sds.c:380-406 | appends the quoted form of the bytes |
| SdsQuoting.SplitArgs | CoreLib/DataHandle/hiredis_win/sds.c:420-503 | the vector and the count of the line's arguments; NULL and -1 on unbalanced quotes, NULL and 0 for none |
| SdsQuoting.ReadToken | CoreLib/DataHandle/hiredis_win/sds.c:439-483 | one token from its first byte, with quotes opened anywhere in it |
| SdsQuoting.SplitJoin | CoreLib/DataHandle/hiredis_win/sds.c:380-503 | splitting a line of quoted strings gives the same number of strings, unchanged but for each unprintable byte, which becomes x and two hexadecimal digits |
| SdsQuoting.RoundTripIff | CoreLib/DataHandle/hiredis_win/sds.c:380-503 | quoting and splitting gives the strings back if and only if every byte is printable or one of \n \r \t \a \b |
| SdsQuoting.JoinIsLine | CoreLib/DataHandle/hiredis_win/sds.c:380-406 | a quoted line holds no NUL, whatever was quoted |
| SdsQuoting.LineSplits | CoreLib/DataHandle/hiredis_win/sds.c:420-503 | a line of words, which may go on in quotes, with any white space between and in front, splits into those words |
| SdsQuoting.BadLine | CoreLib/DataHandle/hiredis_win/sds.c:439-470 | quotes that are not closed, or closed in front of something other than white space, make the whole line an error |
| SdsQuoting.EscapeReads | CoreLib/DataHandle/hiredis_win/sds.c:440-457 | a backslash in quotes with one of five letters is the byte that is quoted so, with any other byte that byte |
| SdsQuoting.ReprsAre | CoreLib/DataHandle/hiredis_win/sds.c:380-406 | the quoted form of every byte |
| XmlInPlace.Parser.Parse | ThirdParty/rapidxml/rapidxml.hpp:1381-1411 | on every C string the parser ends, with the grammar's error or with the grammar's tree: every name and value is a terminated string in the buffer |
| XmlInPlace.Parser.SkipAndExpand | ThirdParty/rapidxml/rapidxml.hpp:1570-1718 | the text left of dest is the expansion of the text read, dest never passes the reading position, and unread text is untouched |
| XmlInPlace.Parser.ExpandNumeric | ThirdParty/rapidxml/rapidxml.hpp:1649-1687 | a numeric reference becomes its UTF-8 bytes, never more than it took; errors for codes out of range and a missing semicolon |
| XmlInPlace.EncodedFits | ThirdParty/rapidxml/rapidxml.hpp:1511-1554 | no numeric reference is shorter than the bytes it is replaced with |
| XmlInPlace.Parser.InsertCoded | ThirdParty/rapidxml/rapidxml.hpp:1511-1554 | writes exactly the encoding at dest |
| XmlInPlace.Parser.ParseAttributes | ThirdParty/rapidxml/rapidxml.hpp:2237-2298 | names and values of all attributes, terminated in place behind the reading position |
| XmlInPlace.Parser.ParseElement | ThirdParty/rapidxml/rapidxml.hpp:2037-2077 | the element the grammar reads, although its name's terminator is written after its contents were read |
| XmlInPlace.Parser.ParseNode | ThirdParty/rapidxml/rapidxml.hpp:2081-2163 | the node, or none for markup that makes no node, with the reading position behind it |
| XmlInPlace.Parser.ParseContents | ThirdParty/rapidxml/rapidxml.hpp:2167-2233 | children and value of an element, with the < that a terminator has overwritten still known |
| XmlInPlace.Parser.AppendData | ThirdParty/rapidxml/rapidxml.hpp:1940-1994 | a data node, and the element's value if it has none yet; the byte that ended the text is saved before it is overwritten |
| XmlInPlace.Parser.ParseCData | ThirdParty/rapidxml/rapidxml.hpp:1998-2033 | the CDATA text up to the first end mark |
| XmlInPlace.Parser.SkipDoctype | ThirdParty/rapidxml/rapidxml.hpp:1814-1876 | past the matching >, with nested brackets, or an error at the end of the text |
| XmlInPlace.Parser.SkipPast | ThirdParty/rapidxml/rapidxml.hpp:1773-1787 | past the first end mark, or an error at the end of the text |
| XmlInPlace.NodeStays | ThirdParty/rapidxml/rapidxml.hpp:2037-2077 | writing outside the part of the buffer a tree lies in leaves the tree as it is |
| Utf8.DecodeEncode | ThirdParty/rapidxml/rapidxml.hpp:1511-1554 | every code below 0x110000 is written as bytes that decode to it (section 3 of RFC 3629) |
| Utf8.WellFormedIffNoSurrogate | ThirdParty/rapidxml/rapidxml.hpp:1511-1554 | the bytes are a sequence RFC 3629 allows if and only if the code is no surrogate |
| XmlReferences.ReferenceExpands | ThirdParty/rapidxml/rapidxml.hpp:1649-1687 | any digits in base 16 or 10, of either case, between &#x or &# and a semicolon make the UTF-8 bytes of their number modulo 2^32, or the error if it is no code |
| XmlReferences.HexadecimalExpands | ThirdParty/rapidxml/rapidxml.hpp:1650-1664 | every code written in base 16, in letters of either case, expands to its bytes |
| XmlReferences.DecimalExpands | ThirdParty/rapidxml/rapidxml.hpp:1664-1678 | every code written in base 10 expands to its bytes |
| XmlPrint.CopyAndExpandChars | ThirdParty/rapidxml/rapidxml_print.hpp:47-81 | the loop writes the escaped form of the text, leaving out the one character excepted |
| XmlPrint.WriteAttributes | ThirdParty/rapidxml/rapidxml_print.hpp:178-204 | attributes in order, each in quotes its value does not contain when there are such |
| XmlPrint.WriteNode | ThirdParty/rapidxml/rapidxml_print.hpp:107-165 | the printed form of the node is appended to the output |
| XmlPrint.WriteElement | ThirdParty/rapidxml/rapidxml_print.hpp:242-294 | an element with its value, its only data child or its children between the tags, or a closed tag |
| XmlPrint.WriteChildren | ThirdParty/rapidxml/rapidxml_print.hpp:169-174 | the printed forms of the children in order |
| XmlRoundTrip.PrintParseNormalizes | ThirdParty/rapidxml/rapidxml_print.hpp:107-294 | for every document with legal names and NUL-free text, parsing the printed text gives the document in normal form: adjacent text joined, blank text dropped, values set to the first text |
| XmlRoundTrip.RoundTripIff | ThirdParty/rapidxml/rapidxml_print.hpp:107-294 | a document with legal names and NUL-free text survives unchanged if and only if it has no blank text, no adjacent texts, and every element has its first data child for its value |
| XmlRoundTrip.NormalFormsSurvive | ThirdParty/rapidxml/rapidxml_print.hpp:107-294 | one round trip reaches a form that every further one keeps |
| XmlRoundTrip.ExpandEscape | ThirdParty/rapidxml/rapidxml_print.hpp:47-81 | expanding an escaped text gives the text back |
| XmlRoundTrip.ContentsRead | ThirdParty/rapidxml/rapidxml.hpp:2167-2233 | printed children, with text before them and the closing tag behind, are read as their normal forms |
| XmlRoundTrip.PrintedIsCString | ThirdParty/rapidxml/rapidxml_print.hpp:107-294 | printing puts no NUL into the text |
| XmlParsed.ParseBuilds | ThirdParty/rapidxml/rapidxml.hpp:1940-2298 | every parsed tree has legal names, no empty data, CDATA that ends at its first end mark, and for the value of an element its first data that does not start with a NUL, or the last if all do |
| XmlParsed.ParsedPrints | ThirdParty/rapidxml/rapidxml.hpp:1381-1411 | every parsed document is one that can be printed if and only if no text in it holds a NUL, and then parsing the printed text gives its normal form |
| XmlParsed.ParsedSurvivesIff | ThirdParty/rapidxml/rapidxml_print.hpp:107-294 | every parsed document survives being printed and parsed unchanged if and only if, at any depth, no text in it holds a NUL, no text is blank and no two texts are adjacent; text with a NUL is printed up to it |
| XmlParsed.BlankTextParsed | ThirdParty/rapidxml/rapidxml.hpp:1570-1718 | a text that parses to a blank data node |
| XmlParsed.SplitTextParsed | ThirdParty/rapidxml/rapidxml.hpp:2138-2159 | a text that parses to two adjacent data nodes |
| XmlParsed.NulTextParsed | ThirdParty/rapidxml/rapidxml.hpp:1649-1687 | a text that parses to data with a NUL, of which printing leaves text that does not parse |
| XmlMarkup.DocumentReads | ThirdParty/rapidxml/rapidxml.hpp:1381-1411 | a document that may start with a byte order mark and has comments, instructions, declarations, DOCTYPEs and white space around its nodes parses to the normal forms of the nodes alone |
| XmlMarkup.MiscReads | ThirdParty/rapidxml/rapidxml.hpp:1767-1910 | a comment up to its first end mark, an instruction or the XML declaration, a DOCTYPE with nested brackets, and any other declaration up to its > are skipped and make no node |
| XmlMarkup.MiscInElement | ThirdParty/rapidxml/rapidxml.hpp:2167-2233 | between the children of an element as well |
| XmlTags.AttributeWritten | ThirdParty/rapidxml/rapidxml.hpp:2237-2298 | an attribute with white space around its = and either quote around its value is read |
| XmlTags.ClosingWritten | ThirdParty/rapidxml/rapidxml.hpp:2180-2207 | a closing tag of any name, with white space before its >, ends the element |
| XmlTags.NamedIff | ThirdParty/rapidxml/rapidxml.hpp:1596-1647 | the named references are the five that the printer writes, and no others |
| XmlTags.ClassesAre | ThirdParty/rapidxml/rapidxml.hpp:2306-2538 | which bytes end white space, names, texts and values |
| XmlTags.DigitsAre | ThirdParty/rapidxml/rapidxml.hpp:2539-2561 | digits are 0 to 9 and the letters a to f in either case |
| XmlTags.NameMissing | ThirdParty/rapidxml/rapidxml.hpp:2037-2047 | where a name should stand, an error there |
| XmlTags.EqualsMissing | ThirdParty/rapidxml/rapidxml.hpp:2255-2259 | an attribute without = is an error where it should stand |
| XmlTags.QuoteMissing | ThirdParty/rapidxml/rapidxml.hpp:2268-2275 | a value without a quote is an error where it should stand |
| XmlTags.GtMissing | ThirdParty/rapidxml/rapidxml.hpp:2049-2068 | a tag that does not end behind its attributes is an error |
| XmlTags.SemicolonMissing | ThirdParty/rapidxml/rapidxml.hpp:1680-1687 | a numeric reference of a code without its semicolon is an error behind its digits |
| XmlTags.TextOutside | ThirdParty/rapidxml/rapidxml.hpp:1396-1408 | text outside of the elements is an error where it starts |
| Spellings.MarkupWords | ThirdParty/rapidxml/rapidxml.hpp:1596-2146 | the marks of comments, instructions, CDATA and DOCTYPE, the names of references and the byte order mark, in letters |
| XmlCut.NodeCut | ThirdParty/rapidxml/rapidxml.hpp:2037-2233 | a text cut anywhere inside a node is an error, and cut anywhere behind it gives the same node |
| XmlCut.CutDocument | ThirdParty/rapidxml/rapidxml.hpp:1381-1411 | a document cut anywhere parses, if at all, to its first nodes, each as it was |
| XmlCut.ExpandCut | ThirdParty/rapidxml/rapidxml.hpp:1570-1718 | text cut behind its end expands to the same bytes; cut inside, it ends at the cut or is an error |
| XmlSiblings.XmlNode.PrependNode | ThirdParty/rapidxml/rapidxml.hpp:1076-1092 | the child becomes the first; parent and both sibling links of every child are right |
| XmlSiblings.XmlNode.AppendNode | ThirdParty/rapidxml/rapidxml.hpp:1097-1113 | the child becomes the last; parent and both sibling links of every child are right |
| XmlSiblings.XmlNode.InsertNode | ThirdParty/rapidxml/rapidxml.hpp:1119-1136 | the child stands before the one given, or at the end for NULL |
| XmlSiblings.XmlNode.RemoveFirstNode | ThirdParty/rapidxml/rapidxml.hpp:1140-1151 | the first child leaves and has no parent |
| XmlSiblings.XmlNode.RemoveLastNode | ThirdParty/rapidxml/rapidxml.hpp:1155-1167 | the last child leaves and has no parent |
| XmlSiblings.XmlNode.RemoveNode | ThirdParty/rapidxml/rapidxml.hpp:1171-1185 | the child leaves, wherever it stands, and the others keep their order |
| XmlSiblings.XmlNode.RemoveAllNodes | ThirdParty/rapidxml/rapidxml.hpp:1188-1193 | no children are left, and none of them has a parent |
| MemoryPool.Pool.AllocateAligned | ThirdParty/rapidxml/rapidxml.hpp:599-631 | over any run: the block is aligned, inside the current pool, and apart from all blocks, headers and pools before it |
| MemoryPool.Pool.Refill | ThirdParty/rapidxml/rapidxml.hpp:604-625 | after one refill the block fits wherever the memory lies: the slack of twice the alignment less two suffices |
| MemoryPool.Pool.Clear | ThirdParty/rapidxml/rapidxml.hpp:525-537 | frees every allocated pool exactly once, newest first, and is back at the static block |
| MemoryPool.Pool.Init | ThirdParty/rapidxml/rapidxml.hpp:566-571 | an empty pool in the static block, the next block starting at its first aligned address |
| Bits.AlignIs | ThirdParty/rapidxml/rapidxml.hpp:573-577 | the masked expression is the next multiple of the alignment |
| RedisBuffer.RedisBuffer.AddValueChange | CoreLib/DataHandle/RedisAdapter/RedisBuffer.cpp:30-33 | the buffer with the value under table, first key, second key and field; every level stays non-empty; the table is that of `TableIs` |
| RedisBuffer.TableIs | CoreLib/DataHandle/RedisAdapter/RedisBuffer.cpp:30-33 | the table of a field is its number without the low byte |
| RedisBuffer.LastValueWins | CoreLib/DataHandle/RedisAdapter/RedisBuffer.cpp:7-33 | after any changes, what is found for a field is the value written last |
| RedisBuffer.GroupsHave | CoreLib/DataHandle/RedisAdapter/RedisBuffer.cpp:35-68 | the groups Batch visits are those of the nested maps, each exactly once |
| RedisBuffer.RedisBuffer.Batch | CoreLib/DataHandle/RedisAdapter/RedisBuffer.cpp:35-69 | the commands of all groups in order and an empty buffer, or the commands before the first missing name and the buffer as it was |
| RedisBuffer.EmitsEachGroup | CoreLib/DataHandle/RedisAdapter/RedisBuffer.cpp:48-65 | with all names registered, one save and one publish command for each group |
| RedisBuffer.BatchGroup | CoreLib/DataHandle/RedisAdapter/RedisBuffer.cpp:48-64 | the two texts of a group, with the value of every field under its name and under its number, or the missing field name; what hiredis makes of them is `RedisCommands` |
| Spellings.RedisWords | CoreLib/DataHandle/RedisAdapter/RedisBuffer.cpp:46-48 | the two command words, in letters |
| StringValue.SplitOut | CoreLib/DataHandle/TData/StringValue.h:217-231 | the pieces between separators, without an empty last one |
| StringValue.SplitWord | CoreLib/DataHandle/TData/StringValue.h:217-231 | a text without separators in front of one is the first piece |
| StringValue.StoiReads | CoreLib/DataHandle/RedisAdapter/RedisSyncData.h:50 | white space, a sign, digits and anything behind them give the signed number if and only if an int holds it |
| StringValue.StoullReads | CoreLib/DataHandle/RedisAdapter/RedisSyncData.h:29-30 | and the number modulo 2^64 if and only if its magnitude is below 2^64 |
| StringValue.NothingRead | CoreLib/DataHandle/RedisAdapter/RedisSyncData.h:29-50 | without a digit there, both throw |
| RedisSyncData.RedisSyncData.Parse | CoreLib/DataHandle/RedisAdapter/RedisSyncData.h:23-62 | fields and outcome, including what is set before a failure or a thrown number error |
| RedisSyncData.KeysParse | CoreLib/DataHandle/RedisAdapter/RedisSyncData.h:31-38 | messages starting with A and D say that the keys were added and deleted, whatever stands behind them; other letters leave the kind as it was |
| RedisSyncData.FieldsParse | CoreLib/DataHandle/RedisAdapter/RedisSyncData.h:39-58 | a message starting with S gives the fields behind the keys one after the other, and none is a rejection |
| RedisSyncData.FieldParses | CoreLib/DataHandle/RedisAdapter/RedisSyncData.h:45-55 | a field gives its value to the number before the colon modulo 2^32 if an int holds the number, and throws otherwise |
| RedisSyncData.ParsedValuesClean | CoreLib/DataHandle/RedisAdapter/RedisSyncData.h:23-62 | no value parsed from a message has a separator or a NUL in it |
| RedisReplication.PayloadRoundTripIff | CoreLib/DataHandle/RedisAdapter/RedisSyncData.h:23-62 | a subscriber parses back the published field map if and only if every value is non-empty and free of separators and NUL, and every id is below 2^31 |
| RedisReplication.GroupsAreLastValues | CoreLib/DataHandle/RedisAdapter/RedisBuffer.cpp:30-68 | after any changes the groups hold the last value of every field written, in one group, of the table that is the field number without its low byte, and nothing else |
| RedisCommands.PublishTokensIff | CoreLib/DataHandle/RedisAdapter/RedisBuffer.cpp:51-64 | hiredis makes command, channel and message of the publish text if and only if no value has a space, a percent sign or a NUL |
| RedisCommands.SaveTokensIff | CoreLib/DataHandle/RedisAdapter/RedisBuffer.cpp:48-64 | hiredis makes HMSET, key, and each field with its value of the save text if and only if the key, every field name and every value are non-empty and have no space, percent sign or NUL |
| RedisCommands.SaveKeyIff | CoreLib/DataHandle/RedisAdapter/RedisBuffer.cpp:49-57 | with different table names without colons, two groups are saved under one key if and only if they share table and first key and, unless that is 0, the second key |
| RedisCommands.DistinctKeysIff | CoreLib/DataHandle/RedisAdapter/RedisBuffer.cpp:35-68 | with such names, the groups of a batch are saved under different keys if and only if no two of one table have first key 0 |
| RedisCommands.WordsIff | CoreLib/DataHandle/hiredis_win/hiredis.c:688-871 | a text made of words is read by the format loop as those words if and only if they are non-empty and have no space, percent sign or NUL, but for a percent sign that ends the text, which stands for itself |
| FastMemcpy.Copier.Copy | CoreLib/Utils/FastMemcpy.h:579-685 | for every size, every pair of alignments and every two regions that do not overlap, of one buffer or of two, the destination gets the source bytes and no other byte changes; every load and store that must be aligned is at a multiple of 16, and how many of them there are |
| FastMemcpy.Copier.Tiny | CoreLib/Utils/FastMemcpy.h:86-573 | the stores of the jump table copy every size up to 128 and touch nothing else |
| FastMemcpy.StoresCover | CoreLib/Utils/FastMemcpy.h:90-570 | every case of the switch, fall-through included, covers its size without a gap and stays inside it |
| FastMemcpy.Copier.Blocks | CoreLib/Utils/FastMemcpy.h:601-679 | the loops copy whole blocks of 128 with strict accesses at multiples of 16 only, and leave less than one |
| FastMemcpy.Padding | CoreLib/Utils/FastMemcpy.h:592 | the padding takes the destination to the next multiple of 16 |
| Aabb.RayIntersect | CoreLib/Math/AABB3.cpp:301-443 | a result up to 1 if and only if the segment meets the box, and then the least parameter at which it does |
| Aabb.EntryFacts | CoreLib/Math/AABB3.cpp:316-365 | before the parameter of the near face, and when the movement is too short, the coordinate is outside |
| Aabb.RayGone | CoreLib/Math/AABB3.cpp:378-437 | a ray that is outside when the last axis is entered never is inside |
| Aabb.MeetsFace | CoreLib/Math/AABB3.cpp:391-437 | checking the two other axes decides whether the point is in the box |
| Aabb.IntersectMovingAABB | CoreLib/Math/AABB3.cpp:633-801 | a result up to 1 if and only if the boxes touch at some time from 0 to 1, and then the first such time; the result is the first meeting of the closed boxes, or that they never meet, if and only if they overlap strictly on every axis without movement or never meet |
| Aabb.ClipAxis | CoreLib/Math/AABB3.cpp:656-701 | what is left of the time interval are exactly the times at which the axis touches |
| Aabb.TouchingIsBetween | CoreLib/Math/AABB3.cpp:633-801 | no intersection means the interiors never overlap; touching is meeting of the closed boxes, given strict overlap on the axes without movement |
| Aabb.SharedFaceIsNoIntersection | CoreLib/Math/AABB3.cpp:658-670 | two cubes at rest that share a face meet, and are no intersection |

## Left out

- Sockets, timeouts and error numbers: what `send` and `recv` return is a parameter, a send takes any part of the buffer.
- Failing `malloc` and `realloc`, freeing in C, reference counts: allocation succeeds. What a pool's allocation function returns is a parameter.
- Positions from 2^31 on in the reader, where hiredis' `int` overflows: `RespReader` counts without bound.
- RespFormat.FormatCommandArgv: what is written when the total has overflowed, into a block of another size, is undefined in C and left out; the round trips ask for lengths an `int` holds.
- RespFormat.FormatCommand: asks for a format without NUL, as C strings are, and for enough arguments; the text vsnprintf makes of a conversion is the argument, and every conversion takes one, whatever its size on the stack.
- RespOutput.Output.AppendCommandArgv: asks for a command whose length an `int` holds, without which the bytes appended are not defined.
- The reply tree of the reader is a value: `parent->element[idx] = r` is a store at the path of the tasks' indices. `elements` of a task is the number read from the header, `privdata` and the reply object functions are fixed.
- RespReader.Reader.Feed: allocation slack of the buffer is a number that decides about the buffer swap, not memory.
- Pub/sub: commands of the subscribe family, replies for channels, `monitor`; `onConnect` and `onDisconnect` callbacks. `async.c:343-357` leaves its result unset for an unknown channel.
- The blocking calls built on the reader and the output buffer (`redisCommand` and its family).
- Key and value duplication, destructors and custom key comparison of the hash table: keys are compared with equality, `_dictClear` and `dictRelease` only free.
- HashTable.Dict.Delete: the freed entry is not made unusable; the iterator is proved not to touch it again.
- `sdstrim`, `sdssplitlen`, case conversion and comparison of strings, `sdscatvprintf`.
- SdsQuoting.ReadToken: works on the line and a position; its string grows by concatenation instead of through `sdscatlen`.
- rapidxml's flags, at 0 throughout: no comments, declarations, processing instructions or DOCTYPE nodes in the tree, no trimming, no entity-translation switch, no closing-tag check; indentation when printing.
- XmlInPlace.Parser.AppendChild: the parser's child and attribute lists are sequences, appended to as `append_node` and `append_attribute` do; the linked child list is proved on its own in `XmlSiblings`, and attribute lists work the same way.
- XmlSiblings.XmlNode.RemoveNode: that a node whose parent is this one is among its children is asked for, where the code asserts the parent only.
- XmlInPlace.Parser.Parse: node and attribute memory comes from nowhere; `MemoryPool` is proved on its own.
- MemoryPool.Pool.AllocateAligned: addresses are unbounded numbers, and only the headers' memory has contents.
- RedisCommands.WordsIff: a text with a conversion other than %% has no arguments to convert, and counts as not read.
- RedisBuffer.RedisBuffer.Batch: the commands are a result, in the order in which they are given to the callback.
- `TimeUtils.cpp`, the scheduler, `RedisListen`, `RedisAdapter`, `TRepeated`: not modelled; replication from end to end does not hold as coded (`RedisListen.cpp:55` passes the table key for the field key, `RedisAdapter.cpp:36-37` iterates an empty map).
- FastMemcpy.Copier.Copy: prefetching and the memory fence do nothing here; bytes are moved one at a time inside a load and store of 16.
- Aabb.RayIntersect: the normal it can return is left out, and rounding: numbers are reals, the boxes not empty.
- The rest of the math code: `AABB3::add` compares the wrong axis for boxes (`AABB3.cpp:103-106`), the others are loop-free algebra.
- MySQL, Boost.Asio, endpoints, logging.
