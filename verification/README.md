# PigCloud upload scanner: a verified model

The daemon takes an encrypted upload, decrypts it, has it examined by clamd and by its own checks, and
answers with a verdict and, where a sanitizer changed the content, a new encrypted file. This project
models the parts in which the order of steps, the bytes of a format or the numbers in a counter decide
whether that is right, and proves what those parts promise.

| files | what they model |
|---|---|
| `WorkQueue`, `QueueProtocol` | the connection queue: the ring, and the monitor protocol of any number of threads, waits, spurious wakeups and shutdown |
| `SubmitterTable`, `ScanProtocol` | the table of users with scans in flight, and eight workers that take and give back slots, bytes and counts in any interleaving |
| `Nonce`, `ChunkedFile`, `RequestNumbers` | the counter nonce and the chunked encrypted file, written and read by loops; the numbers of a request |
| `ClamAv` | the INSTREAM wire format, the streaming session and the buffer scan, and what clamd says |
| `MetadataMac` | the canonical metadata text and the MAC over it |
| `ScanPipeline`, `TextSanitizer` | one scan from request to reply, with every way out; the text sanitizer |
| `AuditChain`, `AuditLog`, `AuditHistory` | the day files of the audit log as chains of signed lines, whole runs of the logger, and what the files say of the calls |
| `SvgFilter`, `SvgHandlers`, `SvgSanitizer`, `SvgReader`, `SvgKept`, `SvgSniff` | the SVG filter as a tree function, as streaming handlers, as a state object with a growing buffer; reading its output back; what it leaves, by positions in names and values; and how an SVG is recognised |
| `GifWalk`, `PngWalk`, `WebpWalk`, `JpegProbe` | the image walkers against the grammars of their formats |
| `ArchiveChecks`, `Inflate`, `ZipWalk`, `ZipArchive`, `TarWalk`, `TarArchive`, `TarNames`, `NestedArchives` | the archive inspections, the archives they are to accept, what the members of a tar archive are really called, and archives inside archives |
| `KeyFile`, `KeyStore` | the enclave's key file through crashes, power losses and changing environment keys |
| `Bytes`, `Limits` | byte strings and fixed-width integers; the sizes that several parts share |

`dafny verify dfyconfig.toml` checks all of it.

**Shape.** Code that changes things step by step is a method or a class with the source's own fields; it
is proved equal to a function, and the theorems are about that function or about runs of a transition
system whose steps are the source's critical sections, atomic operations or system calls. Foreign code
(the AEAD cipher, SHA-256, HMAC, the JSON codec, zlib) is a function parameter with stated laws, and for
each set of laws a lemma shows that it can be met. How clocks, sockets, detectors, the signer and clamd
turn out during a scan is an argument of it (`ScanPipeline.World`), and what is proved says which outcomes
give which reply; other system calls that may fail do so arbitrarily, and the directory of the key file
counts those that did. Parser input for the SVG filter is the event stream of a tree.

**Where the code and its promise differ.** Each with an input that shows it and the condition under which
it does not happen. Where the condition is a limit on a length or a kind, what is proved is that the code
is right about all inputs within the limit, and not about all of them for any wider one.

- Decryption compares the *ciphertext* size with the limit for plaintexts, so a plaintext is returned
  exactly when its size and 20 bytes a chunk fit in 5 GiB (`ChunkedFile.RoundTrip`); one of the largest
  size the request parser allows never is (`ChunkedFile.LargestPlaintextIsRefused`).
- Memory is reserved for three times the announced size, but the plaintext buffer is as large as the
  file. A reservation covers its buffer exactly when the announced size is not zero and the file is at
  most three times that (`ScanProtocol.BuffersBehindReservations`). All eight workers can hold 5 GiB each
  with nothing reserved (`ScanProtocol.UnpaidBuffers`); a size of 0 and one chunk pass the parser and
  decrypt to 1 MiB (`ChunkedFile.UnreservedUpload`).
- A scan leaves its clamd stream open exactly when one was begun, the file decrypts, and the metadata MAC
  does not hold (`ScanPipeline.Daemon.HandleScan`, `ScanPipeline.ForgedUploadExists`), and the sanitizer's
  buffer unfreed exactly when it answers "sanitized" with no bytes (`ScanPipeline.Daemon.HandleScan`).
- Of clamd's answer the first 511 characters are kept. A virus whose name leaves no room there for the
  word "FOUND" is heard as one only if that word stands in front of there; else as an error, which is
  a rejection too, and never as clean unless the name has a space or starts with "OK"
  (`ClamAv.FoundIsHeard`, `ClamAv.LongNameIsNotHeard`).
- A second process may append to a day file. A record written from a cached position then keeps the
  file a chain exactly when nobody has appended since (`AuditLog.CachedPositionMustBeCurrent`); of one
  process everything is proved.
- The SVG filter lowercases attribute names, and two that differ before may not after. What it writes is
  accepted by an XML parser exactly when no element is left with a name twice (`SvgReader.OutputIsRead`,
  `SvgReader.RepeatedNameIsWritten`).
- Of texts, exactly the byte order mark alone is sanitized to nothing (`TextSanitizer.NothingLeftExactly`),
  and that is exactly when a sanitized text gets no new file (`ScanPipeline.OnlyTheMarkGetsNoFile`).
- The path check refuses a leading slash and ".." before a separator. An accepted path still leaves its
  directory exactly when it starts with a backslash or is nothing but a final ".."
  (`ArchiveChecks.AcceptedPathStaysInside`, `ArchiveChecks.RootedBackslashIsAccepted`,
  `ArchiveChecks.ClimbIsAccepted`).
- The zip inspection looks at 511 bytes of the name in the directory, not at a Unicode Path extra field or
  at the name in the local header. Of the archives that `ZipArchive` writes it is right about all
  exactly where names are no longer and entries have no other names (`ZipArchive.NamesAreExact`,
  `ZipArchive.ClimbingNameIsAccepted`, `ZipArchive.OtherNamesAreAccepted`).
- The tar inspection drops a prefix that does not fit before the name in 255 bytes; it does not look at
  the names that GNU long-name and pax headers give, and takes one kind of pax header for a member; and it
  takes what a link, device, directory or FIFO gives for its size to be stored behind it, where nothing is.
  Of the archives that `TarArchive` writes it is right about all exactly without those
  (`TarNames.PrefixLimitIsExact`, `TarNames.LongPrefixClimbs`; `TarNames.KindsAreExact`,
  `TarNames.RenamingIsJudgedWrong`; `TarNames.SizesAreExact`, `TarNames.HiddenMemberIsPassed`).
- The tar inspection sums sizes in 64 signed bits. It says "clean" of a clean archive, and also of one
  whose last header makes that sum wrap around (`TarWalk.VerdictExactly`, `TarArchive.OverflowIsPassed`);
  with octal sizes only of a clean one (`TarWalk.OctalSizesAreCounted`). Overflow of a signed integer is
  taken to wrap, which C leaves open.
- A start makes new keys over an existing file exactly when the file does not load and access() does not
  report it either (`KeyStore.RotatesExactlyWhenMissed`, `KeyStore.MissedFileIsReplaced`); the stability
  of the keys is proved of runs in which that does not happen.

## Model

| member | source | states |
|---|---|---|
| WorkQueue.Ring.Push | admission.c:15-31 | one pass of a blocking push: appends to the queue's contents, waits exactly when full, refuses after shutdown |
| WorkQueue.Ring.TryPush | admission.c:33-46 | accepts exactly when there is room and no shutdown, and then appends |
| WorkQueue.Ring.Pop | admission.c:48-64 | takes the oldest entry; reports the end only when shut down and empty |
| QueueProtocol.StepKeepsInv | admission.c:15-73 | every step of every thread keeps the wakeup and ordering invariant |
| QueueProtocol.NoLostWakeup | admission.c:15-73 | in every reachable state: entries are at most the woken consumers while one sleeps, free places at most the woken producers, and a woken thread can make the next move |
| QueueProtocol.ShutdownReleasesEveryone | admission.c:66-73 | after shutdown nobody sleeps, nobody falls asleep, nothing more is accepted |
| QueueProtocol.FifoDelivery | admission.c:6-73 | what was handed out is a prefix of what was accepted; the end is reported only when they are equal |
| SubmitterTable.Table.Acquire | admission.c:148-177 | the scanning loop refines a map from users to counts; 0 exactly when the user may have one more |
| SubmitterTable.Table.Release | admission.c:179-197 | gives back one scan of that user and touches nobody else |
| SubmitterTable.Table.InFlight | admission.c:199-211 | the user's count in the map |
| SubmitterTable.ReleaseUndoesAcquire | admission.c:148-197 | release after acquire restores the map, and acquire counts one for that user only |
| SubmitterTable.UsedCountsUsers | admission.c:213-224 | used slots and users in the map are equally many, so ids are unique |
| ScanProtocol.StepKeepsInv | main.c:726-1056 | every atomic step of every worker, on every way out, keeps the counters equal to what workers hold |
| ScanProtocol.MemoryBudget | admission.c:75-88 | the raw counter is the sum of what workers have added; admitted reservations stay within the budget |
| ScanProtocol.BuffersBehindReservations | crypto.c:396-401 | a reservation covers the buffer exactly when the announced size is not zero and the file is at most three times that; covered buffers are together within the budget, all buffers within eight times the largest file |
| ScanProtocol.UnpaidBuffers | main.c:769-770 | that bound is met, with a counter of zero, in reachable states |
| ScanProtocol.ShedOnlyOverBudget | admission.c:75-83 | what the counter reads is the scan's reservation and those of the workers at that instant; an idle daemon admits any scan |
| ScanProtocol.DecisionIsByTheRead | admission.c:75-83 | sheds and takes the reservation back exactly when what the counter read at the addition exceeds the budget, and admits otherwise |
| ScanProtocol.QuiescentMeansZero | main.c:726-1056 | no scan in flight exactly when all workers are idle, and then bytes and slots are all given back |
| ScanProtocol.RefusedOnlyAtOwnLimit | admission.c:148-177 | each count is that user's scans in flight; a user is refused exactly at the own limit, never for want of slots |
| ScanProtocol.UndisturbedScan | main.c:726-788 | a worker that is not disturbed up to the decision is counted, has its slot, and is admitted exactly if its reservation fits beside what is in the counter; these are the counts that `ScanPipeline.Daemon.HandleScan` holds |
| Nonce.Increment | crypto.c:596 | the carry loop adds one in place, little-endian |
| Nonce.RippleIsNext | tests/e2e_test.py:46-52 | adding a carry through all bytes equals stopping at the first byte that does not wrap |
| Nonce.NonceAtValue | crypto.c:471 | after i increments the nonce stands for its start plus i, modulo 256 to the number of bytes |
| Nonce.NoncesDistinct | crypto.c:596 | nonces fewer than a full turn apart differ |
| ChunkedFile.EncryptFile | crypto.c:526-616 | the loop writes exactly the frames of the chunks of the text, at least one, frame i under nonce + i and index i |
| ChunkedFile.ChunksShape | crypto.c:557-600 | the chunks join to the text and are max(1, ceil(n / 1 MiB)) many |
| ChunkedFile.FileSize | crypto.c:557-600 | the file is 20 bytes a chunk longer than the text |
| ChunkedFile.DecryptFile | crypto.c:358-524 | the loop computes the acceptance function; a clamd stream has been fed exactly the chunks, and is broken exactly if they are more than it may carry or its socket takes |
| ChunkedFile.DecryptFrames | crypto.c:425-477 | the frame loop reads exactly the chunks, and its guard against overrunning the output never fires |
| ChunkedFile.AcceptedExactlyWhenWritten | crypto.c:358-524 | a file is accepted exactly when it is the expected number of frames, frame i sealed under nonce + i and index i, and the claimed digest is absent or that of the plaintext |
| ChunkedFile.DigestDecides | crypto.c:498-517 | with a claimed digest a file yields what it yields without if that has this digest, and else nothing; with a malformed one nothing |
| ChunkedFile.RoundTrip | crypto.c:358-616 | what is encrypted decrypts to itself if and only if the ciphertext is within the limit |
| ChunkedFile.LargestPlaintextIsRefused | crypto.c:390-391 | a plaintext of exactly the largest allowed size is refused on decryption |
| ChunkedFile.UnreservedUpload | main.c:576-579 | announced as empty, so with nothing reserved, a file of one chunk passes and decrypts to 1 MiB |
| ChunkedFile.WrittenCountIsPlausible | main.c:576-579 | every written chunk count passes the request parser's window |
| RequestNumbers.ParseNumbers | main.c:547-579 | accepts exactly finite numbers with a version from 2 on, a chunk size of 1 MiB but for a fraction, a size of up to 5 GiB, and a positive count off by at most one; and gives them without their fractions |
| ChunkedFile.FramesHaveOwnNonces | crypto.c:358-524 | no two frames of an acceptable file share a nonce or an index |
| ClamAv.FramesRead | clamav.c:97-146 | clamd's reader takes a framed stream apart into the bytes that were framed |
| ClamAv.TerminatorCloses | clamav.c:97-146 | whatever frames carried the data, the terminator makes the session read as exactly that data |
| ClamAv.ClamStream.Feed | clamav.c:195-214 | appends the chunk to what the session carries, or breaks for good, exactly if that is over the cap or the socket takes no more |
| ClamAv.ClamStream.Finish | clamav.c:216-266 | infected, or clean, exactly if the stream is whole, the terminator goes out and clamd says so; clamd then was handed exactly the data; the stream is closed whatever it says |
| ClamAv.ScanBuffer | clamav.c:56-149 | the same for a whole buffer, cut into frames, exactly if it connects and the socket takes them all; which failure gives which other verdict |
| ClamAv.ReceiveLine | clamav.c:38-54 | the loop reads the first line of what clamd prints, or 511 characters of it |
| ClamAv.ClassifyExactly | clamav.c:121-148 | infected exactly if " FOUND" stands somewhere in the line; clean exactly if " OK" does and that does not; too large exactly if "size limit exceeded" does and neither does; never clean or infected for an empty line |
| ClamAv.CleanIsHeard | clamav.c:38-54 | what clamd prints of a clean stream is heard as clean |
| ClamAv.FoundIsHeard | clamav.c:38-54 | what it prints of a virus is heard as infected exactly if the name leaves room for the word behind it in 511 characters or holds it in front of there; and not as clean unless the name has a space or starts with "OK" |
| ClamAv.LongNameIsNotHeard | clamav.c:118-140 | a virus whose name is 498 letters "a" is heard neither as infected nor as clean |
| ClamAv.LimitIsHeard | clamav.c:145-147 | what it prints of too long a stream is heard as too large |
| MetadataMac.CanonicalInjective | crypto.c:618-631 | the canonical text determines version, nonce, chunk size, chunk count, digest and size |
| MetadataMac.CanonicalIsTheLine | crypto.c:623-626 | the text is the printed format with the six fields in their places |
| MetadataMac.DecimalIsPrinted | crypto.c:623-626 | numbers are printed in their decimal digits, without needless zeros |
| MetadataMac.RealFieldsFit | crypto.c:618-631 | the text of any fields that the request parser or the sanitizer leaves fits in the buffer, so that there is a MAC |
| MetadataMac.HexRoundTrip | crypto.c:46-54 | decoding undoes the hex encoding |
| MetadataMac.HexText | crypto.c:46-54 | each byte is two small hex digits, the high one first |
| MetadataMac.HexValueExactly | crypto.c:668-676 | hex digits are read in either letter case, and nothing else is |
| MetadataMac.MacBindsFields | crypto.c:654-696 | a MAC made for one metadata verifies for another only if they are identical or the HMAC collides |
| ScanPipeline.Inspect | scanner.c:299-517 | which outcomes of the detector, the whitelist, clamd, YARA and the content check give which verdict and output; clean or sanitized only after a clean session on these bytes unless told to skip, and never after one that found something |
| ScanPipeline.Daemon.HandleScan | main.c:726-1056 | which outcomes give which reply: busy exactly for a user at the limit, or for an unsealed key and a reservation that does not fit beside what is reserved; an answer exactly for an admitted scan of an authentic file with a finding in time, and then that; while at work its scan, its bytes and its slot are in the counts, and afterwards they are given back; an acknowledgement exactly for an admitted detached request, one audit line for all but the busy replies, one reply; the stream is left open exactly when the file decrypts and the MAC does not hold, the sanitizer's buffer exactly when it answers "sanitized" with no bytes |
| ScanPipeline.ReleasedExactly | main.c:726-929 | a file is released exactly if it is admitted and authentic, in time at both looks at the clock, clamd found nothing on the way, and, if it is not empty, its type is allowed, clamd called it clean on the way or as a buffer, YARA does not object, and the content check passes it with what it changed written and signed |
| ScanPipeline.VirusIsNotReleased | main.c:822-844 | if clamd tells of a virus in the stream of an admitted authentic file, the reply is that it is rejected; if only in the buffer scan, it is not clean or sanitized |
| ScanPipeline.OneMacOneUpload | main.c:806-819 | two authentic uploads under one key with the same MAC agree in version, nonce, chunk count, size and digest, or the HMAC collides on their two lines |
| ScanPipeline.Daemon.ScanInSlot | main.c:754-790 | reserves three times the announced size before the work, is busy exactly if that exceeds the budget with what is reserved, and releases it |
| ScanPipeline.Daemon.Work | main.c:790-1056 | answers exactly what is due by the outcomes, on authentic content only; clean or sanitized only after some clamd session was handed all of it and said so; a new file exactly when the check left bytes, and it carries them |
| ScanPipeline.Daemon.Examine | main.c:822-853 | the finding due by the outcomes: the stream's verdict or the fallback scan decides; the stream is closed; both deadlines are kept for all but rejections |
| ScanPipeline.ForgedUploadExists | main.c:806-819 | for every properly encrypted file there is a request, with a MAC of proper form, on which the stream is left open |
| ScanPipeline.OnlyTheMarkGetsNoFile | main.c:856 | of sanitized texts exactly the mark alone gets no new file |
| TextSanitizer.SanitizeText | sanitizers/text.c:8-45 | clean exactly without a mark; else an error exactly without memory, or the output is what stands behind the mark |
| TextSanitizer.NothingLeftExactly | sanitizers/text.c:22-31 | the output is empty exactly for the mark alone |
| TextSanitizer.StrippedTwice | sanitizers/text.c:22-42 | the output is clean exactly when the text did not start with two marks |
| ScanPipeline.RepublishedIsAuthentic | main.c:856-925 | a republished file is itself an upload that decrypts to the cleaned bytes, and it has a MAC, which verifies |
| AuditChain.ReseedRecovers | audit.c:174-244 | on a day file cut off anywhere the tail scan drops exactly the torn tail and finds the next number and link |
| AuditChain.ChainGrows | audit.c:246-361 | a record with the cached number and link extends the chain |
| AuditLog.Logger.ReseedFromTail | audit.c:174-244 | the backward scans compute that function and truncate accordingly |
| AuditLog.Logger.Record | audit.c:246-361 | one call computes the transition, however far it gets and however much is written |
| AuditLog.WriteKeepsDayFile | audit.c:330-361 | a write of any length leaves a day file, a whole one leaves the chain one record longer |
| AuditLog.StepKeeps | audit.c:246-361 | calls, crashes, restarts, hang-ups and rotations keep the invariant |
| AuditLog.ChainAlwaysHolds | audit.c:174-361 | after every run each file is one day's chain plus at most a torn tail, and the cached position is what a fresh scan would compute |
| AuditLog.RecordsAreNeverLost | audit.c:174-361 | no later step takes away a complete line |
| AuditChain.ForkedExactlyWhenStale | audit.c:300-361 | a record written behind the first so many records of a longer file leaves a chain exactly when they are all |
| AuditLog.CachedPositionMustBeCurrent | audit.c:246-361 | with a second process, a whole record from a cached position keeps the chain exactly when the position is current |
| AuditHistory.LogIsTheHistory | audit.c:246-361 | after every run each file is the printed records of exactly the calls written to it in full, in order, each with the entry and time of its call, its place for a number, the signature before it for a link, and its own signature, and at most a torn tail |
| AuditHistory.WholeWriteSaysTheCall | audit.c:246-361 | after a whole write the file is its complete lines and one record with the entry, time and date of the call, the count of those lines, and the last signature |
| SvgFilter.JoiningChangesNothing | sanitizers/svg.c:249-262 | joining neighbouring pieces of text does not change the output |
| SvgFilter.CutsDoNotMatter | sanitizers/svg.c:249-262 | documents that differ only in how text was cut give the same bytes |
| SvgFilter.FilterTwice | sanitizers/svg.c:140-262 | filtering a filtered tree changes nothing |
| SvgFilter.DecodeUndoesEscape | sanitizers/svg.c:118-133 | entity decoding undoes escaping |
| SvgFilter.OutputIsBalanced | sanitizers/svg.c:140-262 | scanning the output as tags finds every one closed in order |
| SvgHandlers.SkippedLeavesNoTrace | sanitizers/svg.c:140-262 | a dropped subtree restores depth and writes nothing |
| SvgHandlers.RunEmitsFiltered | sanitizers/svg.c:140-262 | the handlers write exactly the printed filtered tree, or report "too large" exactly when that is over the limit |
| SvgHandlers.DocumentIsFiltered | sanitizers/svg.c:264-335 | the streaming verdict on a document is the tree's; depth and skip depth return to their start |
| SvgSanitizer.SvgPolicyIsSane | sanitizers/svg.c:11-50 | the allow lists meet what the general theorems ask |
| SvgSanitizer.State.Grow | sanitizers/svg.c:85-111 | the doubling loop ends with room to spare and the content unchanged, within the limit |
| SvgSanitizer.State.Append | sanitizers/svg.c:85-111 | appends in place, or sets the error exactly when the limit is passed |
| SvgSanitizer.State.StartElement | sanitizers/svg.c:140-224 | does to the fields what the start handler's function says |
| SvgSanitizer.State.EndElement | sanitizers/svg.c:226-247 | the same for the end handler |
| SvgSanitizer.SanitizeSvg | sanitizers/svg.c:264-335 | returns the tree's verdict |
| SvgSanitizer.SanitizedDocument | sanitizers/svg.c:264-335 | the output is the printed filtered tree, balanced and within the limit, and what is printed of it filtered again |
| SvgReader.OutputIsRead | sanitizers/svg.c:118-262 | an XML parser takes the output exactly when no element has a name twice, and reads the filtered tree with its text joined and its white space as the standard has it; read verbatim it is always that tree |
| SvgReader.RepeatedNameIsWritten | sanitizers/svg.c:175-220 | an element with X and x is sanitized to one with x twice |
| SvgReader.SanitizedTwice | sanitizers/svg.c:264-335 | the output, parsed and sanitized again, is the same text exactly when no element has a name twice, values hold no tab, line feed or carriage return, and texts no carriage return |
| SvgKept.KeptExactly | sanitizers/svg.c:175-213 | an attribute is kept exactly if its name is in the list and shorter than 128, a link begins with "#", or with http:// or https:// on an element other than image and use, and a style holds none of five words anywhere, letter case aside |
| SvgKept.FilterExactly | sanitizers/svg.c:140-262 | the filtered tree is exactly the one with all text but that of dropped elements, every element whose name behind its first colon is in the list, and every such attribute, in their places and with their values |
| SvgKept.WhatIsReadIsSafe | sanitizers/svg.c:140-262 | whatever an XML parser reads of the output has only elements from the list and only such attributes, white space treated as the standard has it |
| SvgKept.DocumentExactly | sanitizers/svg.c:264-335 | a document is accepted exactly if its outermost element is an svg and the sanitized tree prints to at most four times the input or 1 MiB; which other documents give which refusal |
| SvgKept.NoScriptIsAllowed | sanitizers/svg.c:11-17 | script, foreignObject, iframe and a are not in the list |
| SvgSniff.MemHasCi | scanner.c:164-177 | the double loop finds exactly an occurrence, letter case aside |
| SvgSniff.BufferLooksLikeSvg | scanner.c:179-212 | true exactly when the first 64 KiB hold the namespace or an opening tag, with a prefix or without |
| SvgSniff.SvgTagExactly | scanner.c:189-209 | by positions: "<", a prefix of name characters with its colon or none, the three letters, and nothing, white space, ">" or "/" |
| SvgSniff.OutputIsRecognised | scanner.c:179-212 | what the sanitizer writes is recognised as an SVG again |
| GifWalk.WalkGif | sanitizers/image.c:145-206 | the loops compute the walk and read in range |
| GifWalk.WalkIsComplete | sanitizers/image.c:145-206 | on an encoded GIF and junk: the number of images, and the end at the trailer exactly without junk; with more blocks than the loop guards allow, no end |
| GifWalk.WalkIsSound | sanitizers/image.c:145-206 | an end at the trailer means the bytes are a GIF with that many images |
| GifWalk.PassedThroughIsExact | sanitizers/image.c:323-334 | an animated GIF is passed through only if it is a whole GIF and nothing else |
| PngWalk.WalkPng | sanitizers/image.c:208-238 | the loop computes the walk and reads in range |
| PngWalk.WalkIsExact | sanitizers/image.c:208-238 | the end at IEND exactly for a tiling chunk list, the flag by the last proper acTL before image data |
| PngWalk.TrailingDataIsNoticed | sanitizers/image.c:336-347 | anything after the first IEND is noticed and does not change the flag |
| WebpWalk.WalkWebp | sanitizers/image.c:240-271 | the loop computes the walk and reads in range |
| WebpWalk.WalkIsExact | sanitizers/image.c:240-271 | exact for padded chunks that tile the file with the right RIFF size; animation exactly when both kinds of chunk occur |
| JpegProbe.ProbeJpeg | sanitizers/image.c:45-68 | the loop computes the probe and reads in range |
| JpegProbe.ProbeIsExact | sanitizers/image.c:45-68 | dimensions exactly where fill bytes, bare markers and segments lead to a frame header, and then that header's |
| ArchiveChecks.ValidateEntryPath | sanitizers/archive.c:68-103 | the first of the faults in the source's order, by what they mean |
| ArchiveChecks.AcceptedPathStaysInside | sanitizers/archive.c:68-103 | an accepted path has at most nine components and leaves its directory exactly when it starts with a backslash or is a bare final ".." |
| ArchiveChecks.ClimbIsAccepted | sanitizers/archive.c:81-84 | the path ".." is such a case |
| ArchiveChecks.RootedBackslashIsAccepted | sanitizers/archive.c:81-84 | a backslash and a letter is the other |
| ArchiveChecks.ExpansionLimit | sanitizers/archive.c:105-115 | 200 times the size, or the nearest number to that between 10 MiB and 2 GiB; above the archive's own size below 2 GiB |
| Inflate.TrialInflate | sanitizers/archive.c:118-169 | over any honest inflater it ends, with 0 exactly when the stream ends at the declared size, however input and output are cut |
| ZipWalk.FindEnd | sanitizers/archive.c:182-191 | finds the last end record in the searched stretch, or there is none |
| ZipWalk.WalkDirectory | sanitizers/archive.c:219-287 | the loop gives the first fault of the directory |
| ZipWalk.InspectZip | sanitizers/archive.c:172-295 | reads in range on all input, gives the first fault's reason, and is clean exactly for an archive that is clean by 511 bytes of its names, or by the names that are meant where those are shown |
| ZipWalk.DirectoryCleanExactly | sanitizers/archive.c:219-294 | no fault exactly when every record is sound, by 511 bytes of its name, and the declared sizes sum within the limit |
| ZipWalk.JudgedByTrueNames | sanitizers/archive.c:227-235 | that is soundness by the names that are meant, where none is longer or given by an extra field |
| ZipWalk.CleanPathsStayInside | sanitizers/archive.c:227-235 | and then every path of a clean archive stays inside but for the two cases |
| ZipWalk.NoUnstatedSize | sanitizers/archive.c:231-284 | in a clean archive every record states its size, and a plain stored or deflated one has exactly that content |
| ZipArchive.ArchiveCleanExactly | sanitizers/archive.c:172-295 | an archive written from entries with one name each of up to 511 bytes is clean exactly when the entries are good, at most 2000 and within the limit |
| ZipArchive.NamesAreExact | sanitizers/archive.c:227-235 | 511 bytes is the longest name up to which that holds of all written archives, and only without names in extra fields or local headers |
| ZipArchive.OtherNamesAreAccepted | sanitizers/archive.c:227-235 | an entry "a" with a Unicode Path field or a local header that says "../x" is let through |
| ZipArchive.ClimbingNameIsAccepted | sanitizers/archive.c:227-235 | a name that climbs out behind 511 letters is let through |
| TarWalk.ParseTarSize | sanitizers/archive.c:297-316 | the loops read the size field, octal or base 256, capped |
| TarWalk.TarChecksumValid | sanitizers/archive.c:318-339 | true exactly for a stored sum that is the unsigned or the signed one |
| TarWalk.SizeBelow | sanitizers/archive.c:297-316 | a size fits in 64 signed bits, an octal one in 33 |
| TarWalk.HeadersInRange | sanitizers/archive.c:341-424 | the headers visited are in range at strictly increasing multiples of 512 |
| TarWalk.InspectTar | sanitizers/archive.c:341-424 | reads in range on all input and gives the first fault's reason |
| TarWalk.VerdictExactly | sanitizers/archive.c:341-424 | clean exactly when all headers are sound, members at most 2000, sizes within the limit, or all but the last are and the sum overflows |
| TarWalk.OctalSizesAreCounted | sanitizers/archive.c:413-417 | with octal sizes the overflow case is gone |
| TarArchive.SizeRoundTrip | sanitizers/archive.c:297-316 | a size written in octal is read back |
| TarArchive.HeaderRead | sanitizers/archive.c:358-393 | a written header is read back: checksum, size, kind, and the whole path exactly when prefix and name fit in 255 bytes |
| TarArchive.ArchiveCleanAsRead | sanitizers/archive.c:341-424 | on a written archive whose headers say how much is stored the walk visits exactly those and is clean exactly when the members are good as they are read, at most 2000 and within the limit |
| TarNames.ArchiveCleanExactly | sanitizers/archive.c:341-424 | clean exactly when they are good by their true names, where all headers are straight: own names that fit, sizes that are stored |
| TarNames.CleanPathsStayInside | sanitizers/archive.c:367-406 | and then every path of a clean archive stays inside but for the two cases |
| TarNames.PrefixLimitIsExact | sanitizers/archive.c:367-386 | the lengths of prefix and name for which that holds of all written archives are exactly those that fit in 255 bytes |
| TarNames.LongPrefixClimbs | sanitizers/archive.c:371-381 | the path of a member whose prefix is dropped leaves the directory and would be refused |
| TarNames.KindsAreExact | sanitizers/archive.c:391-406 | the kinds of header whose presence does no harm are exactly those that say nothing of another member: not long names, nor any of three kinds of pax header |
| TarNames.RenamingIsJudgedWrong | sanitizers/archive.c:391-406 | each of the others, naming an empty file "../x", is let through |
| TarNames.SizesAreExact | sanitizers/archive.c:389-422 | the sizes in a header that do no harm are all where data is stored, and only zero where none is |
| TarNames.HiddenMemberIsPassed | sanitizers/archive.c:389-422 | a directory of size 1 hides the header of "../x" behind it, and the archive is called clean |
| TarArchive.OverflowIsPassed | sanitizers/archive.c:413-417 | two headers whose sizes sum to 2^63 are called clean |
| TarArchive.BinarySizeRead | sanitizers/archive.c:297-306 | a size in base 256 is read modulo 2^64, and one over 2^63 - 1 as that |
| TarWalk.SumsDiffer | sanitizers/archive.c:333-338 | the unsigned and the signed checksum differ by 256 for each byte with its top bit set outside the field |
| NestedArchives.NestedExactly | sanitizers/archive.c:31-66 | an entry is refused as an archive in an archive exactly if, not refused before, its name ends in one of thirteen suffixes in any letter case, or its content begins as one of nine formats does |
| NestedArchives.NestedMemberIsRefused | sanitizers/archive.c:391-406 | a tar archive with a named member that is a zip or tar archive as written here, begins as another format, or has such a suffix, is refused |
| KeyFile.ParseUndoesSerialise | attestation.c:68-79 | parsing undoes serialising for the eight parts |
| KeyFile.SerialiseUndoesParse | attestation.c:164-174 | and the other way round |
| KeyFile.LoadUndoesSave | attestation.c:88-150 | a file is written sealed exactly if there is a key, and loads as what was written, under the same key |
| KeyFile.LoadsWhatItHolds | attestation.c:88-150 | a file that holds keys loads as those under any key, unless the key wrongly opens this very box |
| KeyFile.OnlyTheFrontIsRead | attestation.c:94-115 | bytes behind a sealed file are not read; bytes behind a plain one make it unreadable |
| KeyStore.Attestation.Load | attestation.c:88-150 | loads exactly when the file can be read and holds keys, and seals a plain one if there is a key |
| KeyStore.Attestation.Save | attestation.c:152-225 | succeeds exactly if no call fails that it cannot do without, and then the file is the image; every state on the way has the old file, or the new one complete and on disk |
| KeyStore.Attestation.Init | attestation.c:284-334 | comes up with the file's keys, with new ones where there is no file or access() reports none, and else not at all; if no call fails, new keys, and those of a plain file if there is a key to seal them with, are in the file at the end |
| KeyStore.SaveIsAtomic | attestation.c:152-225 | a power loss during a save leaves the file as shown, as on disk before, or complete |
| KeyStore.RunKeepsCoherent | attestation.c:88-225 | over runs of starts cut short anywhere, power losses and write-backs: the file on disk and the one shown are the same, or one is the sealed form of the other |
| KeyStore.KeysAreStable | attestation.c:284-334 | once keys are on disk every later start that comes up has them, whatever key it is given, if access() reports a file whenever it does not load, and short of a key that wrongly opens the box on disk |
| KeyStore.RotatesExactlyWhenMissed | attestation.c:298-326 | a start comes up with other keys than the file's exactly when it neither loads nor is reported and other keys were made |
| KeyStore.MissedFileIsReplaced | attestation.c:298-326 | such a start can replace the keys on disk, and put plain ones where sealed ones were |
| KeyStore.SecondStartHasTheKeys | attestation.c:284-334 | after a first start that makes keys and saves them without a failure, a second one that can read the file under the same key comes up with the same keys, after a power loss too if the directory had reached the disk |
| KeyStore.LaterStartsHaveTheKeys | attestation.c:284-334 | and so does every later start of a run without a power loss that comes up at all, whatever its key |
| KeyStore.KeysAreStableWhileUp | attestation.c:284-334 | without a power loss it is enough that the file is shown |
| KeyStore.FormatsMoveForward | attestation.c:88-225 | the format on disk only moves from absent to plain or sealed and from plain to sealed |

## Left out

- ClamAv.SendAll: does not model how send loops over short writes; the socket takes some number of bytes in all, and what is over that fails.
- ClamAv.Classify: does not model how the signature is cut out of the line; it is only logged.
- ScanPipeline.Inspect: does not model which types the whitelist admits, how types are corrected, and what YARA and the sanitizers other than that of texts say; their answers are arguments.
- ScanProtocol.BuffersBehindReservations: counts the plaintext buffer only, not the sanitizer's output or what a converter takes.
- ArchiveChecks.AcceptedPathStaysInside: takes both separators to be ones; drive letters are not considered.
- TarNames.ArchiveCleanExactly: of pax records the two that name a member are read; one that gives a size only counts as not straight. GNU's sparse, multi-volume and old long-name kinds are not written, nor regular files whose name ends in a slash, of which readers make different things; every header has the ustar magic. Where links point is not considered, as the inspection does not look at it.
- ZipArchive.ArchiveCleanExactly: written archives have no archive comment, no ZIP64 or encrypted entries, and only stored or deflated ones; of extra fields only the Unicode Path of the APPNOTE names an entry.
- ZipWalk.CleanPathsStayInside: takes names from the directory and its extra fields; those of local headers are covered for written archives.
- SvgReader.OutputIsRead: the reader knows what the filter writes, not comments, declarations, or references other than the five that escaping makes; of what a parser refuses in such text it knows unbalanced tags and repeated names.
- ScanPipeline.Daemon.HandleScan: does not model parsing of the request beyond its numbers, the signing of the output, or the sealing of the content hash; each may fail. One worker runs it; what other workers do meanwhile to the counts is in `ScanProtocol`. Replies and audit lines are taken to get through.
- AuditLog.Logger.Record: assumes that a record with its newline takes at most 32 KiB and numbers stay below 2^53, that a new file's inode is not one of a file still known, and that fstat, pread and ftruncate succeed.
- SvgSanitizer.SanitizeSvg: takes documents the XML parser accepts and buffers that can be allocated; the DOCTYPE scan before parsing and the rejection of malformed XML are not modelled.
- TarWalk.VerdictExactly: is stated for buffers of at most 2^62 bytes, below which no offset leaves 64 bits.
- ZipWalk.InspectZip: models the build with zlib; of a broken stream it leaves open whether its size or its corruption is reported, which depends on how zlib cuts its output.
- KeyStore.Attestation.Save: does not model interrupted calls, which are simply made again, or the creation of the directory beyond its failing.
- KeyStore.KeysAreStable: is up to a key that wrongly opens the one box on disk, which no law of the cipher as a function excludes (`KeyFile.DistinguishingCipherExists`: none forces it either).
- Hybrid sealing and unsealing of data keys (crypto.c:74-302) and output signatures: compositions of foreign primitives.
- Header checks of PNG, GIF and BMP dimensions, image decoding and re-encoding: fixed offsets and foreign code.
- Category and whitelist lookups (scanner.c:58-162): searches in constant tables.
- Routing, busy replies, health and metrics (admission.c:98-140): no state.
- Worker and accept loops of main.c: the queue protocol has any number of threads calling push and pop in any order, which includes theirs; starting and joining them is not modelled.
- Sockets, accept, poll, signals, seccomp, systemd, subprocess converters, YARA rules, memory zeroing and allocation failure.
