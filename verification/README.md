# Verified models of the VisualCpp utilities

This project models the parts of the VisualCpp header library that contain
algorithms or protocols, and proves what they guarantee.

| file | models |
|---|---|
| `ThreadPoolModel.dfy`, `ThreadPoolProofs.dfy`, `ThreadPoolTheorems.dfy`, `ThreadPool.dfy` | the thread pool: mutex, condition variable, queue, workers, `enqueue`, destructor |
| `Base64.dfy`, `Base64Bits.dfy`, `Base64Codec.dfy`, `Base64Decoder.dfy` | `base64_encode` and `base64_decode` against RFC 4648, by groups and by bits |
| `UrlCodec.dfy` | `UrlEncode` and `UrlDecode` |
| `ByteOrder.dfy` | the machine independent loads and stores |
| `SkipSpace.dfy` | both variants of `skip_trailing_space` |
| `FileWatcher.dfy` | the rounds of the file watcher |
| `FileReader.dfy` | chunked reading through `FileInfo` |
| `Bytes.dfy`, `Sequences.dfy` | octets, character classes, powers of two, division; searching, counting and order |

`dafny verify dfyconfig.toml` checks everything.

## How the models are built

**Thread pool.** A state holds the shared fields, the place of every thread in its
code, the owner of the mutex and the history of the queue. A step is one atomic action
of one thread. Any number of workers, concurrent `enqueue` calls, spurious wakeups and
any interleaving are allowed; `notify_one` is a step of its own after the push, and it
may wake any sleeper. A task is the number of the `enqueue` call that submitted it, and
a task that runs eventually returns. `Apply` is the effect of a step on values; the
class `ThreadPool` performs the same actions on mutable fields, and each of its methods
is proved to be the step of that name. The worker loop is lines 28-46 of the header,
`enqueue` lines 53-75, the destructor lines 77-87. A call of `front()` on an empty queue
would set the field `fault`; no run does.

**Codecs.** Strings are sequences of octets. `val` in the Base64 encoder is a signed
32-bit word that wraps. Masks and shifts are written as remainders and quotients by
powers of two; the `|` of `sint3korr` is a bitwise or. `isalnum` is that of the "C"
locale. A string is shorter than 2^31, as the `int in_len` of the decoder requires. An
`assert` that fails in the URL decoder is the result `Aborted`.

**Memory scans.** A buffer is an array whose first octet has an arbitrary address, so
alignment is a fact about addresses. Word loads carry the proof that they are aligned
and inside the buffer. Both word sizes and both byte orders are covered.

**Files.** Which files exist and which are listed is given for every round of the
watcher; the contents of a file being read do not change. Words are 64 bits wide. A
count of 2^63 or more is negative for the stream, which is taken to transfer nothing and
to fail until it is opened again.

## Where the code differs from what it suggests

- The pool's cap of 10 threads has no effect: `pools` is never advanced (lines 24-25 of
  the header), so the pool has as many workers as were asked for.
- A pool of no workers accepts tasks and drops them: `DestroyedMeansDrained` states
  exactly when the destructor drains the queue, `NoWorkersLoseTheTask` is a run in which
  it does not.
- The watcher's first loop is meant to remove all files that are gone; because it erases
  and then increments, it removes them all exactly if no two neighbours are gone
  (`SweepIsCompleteExactly`).
- After a file was deleted and made again the watcher reports it exactly if a sweep
  dropped it in between (`ReportedAgainExactly`); a file deleted behind another one can
  be missed (`DeletedButNotReportedAgain`).
- `FromHex` accepts every letter. The URL decoder therefore decodes `%GG`
  (`LettersPastF`); it aborts exactly on a `%` that is not followed by two alphanumeric
  characters (`AbortsExactly`).
- `FileInfo::Read` computes position plus request in 64 bits. `ReadCountExactly` states
  exactly when the count is right, `CountsAreTrueExactly` the same of a whole run. With
  a request of 2^64 - 1 a loop that reads until 0 never ends on a file that is not empty
  (`LargestRequest`, `NonEmptyReads`).

## Model

| member | source | states |
|---|---|---|
| ThreadPoolProofs.InvAlways | include/ThreadPool.hpp:22-87 | every state of every run keeps the invariant, and the number of workers is the constructor's argument |
| ThreadPoolProofs.LockInvStep | include/ThreadPool.hpp:33-44 | each step keeps: the mutex owner is exactly the thread in a critical section, and the conditions it has read there stay true until it leaves |
| ThreadPoolProofs.QueueInvStep | include/ThreadPool.hpp:62-72 | each step keeps the order of the queue and that exactly the calls that passed the `stop` test are in it once |
| ThreadPoolProofs.WorkInvStep | include/ThreadPool.hpp:42-45 | each step keeps: completed and running tasks together are the dispatched ones |
| ThreadPoolProofs.WakeInvStep | include/ThreadPool.hpp:35-37 | each step keeps the bound on queued tasks while a worker sleeps |
| ThreadPoolProofs.ShutdownInvStep | include/ThreadPool.hpp:77-87 | each step keeps: after `notify_all` nobody sleeps, joined workers have exited, and a worker exits only from a stopped, empty pool |
| ThreadPoolTheorems.MutualExclusion | include/ThreadPool.hpp:33-43 | at most one thread is in a critical section, and `front()`/`pop()` never meet an empty queue |
| ThreadPoolTheorems.NoLostWakeup | include/ThreadPool.hpp:28-73 | if a worker sleeps, the queue is no longer than undelivered notifications plus workers heading for the predicate; when there are none of these it is empty |
| ThreadPoolTheorems.FifoAndConservation | include/ThreadPool.hpp:33-72 | dispatched then queued tasks are the accepted ones in order; every accepted task is queued, running or completed, in exactly one place once; rejected ones nowhere |
| ThreadPoolTheorems.HistoriesAre | include/ThreadPool.hpp:39-72 | accepted, dispatched and completed tasks are the pushes, the starts and the ends of tasks in the order in which the steps of the run show them |
| ThreadPoolTheorems.FirstInFirstOut | include/ThreadPool.hpp:42-71 | in every run the tasks that workers began, followed by those in the queue, are the tasks pushed, in the order of the pushes |
| ThreadPoolTheorems.HistoriesGrow | include/ThreadPool.hpp:42-71 | accepted and dispatched tasks grow at the end only |
| ThreadPoolTheorems.SingleWorkerKeepsOrder | include/ThreadPool.hpp:28-46 | with one worker, the tasks finished so far are the first ones pushed, in the order of the pushes |
| ThreadPoolTheorems.StopIsFinal | include/ThreadPool.hpp:65-80 | once `stop` is set nothing more is accepted and no worker falls asleep, for the rest of the run |
| ThreadPoolTheorems.DestroyedMeansDrained | include/ThreadPool.hpp:39-87 | when the destructor has returned, all workers have exited, and the queue is empty with every accepted task run once exactly if there was a worker or nothing was accepted |
| ThreadPoolTheorems.NoWorkersLoseTheTask | include/ThreadPool.hpp:24-25 | a pool of no workers has a run that ends with a task still queued |
| ThreadPoolTheorems.MeasureStep | include/ThreadPool.hpp:28-86 | every step lowers a measure of the work left, except that a new call and a spurious wakeup first raise it by a constant |
| ThreadPoolTheorems.RunsAreBounded | include/ThreadPool.hpp:28-87 | the steps of a whole run, before and after `stop`, are bounded by the number of workers, `enqueue` calls and spurious wakeups |
| ThreadPoolTheorems.LockHolderCanMove | include/ThreadPool.hpp:33-43 | whoever holds the mutex has a next step |
| ThreadPoolTheorems.ClosingMeasureStep | include/ThreadPool.hpp:35-87 | once `stop` is set, every worker step, spurious wakeups included, and every destructor step lowers a measure of queue and phases, and no step of a call raises it |
| ThreadPoolTheorems.ShutdownIsBounded | include/ThreadPool.hpp:77-87 | from `stop` on, workers and destructor take at most 5n + 4q + 3 steps for n workers and q queued tasks, whatever calls and wakeups come |
| ThreadPoolTheorems.ShutdownProgress | include/ThreadPool.hpp:79-86 | from `stop` until the destructor has returned, a worker or the destructor can move without a spurious wakeup, if need be after one step of the caller that holds the mutex, which frees it |
| ThreadPoolTheorems.DestructorReturns | include/ThreadPool.hpp:79-87 | if of any w steps one is the pool's, every join has returned at most w(5n + 4q + 4) steps after `stop`, whatever the callers do |
| ThreadPoolTheorems.StuckMeansDone | include/ThreadPool.hpp:28-87 | if no thread can move, all calls have returned, the pool is idle or destroyed, and with a worker every accepted task has run once |
| ThreadPoolClass.ThreadPool.constructor | include/ThreadPool.hpp:22-49 | the pool starts with as many workers as asked for, whatever the cap |
| ThreadPoolClass.ThreadPool.Lock | include/ThreadPool.hpp:33 | refines `WorkerLock`; the worker is then the only thread inside |
| ThreadPoolClass.ThreadPool.Wait | include/ThreadPool.hpp:35-37 | refines `WorkerTest`: stays inside on `stop` or a task, else sleeps and nobody is inside |
| ThreadPoolClass.ThreadPool.Take | include/ThreadPool.hpp:39-44 | refines `WorkerTake`: exits from a stopped, empty pool or takes the task at the front of the queue, which nobody else runs or has run; the queue is not empty then |
| ThreadPoolClass.ThreadPool.Finish | include/ThreadPool.hpp:45 | refines `WorkerFinish`; the task has then been completed once |
| ThreadPoolClass.ThreadPool.WakeSpuriously | include/ThreadPool.hpp:35 | refines `SpuriousWake` |
| ThreadPoolClass.ThreadPool.EnqueueBegin | include/ThreadPool.hpp:53-59 | refines `CallBegin`: a new call with a task never accepted before |
| ThreadPoolClass.ThreadPool.EnqueueLock | include/ThreadPool.hpp:62 | refines `CallLock`; the caller is then the only thread inside |
| ThreadPoolClass.ThreadPool.EnqueueTest | include/ThreadPool.hpp:65-67 | refines `CallTest`: rejects on `stop` and leaves nobody inside; a rejected task is not accepted |
| ThreadPoolClass.ThreadPool.EnqueuePush | include/ThreadPool.hpp:69-72 | refines `CallPush`: the task goes to the end of the queue, accepted once and never after `stop` |
| ThreadPoolClass.ThreadPool.EnqueueNotify | include/ThreadPool.hpp:73 | refines `CallNotify`: wakes one sleeper if there is one; sleepers left over have no more tasks before them than wakeups on their way |
| ThreadPoolClass.ThreadPool.DestructorLock | include/ThreadPool.hpp:79 | refines `DtorLock`; the destructor is then the only thread inside |
| ThreadPoolClass.ThreadPool.DestructorStop | include/ThreadPool.hpp:80 | refines `DtorStop`; no call is about to push then |
| ThreadPoolClass.ThreadPool.DestructorUnlock | include/ThreadPool.hpp:81 | refines `DtorUnlock`; nobody is inside then |
| ThreadPoolClass.ThreadPool.DestructorNotifyAll | include/ThreadPool.hpp:83 | refines `DtorNotifyAll`: afterwards nobody sleeps |
| ThreadPoolClass.ThreadPool.DestructorJoin | include/ThreadPool.hpp:84-86 | refines `DtorJoin`; after the last join a pool that had workers is drained and the completed tasks are the accepted ones |
| Base64.LetterIsAlphabet | include/HttpUtility.hpp:7-10 | the 64 characters of the table |
| Base64.LetterValue | include/HttpUtility.hpp:23-28 | a table character is in the alphabet and its value is its position |
| Base64.ValueLetter | include/HttpUtility.hpp:7-25 | every alphabet character is the table character of its value |
| Base64.RoundTrip | include/HttpUtility.hpp:26-91 | decoding an encoding returns every octet string |
| Base64.EncodeLength | include/HttpUtility.hpp:47-49 | an encoding has 4 * ceil(n/3) characters |
| Base64.UnpackLength | include/HttpUtility.hpp:71-88 | k characters decode to floor(3k/4) octets |
| Base64.DecodeReadsOnlyThePrefix | include/HttpUtility.hpp:61-89 | decoding depends on the longest alphabet prefix only and returns floor(3k/4) octets |
| Base64.EncodeIsCanonical | include/HttpUtility.hpp:26-52 | encodings are correctly padded with zero pad bits |
| Base64.CanonicalExactly | include/HttpUtility.hpp:26-91 | encoding a decoding returns the string exactly if the string is canonical |
| Base64Bits.TableIs | include/HttpUtility.hpp:7-10 | the characters in use are those of Table 1 of RFC 4648, in its order |
| Base64Bits.ValueIsPosition | include/HttpUtility.hpp:7-25 | the alphabet is that table, and the value of a character its position in it |
| Base64Bits.DecodeByBits | include/HttpUtility.hpp:61-89 | the decoding is the one octet string of floor(3k/4) octets whose bits are the first bits of the positions of the k characters at the beginning |
| Base64Bits.EncodeByBits | include/HttpUtility.hpp:26-52 | the encoding is the one string of table characters whose positions hold the bits of the octets, filled with zeros, with `=` up to a multiple of four |
| Base64Bits.EncodeMan | include/HttpUtility.hpp:26-91 | "Man" encodes to "TWFu" and back |
| Base64Bits.EncodeMa | include/HttpUtility.hpp:45-49 | "Ma" encodes to "TWE=" |
| Base64Bits.EncodeM | include/HttpUtility.hpp:45-49 | "M" encodes to "TQ==" |
| Base64Codec.ShiftIn | include/HttpUtility.hpp:37 | shifting without masking keeps the bits of the group begun, in spite of wrap-around |
| Base64Codec.EmitInside | include/HttpUtility.hpp:40 | the character pushed in the inner loop is the next sextet of the 24-bit group |
| Base64Codec.EmitLast | include/HttpUtility.hpp:45 | the character pushed after the loop is the zero-filled sextet of a short group |
| Base64Codec.PushSextets | include/HttpUtility.hpp:39-42 | the inner loop pushes every complete sextet and leaves `valb` at -6, -4 or -2 |
| Base64Codec.Pad | include/HttpUtility.hpp:47-49 | padding up to a multiple of four |
| Base64Codec.Base64Encode | include/HttpUtility.hpp:26-52 | the streaming encoder computes the encoding of section 4 of RFC 4648 |
| Base64Decoder.FindIsValue | include/HttpUtility.hpp:65 | the table search returns the value of an alphabet character |
| Base64Decoder.OctetsAre | include/HttpUtility.hpp:67-69 | the byte expressions are the octets of the 24-bit group |
| Base64Decoder.TailDecoded | include/HttpUtility.hpp:78-88 | the octets used of a short group are those of the definition, whatever the lookup of the fillers left behind the characters |
| Base64Decoder.GroupDecoded | include/HttpUtility.hpp:63-74 | four more characters decode to three more octets |
| Base64Decoder.AfterFull | include/HttpUtility.hpp:61-75 | four characters from an empty buffer on append exactly their group and leave the buffer empty |
| Base64Decoder.AfterGroups | include/HttpUtility.hpp:61-75 | after g groups the characters fed one at a time have produced the decoding of the first 4g characters |
| Base64Decoder.AllDecoded | include/HttpUtility.hpp:61-88 | where the alphabet prefix ends, the octets written followed by those the left over characters hold completely are the decoding of the string |
| Base64Decoder.LookUp | include/HttpUtility.hpp:64-65 | replaces alphabet characters by their values in place |
| Base64Decoder.Combine | include/HttpUtility.hpp:67-69 | fills the three byte buffer |
| Base64Decoder.PushGroup | include/HttpUtility.hpp:64-72 | a full buffer appends its three octets |
| Base64Decoder.PushTail | include/HttpUtility.hpp:77-88 | the characters left over append the octets they hold completely |
| Base64Decoder.Take | include/HttpUtility.hpp:62-74 | one more character is buffered; a fourth one appends the octets of its group and empties the buffer |
| Base64Decoder.DecodeGroups | include/HttpUtility.hpp:61-75 | the first loop stops at the first character outside the alphabet, with the octets and the buffer that feeding the characters before it one at a time leaves |
| Base64Decoder.Base64Decode | include/HttpUtility.hpp:53-91 | the block machine computes the decoding of the longest alphabet prefix, for any string |
| Base64Decoder.EncodeThenDecode | include/HttpUtility.hpp:26-91 | the two loops one after the other return the input |
| Base64Decoder.DecodeThenEncode | include/HttpUtility.hpp:26-91 | the two loops the other way round return the input exactly if it is canonical |
| UrlCodec.HexInverse | include/HttpUtility.hpp:93-105 | `FromHex` inverts `ToHex`, aborts exactly off the alphanumerics, and is below 16 exactly on hex digits |
| UrlCodec.HexTable | include/HttpUtility.hpp:93-105 | `FromHex` of a digit or letter of either case is its position in "0123456789A...Z", `ToHex` the character there |
| UrlCodec.DecodeEscape | include/HttpUtility.hpp:135-141 | `%` and two digits of either case decode to 16h + l |
| UrlCodec.DecodePlain | include/HttpUtility.hpp:133-143 | `+` decodes to a space, and a string without `%` and `+` to itself |
| UrlCodec.DecodeSlash | include/HttpUtility.hpp:135-141 | `%2f` and `%2F` decode to `/` |
| UrlCodec.EncodeOctet | include/HttpUtility.hpp:112-125 | an octet is encoded as itself exactly if it is an ASCII letter or digit or one of `-_.~`, a space as `+`, any other as `%` and its two upper-case digits |
| UrlCodec.EncodeSigns | include/HttpUtility.hpp:112-125 | `&` and `*` are encoded as `%26` and `%2A` |
| UrlCodec.RoundTrip | include/HttpUtility.hpp:106-146 | decoding an encoding returns every octet string without an abort |
| UrlCodec.EncodeConcat | include/HttpUtility.hpp:110-126 | encoding distributes over concatenation |
| UrlCodec.DecodeConcat | include/HttpUtility.hpp:133-144 | a string that decodes may be decoded in front of any other |
| UrlCodec.AbortsExactly | include/HttpUtility.hpp:97-141 | the decoder aborts exactly if somewhere a `%` is not followed by two alphanumeric characters |
| UrlCodec.LettersPastF | include/HttpUtility.hpp:97-105 | `%GG` decodes |
| UrlCodec.EncodeShape | include/HttpUtility.hpp:112-125 | the characters an encoding consists of, and its length |
| UrlCodec.EncodeIsCanonical | include/HttpUtility.hpp:106-128 | encodings are canonical |
| UrlCodec.CanonicalExactly | include/HttpUtility.hpp:106-146 | encoding a decoding returns the string exactly if it is canonical |
| UrlCodec.UrlEncode | include/HttpUtility.hpp:106-128 | the loop computes the encoding |
| UrlCodec.UrlDecode | include/HttpUtility.hpp:129-146 | the loop computes the decoding, with both asserts |
| UrlCodec.EncodeThenDecode | include/HttpUtility.hpp:106-146 | the two loops one after the other return the input |
| ByteOrder.LEOfBytes | include/mysql/my_byteorder.h:32-36 | a number is the value of its low octets, low octet first |
| ByteOrder.BytesOfLE | include/mysql/my_byteorder.h:32-36 | an octet sequence is the octets of its value |
| ByteOrder.OctetOfLE | include/mysql/my_byteorder.h:32-36 | octet i of the value is the octet at position i |
| ByteOrder.Reads2 | include/mysql/byte_order_generic.h:27-51 | `uint2korr` and `sint2korr` compute the little-endian value, unsigned and signed |
| ByteOrder.Reads3 | include/mysql/my_byteorder.h:43-64 | `uint3korr` computes the value, `sint3korr` extends the sign from 24 bits |
| ByteOrder.Reads4 | include/mysql/byte_order_generic.h:35-61 | `uint4korr` and `sint4korr` |
| ByteOrder.Reads5 | include/mysql/my_byteorder.h:66-75 | `uint5korr` |
| ByteOrder.Reads6 | include/mysql/my_byteorder.h:77-87 | `uint6korr` |
| ByteOrder.Reads8 | include/mysql/byte_order_generic.h:63-81 | `uint8korr` composes two halves to the value; `sint8korr` is its signed reading |
| ByteOrder.Int2Store | include/mysql/byte_order_generic.h:83-88 | writes the low two octets and nothing else |
| ByteOrder.Int3Store | include/mysql/my_byteorder.h:89-94 | writes the low three octets and nothing else |
| ByteOrder.Int4Store | include/mysql/byte_order_generic.h:90-96 | writes four octets and nothing else |
| ByteOrder.Int5Store | include/mysql/my_byteorder.h:96-103 | writes the low five octets and nothing else |
| ByteOrder.Int6Store | include/mysql/my_byteorder.h:105-113 | writes the low six octets and nothing else |
| ByteOrder.Int8Store | include/mysql/byte_order_generic.h:98-104 | two half stores write the eight octets and nothing else |
| ByteOrder.StoreThenRead | include/mysql/my_byteorder.h:57-113 | every unsigned reader returns what the store of its width wrote |
| ByteOrder.StoreThenReadSigned | include/mysql/byte_order_generic.h:27-104 | every signed reader returns the negative or positive number stored |
| SkipSpace.TrimmedLenIs | include/mysql/m_string.h:250-280 | the plain scan ends at the one position with only spaces behind and none before it |
| SkipSpace.SpaceWordMeansSpaces | include/mysql/m_string.h:286-294 | a word equals the constant exactly if all its octets are spaces, in both byte orders |
| SkipSpace.EightSpaces | include/mysql/m_string.h:326 | `uint8korr` equals the constant exactly on eight spaces |
| SkipSpace.LoadWord | include/mysql/m_string.h:308 | a word load is aligned and inside the buffer |
| SkipSpace.SkipOctets | include/mysql/m_string.h:311-313 | the last loop finishes the plain scan |
| SkipSpace.SkipTrailingSpaceAligned | include/mysql/m_string.h:284-314 | the aligned variant returns the plain scan's position for every address, length and content |
| SkipSpace.SkipTrailingSpace8 | include/mysql/m_string.h:321-333 | the eight byte variant returns the plain scan's position |
| SkipSpace.BothVariants | include/mysql/m_string.h:283-334 | the two variants agree |
| FileWatcher.SweepByPosition | include/FileSystem.hpp:235-244 | a sweep keeps exactly the existing files and the 2nd, 4th, ... of each run of missing ones, in order |
| FileWatcher.SweepKeepsExisting | include/FileSystem.hpp:235-244 | a sweep keeps every existing file, in order |
| FileWatcher.SweepHalves | include/FileSystem.hpp:235-244 | a sweep leaves floor(r/2) of each run of r missing files, so at most half of all |
| FileWatcher.SweepIsCompleteExactly | include/FileSystem.hpp:234-244 | one sweep removes everything that is gone exactly if no two neighbours are gone |
| FileWatcher.SweepsRemoveAll | include/FileSystem.hpp:232-244 | n sweeps remove fewer than 2^n stale files and nothing else |
| FileWatcher.SweepHalvesLongest | include/FileSystem.hpp:235-244 | a sweep halves the longest run of missing files, rounding down |
| FileWatcher.SweepsAreCompleteExactly | include/FileSystem.hpp:232-244 | n sweeps leave exactly the existing files exactly if no 2^n neighbours are all missing |
| FileWatcher.RestingRoundsClean | include/FileSystem.hpp:232-257 | n rounds on a file system at rest leave none of fewer than 2^n stale files |
| FileWatcher.NewFilesAre | include/FileSystem.hpp:246-256 | the files added are the untracked listed ones, without repetition |
| FileWatcher.TrackedIsComplete | include/FileSystem.hpp:230-257 | the list never repeats a file and has the whole listing after a round |
| FileWatcher.RoundKeepsOrder | include/FileSystem.hpp:235-256 | after a round the files it did not add stand in the order they had, before all files it added, and these stand and were reported in the order of the listing |
| FileWatcher.AddedBehindIsSkipped | include/FileSystem.hpp:235-256 | a run in which a file is skipped, and later not reported, because it was added behind another one |
| FileWatcher.ReportedExactly | include/FileSystem.hpp:247-256 | a file is reported, once, exactly if it is listed and the sweep left it untracked |
| FileWatcher.StaysTracked | include/FileSystem.hpp:235-257 | a tracked file that passes its tests stays tracked and is not reported |
| FileWatcher.ReportedOnceFromAppearance | include/FileSystem.hpp:230-257 | from a listing on, a file that passes every later test is reported once if it was untracked then, else not |
| FileWatcher.NewFileReportedOnce | include/FileSystem.hpp:230-257 | a file that stays from its first appearance on is reported exactly once in the whole run |
| FileWatcher.DroppedExactly | include/FileSystem.hpp:235-244 | a sweep drops a tracked file exactly if it is missing and an even number of missing files stand directly before it |
| FileWatcher.ReportsBalance | include/FileSystem.hpp:230-257 | over any stretch of any run, reports of a file plus one if it was tracked before equal its drops plus one if it is tracked after |
| FileWatcher.ReportedAgainExactly | include/FileSystem.hpp:230-257 | after a report of a file the next listing with it reports it again exactly if a sweep in between dropped it |
| FileWatcher.ReportedAgainAfterMissing | include/FileSystem.hpp:230-257 | between any two reports of a file a sweep found it missing and dropped it |
| FileWatcher.DeletedButNotReportedAgain | include/FileSystem.hpp:235-257 | a file that was deleted behind another one and is there again is not reported |
| FileWatcher.Sweep | include/FileSystem.hpp:235-244 | the erase-then-increment loop computes the survivors |
| FileWatcher.Discover | include/FileSystem.hpp:246-256 | the second loop appends and reports the new files |
| FileWatcher.TaskFunc | include/FileSystem.hpp:228-260 | the rounds compute the tracked list and the reports of each round |
| FileReader.ReadCountExactly | include/FileSystem.hpp:72-75 | the count is the request or the rest exactly if position plus request does not wrap |
| FileReader.WrappedRead | include/FileSystem.hpp:72-84 | if position plus request wraps, the whole request is returned as read and the position moves backwards |
| FileReader.ChunksReassemble | include/FileSystem.hpp:71-86 | unless a request wraps at its position, the chunks concatenate to the file up to the position, which is the sum of the requests or the end and the sum of the counts returned |
| FileReader.CountsAreTrueExactly | include/FileSystem.hpp:71-86 | for any requests, the counts returned add up to the octets received exactly if no request wraps at the sum of those before it or the end |
| FileReader.ZeroMeansWholeFile | include/FileSystem.hpp:73-78 | a positive request returns 0 exactly if the whole file has been returned and size plus request does not wrap |
| FileReader.NonEmptyReads | include/FileSystem.hpp:71-86 | with a fixed chunk exactly the first ceil(size/chunk) reads return something, or every read does if size plus chunk wraps |
| FileReader.LargestRequest | include/FileSystem.hpp:71-86 | a request of 2^64 - 1 reads the file at once, and at its end returns 2^64 - 1 instead of 0 |
| FileReader.FileInfo.constructor | include/FileSystem.hpp:88-96 | reading starts at position 0 with no stream open |
| FileReader.FileInfo.Read | include/FileSystem.hpp:71-86 | copies the next octets to the front of the buffer, leaves the rest of it, and advances the position by the count returned; if the request wraps nothing is copied, the request is returned, the position moves backwards and the stream has failed |
| FileReader.FileInfo.Transfer | include/FileSystem.hpp:82-83 | the stream copies the count unless it has failed or the count is negative as a signed word |
| FileReader.FileInfo.Close | include/FileSystem.hpp:97-103 | closing keeps the position and forgets a failure |

## Left out

- ThreadPoolModel: exceptions, results and arguments of tasks (`std::packaged_task`, futures, `std::bind`); a task is a number and returns.
- ThreadPoolModel: the lifetime rule of C++ that nothing may use the pool during its destructor; calls may arrive at any time.
- FileReader: files that change or cannot be opened.
- FileReader: runs in which the stream is closed between reads; `FileInfo.Close` says what it does.
- FileWatcher.TaskFunc: the rounds are finitely many; the outer loop of the source tests the library function `exit` instead of the flag `ctn`, so it never stops and nothing is claimed about stopping. The pause between rounds is left out.
- Windows and C runtime file calls (`Exists`, `SearchFiles`, `Find`, `Move`, `Delete`, `Create`): they are the data of a round.
- UrlCodec.UrlDecode: builds without `assert`, where a failing one is undefined behaviour.
- Path splitting helpers: they rest on `Text::Replace`, which is not part of this model.
- ByteOrder: floating point loads and stores and the type punning variants for x86.
- Vendored headers (`curl`, `json`, `qrencode`, the other `mysql` headers): declarations without bodies.
