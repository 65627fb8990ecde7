# Verified model of the CRC engine, the worker pool and the IDNA machinery

A Dafny model of the parts of the repository where several pieces of code must agree
with one another, and proofs that they do. `dafny verify dfyconfig.toml` checks all of it.

**CRC.** `crcmod/crcmod.py` builds tables, `crcmod/_crcfunpy.py` runs them over bytes,
`crcmod/test.py` defines what the result should be by polynomial division, and
`obs/crc64mod.py` computes the CRC of a concatenation from the CRCs of its parts. All
four are proved against one specification, the shift register that takes one bit at a
time (module `Register`). Integers are Python's: unbounded, with `^`, `&`, `|`, `<<` and
`>>` defined on them by recursion over the bits (module `Bits`), so every mask of the
source is written out. The width is a parameter everywhere; only the combine operation
fixes it to 64.

- `Arithmetic`: those operations in terms of multiplication, division and single bits.
- `Polynomial`: multiplication, degree and long division of `poly`.
- `Register`: the bit-serial register; it is linear, and a byte step is affine.
- `Reflection`: `_bitrev`, and the duality of the two shift directions.
- `CrcTable`: tables and byte loops run the register.
- `CrcReference`: the register computes the polynomial remainder.
- `CrcMod`: parameter checks, `_mkCrcFun`, the streaming object `Crc`, the residue.
- `CrcInverse`: from every register every other is reached by exactly one message of its size.
- `Crc64Combine`: GF(2) matrices and `_combine64` with its two mutated buffers.
- `CombineLaws`: what combining is for, and the multipart upload built on it.

**Worker pool.** `obs/bulktasks.py` is concurrent, so it is a transition system: a step
is one atomic action (a put, a get, a call, a locked section, one statement of
`shutdown`), and the theorems are over all sequences of steps. The tasks carry the
exceptions that their functions and their futures' callbacks will raise, so that the main
theorem is an equivalence: all runs end with every task called once and every future
completed exactly if the condition `ThreadPool.Safe` on thread count, queue size and
tasks holds. With tasks that never leave an exception to the thread, one thread is enough
(`NoKillersSafe`). The bulk download puts its tasks in listing order, which is worth
something; it has an equivalence of its own with the weaker condition `BulkOutcome.JobSafe`.

- `ThreadPool`: the queue, the workers and `shutdown`.
  What can happen in a state is stated by itself, step by step (`Possible`), with the runs in
  which all threads are busy at once (`AllBusy`, `BulkJob.AllThreadsBusy`).
- `FutureCallbacks`: one completion among any number of `set_callback` calls.
- `BulkJob`: `_download_files` and `_task_wrap` of `obs/extension.py` on that pool, and the
  account of their counters.
- `BulkOutcome`: which downloads end well, and which count every object once.

**IDNA.**

- `IdnaCodec`: the incremental codecs give the same for every way of cutting the input.
- `Bidi`: the one-pass `check_bidi` against section 2 of RFC 5893.
- `IntRanges`: the packed-range index, with the exact limit of what it can hold.

## What the proofs found

- `calc_obj_crc_from_parts` (obs/util.py:519-527) starts its fold at 0, not at the CRC of
  the empty string. For parts that describe their chunks it returns the CRC of the object
  if and only if no part is turned away and `init_crc`, which defaults to 0, is 0 modulo
  2^64 (`CombineLaws.ObjectCrcCorrect`). A right part is turned away when its CRC is 0
  and given as a number: whatever `init_crc` is, this happens to exactly one chunk of 8
  bytes (`CombineLaws.CorrectPartRejected`).
- Combining three parts is associative unless the middle part is empty and claims a CRC
  other than `initCrc` (`CombineLaws.CombineAssociatesInvertible`); the exact condition
  without any assumption on the generator is `CombineLaws.CombineAssociates`.
- A function passed to `execute` that raises ends its worker thread, and so does a future's
  callback that raises on it. `ThreadPool.Safe` says how many of those a pool survives
  when nothing is known of the order of the puts: fewer than threads (or one for each
  thread and nothing else), and a queue with room for the sentinels the dead threads never
  take. Where it fails there is a run that deadlocks or loses tasks (`ThreadPool.UnsafeRun`).
- `taskCallback` is called in three places, and what happens when it raises differs.
  In the loop (obs/extension.py:58 and 73) it ends the loop: later objects are not
  downloaded, and the download raises. On a delivered response (obs/extension.py:131) it
  makes `_task_wrap` count the task twice. In the except block (obs/extension.py:134) it
  ends the worker's thread. All runs of a download return with every listed object counted
  exactly once if and only if the first two never happen and, of the third, each download
  has fewer before it than there are threads and all of them together fit as sentinels
  into the queue (`BulkOutcome.DownloadConserves`). An illegal path whose callback raises
  keeps a good download behind it from being made (`BulkOutcome.LoopStopped`); two failing
  downloads on one thread, both with a callback that raises, return with one failure
  counted for two objects (`BulkOutcome.LostObject`); with a good download in front of one
  such failure every run counts right (`BulkOutcome.OrderMatters`).
- The packed-range index is right for all lists of integers from m to n, a range around 0,
  if and only if m >= -1 and n <= 2^32 - 2 (`IntRanges.LimitIsExact`): at 2^32 - 1 the end
  of a range runs into its start, and a negative end wipes the start out.
- `check_bidi` raises IndexError, not IDNABidiError, for the empty label with `check_ltr`
  (`Bidi.CheckBidi`, outcome `NoFirstCharacter`).

## Model

| member | source | states |
|---|---|---|
| Polynomial.Multiply | crcmod/test.py:125-135 | the shift-and-add loop computes the product over GF(2) |
| Polynomial.Degree | crcmod/test.py:184-196 | the two loops, one in strides of 16, find the degree, -1 for zero |
| Polynomial.DegMul | crcmod/test.py:125-135 | degrees add up under multiplication, so there are no zero divisors |
| Polynomial.DivMod | crcmod/test.py:137-160 | for v != 0: u = q * v + r and deg r < deg v; the ZeroDivisionError exactly for v = 0 |
| Polynomial.DivRemUnique | crcmod/test.py:137-166 | no other quotient and remainder meet that equation |
| Register.ZeroBitsLinear | obs/crc64mod.py:78-93 | feeding zero bits is linear in the register |
| Register.FeedAffine | crcmod/_crcfunpy.py:38-106 | two registers fed the same data stay as many zero bits of their difference apart: what the data contributes does not depend on the register |
| Reflection.BitRev | crcmod/crcmod.py:307-312 | the loop reverses the n low bits |
| Arithmetic.XorBits | crcmod/crcmod.py:430-435 | the sum of the model is the exclusive or of the operands' bits, a negative operand in two's complement |
| CrcTable.UnmaskedStep | crcmod/crcmod.py:319-328 | shifting past the register's width and masking late is the register step |
| CrcTable.ByteCrc | crcmod/crcmod.py:319-328 | eight unmasked steps and one mask are eight register steps |
| CrcTable.ByteCrcR | crcmod/crcmod.py:330-338 | the reflected loop is eight reflected register steps |
| CrcTable.MkTable | crcmod/crcmod.py:348-352 | entry i is what byte i leaves in an empty register |
| CrcTable.MkTableR | crcmod/crcmod.py:354-358 | the same for the reflected register and the bit-reversed polynomial |
| CrcTable.MaskedTableStep | crcmod/_crcfunpy.py:52-99 | one forward iteration with both masks is eight single-bit steps, in every width |
| CrcTable.TableStepReflected | crcmod/_crcfunpy.py:59-106 | one reflected iteration is eight single-bit steps, in every width |
| CrcTable.TableStepOneByte | crcmod/_crcfunpy.py:38-50 | in the 8-bit loops the table entry alone is the step |
| CrcTable.CrcForward | crcmod/_crcfunpy.py:38-99 | the five forward loops run the register over the data from the masked start |
| CrcTable.CrcReflected | crcmod/_crcfunpy.py:45-106 | the five reflected loops do so for the reflected register |
| CrcTable.DirectionsDual | crcmod/_crcfunpy.py:38-106 | for every width, generator, register and data: what the reflected loop leaves is the bit reversal of what the forward loop leaves on bit-reversed bytes from the bit-reversed register |
| CrcTable.BothDirections | crcmod/crcmod.py:348-358 | so for the two tables made from one generator and the two byte loops on them |
| CrcReference.ZeroBitReduces | crcmod/test.py:199-254 | a zero bit multiplies by x and reduces by the generator |
| CrcReference.FeedCongruent | crcmod/test.py:199-254 | the register after any data is congruent to register * x^(8 len) + data * x^n |
| CrcReference.FeedIsRemainder | crcmod/test.py:199-254 | the remainder of that polynomial is the register, whatever it started from |
| CrcReference.CrcByDivision | crcmod/test.py:203-254 | message * x^n mod g, by the loops of poly, is the value the table loop leaves in an empty register, for every generator of degree n |
| CrcMod.VerifyPoly | crcmod/crcmod.py:295-302 | finds the degree 8, 16, 24, 32 or 64, and fails only if there is none |
| CrcMod.DegreeMeans | crcmod/crcmod.py:295-302 | a generator of a supported degree is a number from 2^n to 2^(n+1) - 1 with n one of 8, 16, 24, 32, 64 |
| CrcMod.VerifyParams | crcmod/crcmod.py:393-404 | the degree, and both values reduced to that many bits, negative ones included |
| CrcMod.CrcFun | crcmod/crcmod.py:430-435 | both closures compute, from any integer crc, the value by division: message behind xorOut ^ crc, n zero bits behind it, the remainder by the generator, xorOut on that; reflected, with the start, every byte and the remainder bit reversed |
| CrcMod.MkCrcFunAndCall | crcmod/crcmod.py:393-437 | checks, table, byte loop and xorOut together give that value for poly, initCrc and xorOut as passed, in both directions; the ValueError comes exactly for a generator of no supported degree |
| CrcMod.ValueByDivision | crcmod/crcmod.py:430-435 | for every generator, direction, start and xorOut the bit-serial value is the value by division |
| CrcMod.OneCrc | crcmod/crcmod.py:430-435 | and only one value is that |
| CrcMod.CrcContinues | crcmod/crcmod.py:430-435 | continuing from crc(a) over b gives crc(a + b), for every xorOut |
| CrcMod.FeedDigest | crcmod/crcmod.py:154-166 | feeding a register-sized message is adding it and feeding that many zero bits |
| CrcMod.Residue | crcmod/crcmod.py:148-166 | a forward CRC continued over its own digest ends at one value fixed by the parameters, 0 without xorOut |
| CrcMod.UpdateWithDigest | crcmod/crcmod.py:148-166 | so a forward object updated with its own digest holds that value, whatever it was fed before |
| CrcMod.Crc.Create | crcmod/crcmod.py:89-107 | an object for verified parameters, or the ValueError exactly for a bad generator |
| CrcMod.Crc.New | crcmod/crcmod.py:119-136 | a fresh object with the same parameters that has seen only the argument; the original is untouched |
| CrcMod.Crc.Copy | crcmod/crcmod.py:138-146 | a fresh object that has seen the same data; the original is untouched |
| CrcMod.Crc.Update | crcmod/crcmod.py:148-152 | crcValue is the one-shot CRC of everything fed so far, this data included; only this object changes |
| CrcMod.Crc.Digest | crcmod/crcmod.py:154-166 | digest_size bytes, most significant first, that stand for crcValue |
| CrcInverse.ZeroBitsSeparate | crcmod/crcmod.py:319-338 | with a generator that has a constant term, feeding zero bits tells registers apart, in both directions |
| CrcInverse.OneMessage | crcmod/crcmod.py:430-435 | from every start, every CRC value is taken by exactly one message as long as the register, in both directions and for every xorOut |
| Crc64Combine.TimesLinear | obs/crc64mod.py:55-66 | matrix times vector is linear in the vector |
| Crc64Combine.TimesSquare | obs/crc64mod.py:50-66 | times(square(M), v) == times(M, times(M, v)) for every square matrix |
| Crc64Combine.TimesFeeds | obs/crc64mod.py:55-66 | a matrix whose rows feed k zero bits to each single bit feeds k zero bits to every register |
| Crc64Combine.SquareFeeds | obs/crc64mod.py:50-52 | squaring doubles the number of zero bits fed |
| Crc64Combine.Gf2MatrixTimes | obs/crc64mod.py:55-66 | the loop ends for every integer and sums the rows that the bits of the vector select; IndexError exactly for a vector that is negative or has more bits than the matrix has rows |
| Crc64Combine.Gf2MatrixSquare | obs/crc64mod.py:50-52 | overwrites the first matrix with the row-wise image of the second, which stays as it is |
| Crc64Combine.OneZeroBit | obs/crc64mod.py:78-89 | both initialisations write the matrix that feeds one zero bit |
| Crc64Combine.SquareAndApply | obs/crc64mod.py:96-99 | one half of the loop body: the overwritten buffer feeds twice as many zero bits and is applied when the bit is set, with an IndexError if crc1 is negative or too wide for it |
| Crc64Combine.FeedLength | obs/crc64mod.py:95-109 | the alternating loop terminates and applies exactly 8 * len2 zero bits to crc1; IndexError exactly for a crc1 that is negative or has more than 64 bits |
| Crc64Combine.Combine64 | obs/crc64mod.py:69-113 | crc1 relative to initCrc moved past len2 bytes, plus crc2; crc1 alone when len2 is 0; IndexError exactly for len2 > 0 and a crc1 that is negative or has more than 64 bits |
| CombineLaws.CrcOfWhole | obs/crc64mod.py:27-44 | the function of mkCrcFun gives the bit-serial CRC of A, of B and of A + B, and that of mkCombineFun makes the third from the first two: for all A, B and every generator of degree 64; all raise for no supported degree |
| CombineLaws.CombineCorrect | obs/crc64mod.py:27-44 | combine(crc(A), crc(B), len(B)) == crc(A + B) for all A, B and parameters |
| CombineLaws.CombineMovesStart | obs/crc64mod.py:69-113 | combining any crc1 with the CRC of B is the CRC of B started at crc1 |
| CombineLaws.MkCombineFunAndCall | obs/crc64mod.py:27-44 | ValueError for no supported degree, NotImplemented for one other than 64, IndexError for len2 > 0 and a crc1 that is negative or has more than 64 bits, otherwise the combination for the verified parameters |
| CombineLaws.CombineAssociates | obs/crc64mod.py:69-113 | the exact condition under which three parts combine in either order |
| CombineLaws.CombineAssociatesInvertible | obs/crc64mod.py:69-113 | for a generator with a constant term: associative iff the middle part is non-empty, its CRC is initCrc, or the last part is empty |
| CombineLaws.FoldCorrect | obs/crc64mod.py:69-113 | folding the (crc, length) pairs of any list of parts from initCrc gives the CRC of the whole |
| CombineLaws.FoldStart | obs/crc64mod.py:69-113 | for a generator with a constant term, from any other start it does not |
| CombineLaws.CalcObjCrcFromParts | obs/util.py:519-527 | never returns with a part whose size is 0, whose crc64 is absent or the number 0; with all others, texts included, and CRCs of 64 bits it returns the fold from 0; only a part CRC of more than 64 bits can make combine raise instead |
| CombineLaws.UploadCombine | obs/util.py:462-478 | Crc64.combine is the combination for its generator and xorOut, with the same IndexError |
| CombineLaws.UploadParameters | obs/util.py:462-471 | they are 0x142F0E1EBA9EA3693, reflected, and 64 ones |
| CombineLaws.ObjectCrcCorrect | obs/util.py:519-527 | for parts that describe their chunks, the result is the CRC of the object iff every part has a size and a crc64 other than the number 0, and init_crc is 0 modulo 2^64 |
| CombineLaws.CorrectPartRejected | obs/util.py:523-524 | for every init_crc there is exactly one chunk of 8 bytes whose rightly described part, its CRC given as a number, is turned away: its CRC is 0 |
| ThreadPool.StepInv | obs/bulktasks.py:42-78 | every step keeps: alive threads + queued sentinels + exited workers == thread_size (one more between a put and its decrement), no task behind a sentinel, each task in exactly one place, each called future completed or held by the one worker about to do it, the queue within its bound |
| ThreadPool.Possible | obs/bulktasks.py:42-78 | for each step exactly when it can happen, in terms of its own thread and the shared queue: what the others are doing never keeps a thread from going on |
| ThreadPool.TwoCalls | obs/bulktasks.py:42-57 | two threads with a task each can call them in either order, to one outcome |
| ThreadPool.AllBusy | obs/bulktasks.py:34-69 | in a fresh pool all threads can be at a task at once, thread w with the w-th of any list of different tasks |
| ThreadPool.RunInv | obs/bulktasks.py:42-78 | all of that after every run |
| ThreadPool.RunLength | obs/bulktasks.py:42-78 | every run is finite: its length is bounded by pending puts, queue, busy workers and what remains of shutdown, all weighted |
| ThreadPool.SafeRunsEndWell | obs/bulktasks.py:42-78 | under the condition, a state with nothing enabled has returned from shutdown, all threads ended, every task called once, every future completed |
| ThreadPool.UnsafeRun | obs/bulktasks.py:42-78 | without it, there is a run that ends deadlocked or with tasks not called |
| ThreadPool.EveryRunEndsWell | obs/bulktasks.py:25-78 | all runs end with shutdown returned, all threads ended, every task called once and every future completed iff fewer functions without future and callbacks of futures raise than there are threads (or there are as many tasks as threads) and the queue has room for the sentinels of the ended threads |
| ThreadPool.WaitedReturn | obs/bulktasks.py:71-78 | when shutdown(wait=True) has returned every thread has ended, and under the condition every task enqueued ran exactly once and every submitted future is COMPLETED |
| ThreadPool.UnwaitedReturn | obs/bulktasks.py:71-78 | shutdown(wait=False) can return with every thread still at its task |
| FutureCallbacks.FiresAtMostOnce | obs/bulktasks.py:104-127 | in every interleaving each registration fires at most once, and only after COMPLETED |
| FutureCallbacks.LastBeforeAndAllAfter | obs/bulktasks.py:122-127 | read off the run: the last registered before completion and every one after it fire exactly once, no other |
| FutureCallbacks.Possible | obs/bulktasks.py:104-127 | exactly when each step of the completion and of a registration can happen, whatever the others have done |
| FutureCallbacks.AnyOrder | obs/bulktasks.py:104-127 | any registrations in any order can come before the completion, and any of the others in any order behind it |
| BulkJob.TaskWrap | obs/extension.py:79-135 | by the size against the threshold, the status, and which call raises: what a task adds to the two counters, and when an exception leaves it |
| BulkJob.BusyThreadCan | obs/extension.py:124-135 | a thread with a task of the job can count it and end it at any time, in two moves where both counters are used; together they add what TaskWrap adds |
| BulkJob.LoopCan | obs/extension.py:51-92 | exactly when the loop can handle or put the object it is at, what it counts, and when it is ended |
| BulkJob.ThreadsCan | obs/bulktasks.py:42-57 | a waiting thread can take the head of the queue wherever loop and other threads are |
| BulkJob.AllThreadsBusy | obs/extension.py:51-92 | any job with as many tasks as threads can have all threads downloading at once |
| BulkJob.JobAccounts | obs/extension.py:51-100 | after every step of every run, whatever raises: successful counts the objects that succeed among those counted so far, and both counters together count all of those, once more for each whose second count is made |
| BulkOutcome.EveryJobEndsWell | obs/extension.py:51-100 | all complete runs return with every object handled or its task called iff each download finds a thread that no earlier one has ended, the queue has room for the sentinels of the ended ones, and no callback raises in the loop |
| BulkOutcome.UnsafeJobRun | obs/extension.py:51-100 | without that, a run of the loop in listing order that ends badly |
| BulkOutcome.CompleteRunEnds | obs/extension.py:94-98 | on the condition on threads and queue alone every complete run ends, returned or raised, with every object done that the loop got to |
| BulkOutcome.DownloadConserves | obs/extension.py:51-100 | all complete runs return with every object handled, the good ones counted in successful and the sum of both counters the number of objects, iff that condition holds and no callback raises on a delivered response; condition and end are written out in the fields of the objects |
| BulkOutcome.ReturnedDownload | obs/extension.py:94-100 | a run in which shutdown has returned is complete |
| BulkOutcome.LostObject | obs/extension.py:124-135 | a job outside the condition: two failing downloads on one thread return with one failure counted |
| BulkOutcome.LoopStopped | obs/extension.py:56-60 | an illegal path whose callback raises in front of a good download: every run ends with that exception, and the good object is never downloaded |
| BulkOutcome.OrderMatters | obs/extension.py:79-90 | a job within it whose tasks, put in any order, would be beyond the pool's own condition |
| BulkJob.JobRunLength | obs/extension.py:51-100 | no interleaving of loop and workers goes on for ever |
| IdnaCodec.SplitAppend | idna/codec.py:56 | more input changes only the last piece of the split |
| IdnaCodec.SplitMeans | idna/core.py:13 | the split at the first of U+002E, U+3002, U+FF0E and U+FF61, and so on with the rest |
| IdnaCodec.CodeMeans | idna/codec.py:56-79 | the meaning of a whole input, and of its finished labels, one label at a time: each converted and followed by a full stop |
| IdnaCodec.CodeLabels | idna/codec.py:56-79 | split, drop, convert, join and count give the labels one after the other, each finished one with a dot, and the characters they cover |
| IdnaCodec.OutputIsBuffered | idna/codec.py:56-79 | for a whole input, dropping the last piece, converting, joining and adding the dot equals coding label by label, and the size is that of the characters covered |
| IdnaCodec.ConsumedAtBoundary | idna/codec.py:56-79 | a call that is not final consumes up to and including the last separator |
| IdnaCodec.CodeInParts | idna/codec.py:49-79 | coding the finished labels first and the rest later changes nothing, failures included |
| IdnaCodec.StreamIsOneShot | idna/codec.py:49-79 | however the input is cut, the encoder's outputs run together to what one call on the whole gives, or both fail |
| IdnaCodec.CutsAgree | idna/codec.py:49-79 | so any two ways of cutting the same input agree |
| IdnaCodec.IncrementalEncoder.BufferEncode | idna/codec.py:49-79 | IDNAError for other error handlers, otherwise the coded labels and the characters used |
| IdnaCodec.BytesInParts | idna/codec.py:92-124 | coding the bytes of finished labels first and the rest later changes nothing, and a byte beyond ASCII fails both ways |
| IdnaCodec.IncrementalEncoder.Encode | idna/codec.py:37-79 | output and new buffer of one call; an exception leaves the buffer alone |
| IdnaCodec.IncrementalDecoder.BufferDecode | idna/codec.py:92-124 | the same for bytes; one from 128 on makes it raise |
| IdnaCodec.AsciiMeans | idna/codec.py:99-100 | bytes decode iff all are below 128, each to the character of its number |
| IdnaCodec.IncrementalDecoder.Decode | idna/codec.py:82-124 | output and new buffer of one call; an exception leaves the buffer alone |
| IdnaCodec.StreamBytesIsOneShot | idna/codec.py:92-124 | however its input is cut, the decoder gives what one call on the whole gives, or both fail |
| Bidi.CheckBidi | idna/core.py:99-171 | accepts exactly the labels within the length limit, of known directions, without right-to-left character (unless check_ltr) or meeting conditions 1 to 6 of section 2 of RFC 5893; otherwise names the first fault |
| Bidi.OneOutcome | idna/core.py:115-171 | the circumstances of the outcomes exclude each other, so what is raised is determined by the label |
| IntRanges.IntrangesFromList | idna/intranges.py:11-29 | the loop writes the maximal runs of the sorted list; for integers from -1 to 2^32 - 2 the result is sorted and contains exactly those of the list |
| IntRanges.DecodeEncode | idna/intranges.py:32-37 | a packed range decodes to itself while its end fits |
| IntRanges.EncodeBits | idna/intranges.py:32-33 | for all integers, end beyond its 32 bits and negative ones included: the bits of the end, with those of the start on top from number 32 on |
| IntRanges.ContainIsCovers | idna/intranges.py:40-55 | two looks beside the bisection point decide membership in all ranges, overlapping ones included |
| IntRanges.RunsMeaning | idna/intranges.py:22-28 | from any point of the loop, the ranges still written stand for exactly the rest of the list |
| IntRanges.IndexIsMembership | idna/intranges.py:11-55 | intranges_contain(x, intranges_from_list(l)) iff x in l, for every integer x and every list from -1 to 2^32 - 2, duplicates included |
| IntRanges.LimitIsExact | idna/intranges.py:32-37 | for all lists from m <= 0 to n >= 0 iff m >= -1 and n <= 2^32 - 2 |

## Left out

- CrcTable.CrcForward: the five forward loops of crcmod/_crcfunpy.py are one method with the width as a parameter, because they differ in their constants only; likewise CrcTable.CrcReflected.
- CrcMod.CrcFun: the optional C extension and the struct packing of its table (crcmod/crcmod.py:44-49 and 426-428) are not part of this model.
- CrcMod.MkCrcFunAndCall: the closure returned by the source is modelled as a call with the arguments of both.
- Crc64Combine.FeedLength: the loop body's two halves are calls of one method, which the source writes out twice.
- CombineLaws.MkCombineFunAndCall: obs/crc64mod.py repeats the parameter checks and `_bitrev` of crcmod/crcmod.py up to integer types; the model has them once.
- CombineLaws.Part: a crc64 field that is not a non-negative number is not modelled.
- `hexdigest`, `__str__`, `generateCode` and the predefined parameter table of crcmod.
- ThreadPool.Next: threads, queue and locks are values in a transition system and not objects, because the steps of different threads interleave.
- ThreadPool.WaitedReturn: one caller of shutdown, and nothing is enqueued after it begins; a put behind a sentinel would never be called.
- ThreadPool.Task: completing a future and calling its callback on the worker is one step, and whether that callback raises is fixed with the task.
- `get_result` and `get_exception` with their timeouts.
- FutureCallbacks.Init: one completion for each future, as the pool makes it; the future is a value, as the pool is, because completion and registrations interleave.
- BulkJob.Moved: the loop of `_download_files` is steps of the same transition system, because it runs beside the workers.
- BulkJob.Move: the loop counts a failure and calls the callback in one step; it shares nothing with the workers in between.
- BulkJob.Object: path tests, directory creation, the two download functions and their callbacks are given as their outcomes; file system, network, notifiers and progress reports are not modelled, nor is the pagination of the listing.
- IdnaCodec.LabelFun: `alabel` and `ulabel` are any partial functions that fail on the empty label, as both do; IDNAError and UnicodeDecodeError are one outcome `Raised`.
- IdnaCodec.Feed: `encode` and `decode` of the standard library's buffered codecs are modelled as `data = buffer + input` and `buffer = data[consumed:]`; the encoder's output bytes are written as characters.
- `Codec.encode` and `Codec.decode`, which call the whole-domain functions of idna/core.py.
- Bidi.Label: a label is the sequence of its characters' bidirectional categories; the Unicode tables are not modelled. The remaining checks of idna/core.py are left out.
- `main.py`, the clients under obs/, the Unicode tables and charset_normalizer: glue, I/O, data or heuristics.
