# Verified models of the sieve, the RAID drivers, the CRC and the streaming hashes

This project models five components of the repository in Dafny and proves what they compute. Running
`dafny verify dfyconfig.toml` checks all of it.

- **Threaded sieve** (`Bitmap`, `SieveWorkers`, `Primes`, `Sieve`). The workers are a transition system over the
  shared byte array: test, wait, read, write, post, for any number of threads and any interleaving. Invariants over
  every run give what the join leaves in memory, mutual exclusion per byte, absence of deadlock and a bound on the
  length of runs. The loops around it, up to the printed count, are methods on the array. All counters wrap at 2^64
  explicitly; `Fits` says when none of them does. That the scan always finds a next prime needs a prime between n and
  n^2, which `Primes` proves from the least common multiple of 1..2m+1 and the central binomial coefficient.
- **RAID-5 array** (`Words`, `Devices`, `Raid5Spec`, `Raid5Runs`, `Raid5`). `SsdArray` changes the driver's byte arrays
  in place, each array call as one atomic step. `Raid5Runs` is the state machine of writes, reads, erases and
  recovers with the failure flag.
- **RAID-6 encoder** (`Gf256`, `Raid6`, `Raid6Range`). The field GF(2^8) modulo 0x11d is defined by shift-and-add multiplication,
  independently of the tables.
- **CRC** (`CrcBits`, `Crc`, `CrcPoly`). A W-bit register is a sequence of bits, most significant first. The
  reference is bit-serial long division; `CrcPoly` shows that it is the polynomial remainder over GF(2), with
  polynomials as sets of exponents.
- **Hashes** (`Blocks`, `Sha256Spec`, `Sha2Spec`, `Sha2`, `Sha2Narrow`, `Sha1Spec`, `Sha1Long`, `Sha1Block`, `Sha1Count`, `Sha1`, `Md5Spec`,
  `Md5`). Each context is a class with its partial block, counters and chaining state and a ghost record of the
  bytes already compressed; `Message()` is everything hashed so far. The `...Spec` modules are the standards' own
  forms: message schedules as recursive functions and rounds that shift registers. The block methods keep the
  program's forms: the word ring, renamed registers and unrolled rounds.

Conditions under which the code is modelled:

- The sieve's array holds every bit its sweeps touch, which may include bit MAX+1 (`Sieve.Roomy`), and MAX+1, p*p and
  the workers' counters do not wrap, for the primes p that the outer loop comes to (`Sieve.Fits`). With the source's
  eight threads that is so exactly for MAX below the square of a prime under 2^32 (`Sieve.SourceFits`). The compiled-in
  MAX violates this; `Sieve.SourceMaxIsExact` and `Sieve.SourceMaxNeverEnds` say what happens then. The thread count
  is even.
- Pointers are 8 bytes wide, so that the RAID decoders stride by words. RAID-6 buffers hold 65 words, the 13 stripes
  of 5 words that the loops walk; the repository declares 64. The table builder of RAID-6 is declared but never called
  in the repository: built tables are a hypothesis where they are needed, and `Raid6.ZeroTables` says what the tables do as they are. A
  lookup may run past entry 255: the sequence that holds the antilog table goes on with whatever the memory there holds.
- In the CRC, unsigned long is 32 bits. In SHA-1 it is 32 or 64 bits, by a field of the context.
- Lengths of one call stay within the ints of the code: in SHA-2 the block offsets (`Sha2.OneCallFits`, at most 2^25
  blocks of 64 bytes or 2^24 of 128 past the buffer), in MD5 the length and, with a partial block, its sum with the
  offset (`Md5.OneCallFits`). Totals are unlimited. `nbytes << 3` in MD5 is taken to wrap.
- The SHA-2 context holds words of 64 bits, of which SHA-224 and SHA-256 use 32; `Sha2Narrow` proves that they compute
  the 32-bit form of `Sha256Spec`. In SHA-1 and MD5 the words of the standard are
  32-bit vectors, and the sum of five terms in a SHA-1 round is grouped as the program groups it.

## Model

| member | source | states |
|---|---|---|
| Bitmap.StoreBitBits | test/prime/erast.c:96-120 | A read-modify-write of one byte changes bit i of the packed array and no other bit of the array. |
| Bitmap.ChkIsPrime | test/prime/erast.c:83-94 | The test returns bit i of the packed array. |
| Bitmap.SetIsPrime | test/prime/erast.c:96-120 | With nobody else in the byte, the array afterwards is the old one with bit i set or cleared. |
| SieveWorkers.CountersFit | test/prime/erast.c:142-145 | While a worker's loop test holds, neither the number it clears nor its next counter wraps at 2^64. |
| SieveWorkers.DifferentBytes | test/prime/erast.c:109-117 | Two workers inside the critical section are in different bytes, because the lock depends on the byte index alone. |
| SieveWorkers.StepKeepsInv | test/prime/erast.c:107-118 | Every test, wait, read, write or post of any worker keeps the invariant: locks exclusive, read bytes not stale, memory equal to the start minus what was cleared. |
| SieveWorkers.JoinedIsSwept | test/prime/erast.c:241-263 | When all workers are joined, exactly the swept bits are cleared: every multiple from 2p to MAX, bit MAX+1 for some thread numbers, nothing else; no clear is lost, and every semaphore is free again. |
| SieveWorkers.TargetsDistinct | test/prime/erast.c:138-147 | No number is struck twice: not by two workers, and not in two rounds of one worker. |
| SieveWorkers.NoDeadlock | test/prime/erast.c:109-117 | In every reachable state before the join some worker can step. |
| SieveWorkers.StepsRunOut | test/prime/erast.c:138-151 | Every step of every worker lowers a bound on the remaining steps. |
| SieveWorkers.SafeStep | test/prime/erast.c:138-151 | Any enabled step stays inside the array, keeps the invariant and makes progress. |
| SieveWorkers.EveryRun | test/prime/erast.c:225-263 | For every interleaving: if it has reached the join the memory is swept, otherwise it can go on, and its length is bounded. |
| SieveWorkers.EveryRunExcludes | test/prime/erast.c:107-118 | In every reachable state of every run two lock holders are in different bytes. |
| Sieve.ScrambleThreadIds | test/prime/erast.c:189-203 | For every even N the loop fills threadID with a permutation of 0..N-1. |
| Sieve.ScrambleIsPermutation | test/prime/erast.c:189-203 | The pairwise swapped numbering hits every thread number exactly once. |
| Sieve.StrikesAreSwept | test/prime/erast.c:138-147 | The workers' index sets are disjoint and together exactly the swept numbers: each is struck by exactly one worker in exactly one round. |
| Sieve.RunWorker | test/prime/erast.c:138-151 | One step of one worker on the shared array and semaphores is the step of the transition system. |
| Sieve.InvalidateThreads | test/prime/erast.c:241-263 | Under any scheduling, run to the join, the threaded sweep clears exactly the swept bits and leaves the semaphores, which persist from sweep to sweep, as they were. |
| Sieve.InvalidateSequential | test/prime/erast.c:225-231 | The sequential loop clears exactly the multiples of p from 2p to MAX and leaves every other bit of the array. |
| Sieve.ThreadsMatchSequential | test/prime/erast.c:225-263 | Every run of the threads that has reached the join leaves bits 0..MAX as the sequential loop does. |
| Sieve.InvalidateGridRow | test/prime/erast.c:268-276 | The loop of one grid index clears exactly the numbers that thread number would clear. |
| Sieve.InvalidateGrid | test/prime/erast.c:268-278 | The sequential grid variant clears exactly what the threads clear. |
| Sieve.MarkAll | test/prime/erast.c:210-211 | After initialisation bits 2..MAX-1 are set; bit MAX keeps its allocated value unless it is in the first byte. |
| Sieve.SweepSifts | test/prime/erast.c:216-281 | Sweeping a prime p takes the array from sifted below p to sifted below p+1. |
| Sieve.FirstSurvivor | test/prime/erast.c:284-287 | The first set bit after p is a prime with no prime between. |
| Primes.PrimeBelowSquare | test/prime/erast.c:284-287 | For every n >= 2 a prime lies strictly between n and n^2, so the scan always finds its next p before it passes MAX. |
| Sieve.ScanFindsNext | test/prime/erast.c:284-287 | Over a sifted array the scan moves p to the next prime, which is below MAX. |
| Sieve.NextPrime | test/prime/erast.c:284-287 | The loop computes the scan: the first set bit from p+1 on, or p when no turn finds one, with the wrapped bound MAX+1. |
| Sieve.SweepAndAdvance | test/prime/erast.c:216-289 | One pass of the outer loop keeps p prime, moves it to the next prime and keeps the array sifted. |
| Sieve.SiftedToTheEnd | test/prime/erast.c:216-289 | When p*p exceeds MAX every bit below MAX is exactly primality. |
| Sieve.CountMarked | test/prime/erast.c:292-299 | The printed counter is the number of set bits 0..MAX modulo 2^32. |
| Sieve.MarkedArePrimes | test/prime/erast.c:292-299 | Over an array that says primality the number of set bits is the number of primes. |
| Sieve.Sieve | test/prime/erast.c:154-303 | The whole program, for limits under which no counter it comes to wraps and in any array with room for the bits its sweeps touch: for i < MAX bit i is set exactly when i is prime; bit MAX exactly when MAX is prime and its uninitialised bit was set; the count is the number of those bits modulo 2^32. |
| Sieve.FitsBelow32 | test/prime/erast.c:216-216 | For every MAX below 2^32 and under 2^31 threads no counter of the program wraps. |
| Sieve.SourceFits | test/prime/erast.c:216-216 | With the source's eight threads no 64-bit counter of the program wraps (bound, square test, sweeps) if and only if MAX is below the square of some prime under 2^32. |
| Sieve.SieveBelow32 | test/prime/erast.c:154-303 | For those limits the program's results hold with no condition but room in the array. |
| Sieve.AllocationIsLeft | test/prime/erast.c:165-165 | A worker strikes past the MAX/8+1 allocated bytes if and only if MAX % 8 is 7 and bit MAX+1 is swept. |
| Sieve.SourceAllocation | test/prime/erast.c:165-165 | With the source's eight threads its allocation has room for every sweep if and only if MAX % 8 is not 7. |
| Sieve.SourceMaxSweepsNothing | test/prime/erast.c:26-26 | With the compiled-in limit 2^64-1 the bound wraps to 0 and no run of the workers ever clears a bit. |
| Sieve.SourceMaxIsExact | test/prime/erast.c:138-151 | Among all 64-bit limits with a set multiple to clear, every run leaves the memory unchanged if and only if MAX is 2^64-1. |
| Sieve.SourceMaxNeverEnds | test/prime/erast.c:216-289 | Under that limit the outer loop's guard stays true and its turns, which exist from every state, are exactly those that change neither the array nor p: it cannot end. |
| Words.XorOfValues | lab3/q7/ssd.c:413-413 | XOR byte by byte is the XOR of the 64-bit numbers on a little-endian machine. |
| Devices.StoreWord | lab3/q7/ssd.c:421-428 | A 64-bit store changes one word of one device. |
| Raid5Spec.EncodedIsConsistent | lab3/q7/ssd.c:385-437 | Every stripe XORs to zero over the five devices after encoding. |
| Raid5Spec.DecodeInvertsEncode | lab3/q7/ssd.c:441-464 | Decoding an encoded array returns the 64 data words in order. |
| Raid5Spec.RecoverRestores | lab3/q7/ssd.c:466-492 | Rebuilding one device from four good ones restores the encoding of the buffer. |
| Raid5Spec.SurvivesOneFailure | lab3/q7/ssd.c:385-492 | For every buffer, device f < 5 and damage to f: encode, damage, recover f, decode returns the buffer. |
| Raid5Spec.RecoverConsistent | lab3/q7/ssd.c:466-492 | Recovering any device of a consistent array changes nothing. |
| Raid5Runs.EncodeAgain | lab3/q7/ssd.c:209-211 | Encoding the same buffer again changes nothing, which is what the write path's 512-turn loop comes to. |
| Raid5Runs.StepKeepsInv | lab3/q7/ssd.c:145-290 | Every guarded operation keeps the invariant: the stripes encode the last buffer, except that one failed device may be blank. |
| Raid5Runs.RunReadsLastWrite | lab3/q7/ssd.c:145-290 | Along every guarded run the reads return what a plain store would return. |
| Raid5Runs.ArrayIsAStore | lab3/q7/ssd.c:145-290 | From any contents, after one array write, every read of every guarded run of writes, reads, erases and recovers yields the last buffer written. |
| Raid5Spec.ConsistentIsEncoded | lab3/q7/ssd.c:385-464 | An array is parity-consistent if and only if it is the encoding of what it decodes to. |
| Raid5Runs.RecoveryIsHarmless | lab3/q7/ssd.c:287-290 | Recovering a device of a healthy array never changes what is read if and only if the contents are parity-consistent. |
| Raid5Runs.StoreFromTheStart | lab3/q7/ssd.c:145-290 | Without a first write, a healthy array is a store of what it decodes to, over every guarded run, if and only if its contents are parity-consistent. |
| Raid5Runs.BlankArrayIsUnstable | lab3/q7/ssd.c:350-361 | The erased start state is an instance that is not: it is inconsistent, and recovering device 0 changes what is read. |
| Raid5Runs.UnguardedLoses | lab3/q7/ssd.c:274-290 | After a write and the erasure of an array device, an erase or recover of another device makes the next read wrong. |
| Raid5Runs.HarmlessExactly | lab3/q7/ssd.c:274-290 | Buffer by buffer, in any state of a guarded run with device f failed: an erase or recover of another device keeps the buffer readable if and only if every word of f that the next read depends on should be all ones. |
| Raid5Runs.GuardIsExact | lab3/q7/ssd.c:274-290 | After a write and the erasure of f, one more erase or recover of d keeps every buffer readable if and only if f is no array device or d = f. |
| Raid5.BufWordsInjective | lab3/q7/ssd.c:391-391 | The 64 words of a 512-byte buffer determine its bytes. |
| Raid5.SsdArray.constructor | lab3/q7/ssd.c:350-361 | At driver start the stripe area of every device is all ones and no device is failed. |
| Raid5.SsdArray.StoreStripe | lab3/q7/ssd.c:413-431 | The inner loop puts the four words on the four non-parity devices in order and their XOR on device p. |
| Raid5.SsdArray.ComputeStripe | lab3/q7/ssd.c:397-431 | One turn of the stripe loop encodes stripe k and leaves the other stripes. |
| Raid5.SsdArray.ComputeRaid5 | lab3/q7/ssd.c:385-437 | The arrays afterwards hold the encoding of the write buffer, with nothing changed outside the stripes. |
| Raid5.SsdArray.DecodeRaid5 | lab3/q7/ssd.c:441-464 | The read buffer afterwards holds the data words in order. |
| Raid5.SsdArray.Raid5Recover | lab3/q7/ssd.c:466-492 | Device `failure` afterwards holds the XOR of the other array devices in every stripe. |
| Raid5.SsdArray.EraseDevice | lab3/q7/ssd.c:277-282 | The erase loop sets bytes 0..131074 of the device, and so its whole stripe area, to 0xFF and changes nothing else. |
| Raid5.SsdArray.Heal | lab3/q7/ssd.c:145-149 | A failed device is rebuilt before an array access and the failure flag cleared. |
| Raid5.SsdArray.ArrayRead | lab3/q7/ssd.c:143-156 | An array read performs the read transition and returns its 512 bytes. |
| Raid5.SsdArray.ArrayWrite | lab3/q7/ssd.c:177-212 | An array write performs the write transition for its 512 bytes. |
| Raid5.SsdArray.IoctlErase | lab3/q7/ssd.c:274-286 | The erase call performs the erase transition and covers bytes 0..131074 only. |
| Raid5.SsdArray.IoctlRecover | lab3/q7/ssd.c:287-290 | The recover call performs the recover transition. |
| Raid5.Perform | lab3/q7/ssd.c:143-290 | One guarded call keeps the invariant, and a read returns the last 512 bytes written. |
| Raid5.RunCalls | lab3/q7/ssd.c:143-290 | On the driver's arrays, from any contents and after one write, the reads of every guarded sequence of calls return the last 512 bytes written. |
| Gf256.XtimeReduces | lab3/q7_2/q7/ssd.c:578-580 | The branch-free doubling is the table builder's shift and conditional XOR with 0x11d. |
| Gf256.MulXtime | lab3/q7_2/q7/ssd.c:427-431 | Multiplication commutes with multiplication by x in either factor. |
| Gf256.MulPow2 | lab3/q7_2/q7/ssd.c:427-431 | Multiplying by 2^i is doubling i times. |
| Gf256.Pow2Adds | lab3/q7_2/q7/ssd.c:427-431 | Powers of 2 multiply by adding exponents. |
| Gf256.NoShorterPeriod | lab3/q7_2/q7/ssd.c:567-582 | No proper divisor of 255 is a period of 2: its order is 255. |
| Gf256.Pow2Injective | lab3/q7_2/q7/ssd.c:572-581 | The first 255 powers of 2 are distinct. |
| Gf256.EveryByteIsAPower | lab3/q7_2/q7/ssd.c:572-581 | Every nonzero byte is one of the first 255 powers of 2. |
| Raid6.BuildRaid6Table | lab3/q7_2/q7/ssd.c:567-582 | The build loop makes the log and antilog tables of 0x11d; the entries it skips stay zero. |
| Raid6.LogInverts | lab3/q7_2/q7/ssd.c:567-582 | Built log and antilog tables are mutually inverse on every nonzero byte. |
| Raid6.LookupIsProduct | lab3/q7_2/q7/ssd.c:427-431 | A table lookup for coefficient 2^i and byte b is the field product if and only if b is nonzero and log b + i <= 254. |
| Raid6.BuiltReadable | lab3/q7_2/q7/ssd.c:427-431 | The lookups for built tables reach exactly three entries past the 256: all of them are readable if and only if the memory goes on that far. |
| Raid6.ZeroTables | lab3/q7_2/q7/ssd.c:44-45 | With the tables all zero, as the repository leaves them, the Q code of every stripe is zero. |
| Raid6.QLba | lab3/q7_2/q7/ssd.c:400-435 | Each byte of the Q code is the XOR of the five table lookups of that lane. |
| Raid6.QIsFieldSum | lab3/q7_2/q7/ssd.c:400-435 | Within range every lane of Q is the GF(2^8) sum of 2^i times byte i. |
| Raid6.AnyTwoDetermined | lab3/q7_2/q7/ssd.c:465-493 | Two in-range stripes that agree on three data words and on P and Q are equal. |
| Raid6.ZeroBytesCollide | lab3/q7_2/q7/ssd.c:427-431 | An example of the failure out of range: two different stripes with zero bytes agree on three words, P and Q. |
| Raid6.AnyFiveDetermine | lab3/q7_2/q7/ssd.c:470-495 | Two in-range stripes that agree on any five of their seven stored words are equal, whichever of data, P and Q the other two hold. |
| Raid6Range.RangeInBytes | lab3/q7_2/q7/ssd.c:427-431 | The range condition for coefficient 2^i as a condition on the byte: nonzero and not one of the last i powers of 2. |
| Raid6Range.LookupIsTerm | lab3/q7_2/q7/ssd.c:427-431 | What a lookup inside the table yields, in range and out of it. |
| Raid6Range.RangeIsExact | lab3/q7_2/q7/ssd.c:400-435 | For a lookup inside the table: any two lost data words stay determined when word i may also hold byte b, if and only if b is in range for word i. |
| Raid6.Rotation | lab3/q7_2/q7/ssd.c:496-504 | Q sits one device after P, modulo 7, in every stripe, and both step down with wrap-around. |
| Raid6.FiveSlots | lab3/q7_2/q7/ssd.c:470-495 | Five slots remain in every stripe, in rising device order, apart from P and Q. |
| Raid6.DecodeInvertsEncode | lab3/q7_2/q7/ssd.c:438-538 | Decoding an encoded array returns the 65 words whatever the Q slots hold; the P slot is the XOR of the five data words. |
| Raid6.SsdArray6.ComputeStripe | lab3/q7_2/q7/ssd.c:450-495 | One turn of the stripe loop encodes stripe k with its rotated P and Q. |
| Raid6.SsdArray6.ComputeRaid6 | lab3/q7_2/q7/ssd.c:438-506 | The arrays afterwards encode the write buffer, with Q from the tables and nothing changed outside the stripes. |
| Raid6.SsdArray6.DecodeRaid6 | lab3/q7_2/q7/ssd.c:510-538 | The read buffer afterwards holds the data words in order. |
| Raid6.SsdArray6.ArrayWrite | lab3/q7_2/q7/ssd.c:172-215 | A write to the array encodes its 512 bytes and the 8 that follow them in the buffer. |
| Raid6.SsdArray6.ArrayRead | lab3/q7_2/q7/ssd.c:146-158 | A read of the array returns the first 512 of the decoded bytes. |
| Raid6.WriteThenRead | lab3/q7_2/q7/ssd.c:146-215 | A read returns the 512 bytes of the last write, and decoding puts all 520 encoded bytes back, whatever the tables hold. |
| CrcBits.StepsLinear | lab1/ex3/crc.c:115-128 | Division steps are linear over XOR. |
| CrcBits.EightSteps | lab1/ex3/crc.c:176-189 | Eight steps split into the steps of the top byte alone XOR a plain shift of the rest. |
| CrcBits.FeedIsSteps | lab1/ex3/crc.c:110-128 | Adding a stream that fits the register at once and stepping equals dividing it bit by bit. |
| CrcBits.StepsInjective | lab1/ex3/crc.c:115-128 | For an odd generator the steps are injective. |
| CrcBits.EvenMerges | lab1/ex3/crc.c:115-128 | For an even generator, from any register, two different full windows lead to the same register. |
| Crc.StandardsAreValid | lab1/ex3/crc.h:29-69 | The three parameter sets fit their widths and have odd generators. |
| Crc.Reflect | lab1/ex3/crc.c:56-80 | The loop reflects the low nBits of a 32-bit number about their middle and drops the higher bits. |
| Crc.Divide | lab1/ex3/crc.c:115-128 | The inner loop makes as many division steps as it has turns. |
| Crc.CrcSlow | lab1/ex3/crc.c:94-136 | The slow CRC is bit-serial long division of the message stream, then reflection and XOR. |
| Crc.CrcInit | lab1/ex3/crc.c:155-197 | Every table entry is eight division steps of its dividend followed by zeros. |
| Crc.LookupIsDivision | lab1/ex3/crc.c:224-225 | With a built table, one lookup XOR shift is the division of one whole byte. |
| Crc.CrcFast | lab1/ex3/crc.c:211-233 | The table-driven CRC is the same long division. |
| Crc.FastEqualsSlow | lab1/ex3/crc.c:94-233 | After the table is built, fast and slow CRC agree for every message and parameter set. |
| Crc.BurstDetected | lab1/ex3/crc.c:105-134 | With an odd generator, two messages whose streams differ only inside `width` consecutive bits, at any bit offset, have different CRCs. |
| Crc.EvenMisses | lab1/ex3/crc.c:105-134 | With an even generator, at every position of every message two width/8-byte contents have the same CRC. |
| Crc.BurstGuarantee | lab1/ex3/crc.c:105-134 | Every change within width/8 bytes is detected if and only if the generator is odd. |
| CrcPoly.StepDivides | lab1/ex3/crc.c:115-128 | One division step subtracts the quotient bit times the generator from x times the register plus the new term. |
| CrcPoly.FeedDivides | lab1/ex3/crc.c:105-129 | Dividing a whole stream: initial value times x^n plus stream times x^W is a multiple of the generator plus the register. |
| CrcPoly.RemainderIsUnique | lab1/ex3/crc.c:105-129 | A polynomial has one remainder of degree below W. |
| CrcPoly.RegisterIsRemainder | lab1/ex3/crc.c:105-129 | The register is that remainder, and the only one. |
| CrcPoly.CrcIsRemainder | lab1/ex3/crc.c:94-136 | A W-bit value is the remainder of initial value times x^(8n) plus message times x^W if and only if finishing it gives the CRC. |
| CrcPoly.FrameCheckSequence | lab1/ex3/crc.c:94-136 | With all-ones start and final XOR and reflection, the CRC is the complemented remainder of the frame whose first W bits are complemented, lowest bit first. |
| CrcPoly.Crc32IsFrameCheckSequence | lab1/ex3/crc.h:53-63 | For the CRC-32 parameters and every message of at least 4 bytes this is the frame check sequence of section 3.2.9 of IEEE 802.3. |
| Blocks.FoldAppend | lab1/ex3/sha2.c:376-377 | Compressing whole blocks and then more data is compressing their concatenation. |
| Blocks.PaddedSplits | lab1/ex3/sha2.c:398-406 | Equal paddings have equal length fields, and equal messages when the lengths agree. |
| Sha2Narrow.WideRotr | lab1/ex3/sha2.c:43-43 | On 32-bit words held in 64 bits the macro ROTR is the 32-bit rotation, for every count up to 32. |
| Sha2Narrow.WideShr | lab1/ex3/sha2.c:42-42 | On 32-bit words held in 64 bits the macro SHFR is the 32-bit shift, for every count up to 32. |
| Sha2Narrow.WideSchedule | lab1/ex3/sha2.c:229-235 | The message schedule of SHA-256 is the 32-bit schedule, word by word. |
| Sha2Narrow.WideRounds | lab1/ex3/sha2.c:241-253 | The rounds of SHA-256 are the 32-bit rounds, after every round. |
| Sha2Narrow.WideCompress | lab1/ex3/sha2.c:212-325 | One block of SHA-256 is the block function of section 6.2.2 of FIPS 180-2 on 32-bit words, for every chaining value and block. |
| Sha2Narrow.NarrowDigest | lab1/ex3/sha2.c:410-423 | The digests of the SHA-256 family are those of the 32-bit form, for every initial value, length and padded message. |
| Sha2Narrow.NarrowHashes | lab1/ex3/sha2.c:130-136 | SHA-224 and SHA-256 start from the standard's 32-bit initial values. |
| Sha2Narrow.Sha256Chunks | lab1/ex3/sha2.c:354-424 | For any split the digest is SHA-256's in 32-bit arithmetic over the program's padding; under 2^29 bytes, over the standard's. |
| Sha2Narrow.Sha224Chunks | lab1/ex3/sha2.c:753-822 | The same for SHA-224. |
| Blocks.OffsetsFit | lab1/ex3/sha2.c:225-226 | The int offsets of the blocks of one call fit exactly up to 2^25 blocks of 64 bytes or 2^24 of 128. |
| Sha2Spec.RenamedRound | lab1/ex3/sha2.c:112-128 | Storing two words and moving role a one index down, modulo 8, is the round that shifts all eight registers. |
| Sha2Spec.PaddingExact | lab1/ex3/sha2.c:398-406 | For every message the standard admits, the program pads as sections 5.1.1 and 5.1.2 of FIPS 180-2 do if and only if it is under 2^29 bytes. |
| Sha2Spec.ProgramPaddingInjective | lab1/ex3/sha2.c:398-406 | Even beyond 2^29 bytes the program never pads two messages to the same blocks. |
| Sha2.Context.LoadSchedule | lab1/ex3/sha2.c:229-235 | The word array holds the message schedule. |
| Sha2.Context.RolledRounds | lab1/ex3/sha2.c:241-253 | The rolled loop computes the rounds of the standard. |
| Sha2.Context.Exp | lab1/ex3/sha2.c:112-128 | A renamed round, in round j of a block, reaches the standard's state of round j+1 at the shifted role. |
| Sha2.Context.EightRounds | lab1/ex3/sha2.c:505-512 | Eight renamed rounds return every role to its own index. |
| Sha2.Context.UnrolledRounds | lab1/ex3/sha2.c:286-317 | The unrolled form computes the same rounds as the rolled loop, for 64 and for 80 of them. |
| Sha2.Context.AddState | lab1/ex3/sha2.c:255-257 | The working variables are added to the chaining value word by word. |
| Sha2.Context.TransfBlock | lab1/ex3/sha2.c:225-323 | One block, in either form, is one application of the compression function. |
| Sha2.Context.Transf | lab1/ex3/sha2.c:212-325 | The block loop folds the compression function over its blocks, while their offsets fit an int. |
| Sha2.Context.constructor | lab1/ex3/sha2.c:336-352 | A new context has hashed nothing. |
| Sha2.Context.FillBuffer | lab1/ex3/sha2.c:361-364 | The buffer afterwards continues with as much of the message as it has room for. |
| Sha2.Context.KeepRest | lab1/ex3/sha2.c:379-385 | The bytes after the whole blocks stay in the buffer and the totals are kept modulo 2^32. |
| Sha2.Context.Update | lab1/ex3/sha2.c:354-386 | Updating appends to the hashed message, whatever the chunk and the buffer's fill. |
| Sha2.PaddingFits | lab1/ex3/sha2.c:398-406 | One or two buffer blocks, by the 9- or 17-byte threshold, complete the padded message. |
| Sha2.Context.PadBuffer | lab1/ex3/sha2.c:404-406 | The buffer afterwards holds the rest, 0x80, zeros and the 32-bit bit length. |
| Sha2.Context.Final | lab1/ex3/sha2.c:388-424 | The digest is the truncated fold of the compression function over the padded message. |
| Sha2.OneShot | lab1/ex3/sha2.c:327-334 | The one-call form gives the digest of its message. |
| Sha2.HashChunks | lab1/ex3/sha2.c:354-424 | For any split into update calls the digest is the digest of the whole; under 2^29 bytes it is the FIPS 180-2 digest. All four hashes. |
| Sha1Long.LowPlus | lab1/ex3/sha1.c:103-106 | Addition of unsigned longs, of 32 or 64 bits, is addition modulo 2^32 of their low halves. |
| Sha1Long.LowRotate5 | lab1/ex3/sha1.c:94-94 | The macro S rotates the low 32 bits, whatever is above them. |
| Sha1Long.LowF | lab1/ex3/sha1.c:114-195 | The program's round functions are those of section 5 of FIPS 180-1. |
| Sha1Block.RingStep | lab1/ex3/sha1.c:96-101 | Overwriting slot t mod 16 keeps the last sixteen schedule words in the ring. |
| Sha1Block.Operand | lab1/ex3/sha1.c:96-136 | The operand of round t is word t of the 80-word schedule, from the block or from the ring. |
| Sha1Block.P | lab1/ex3/sha1.c:103-106 | Storing e and b and renaming is the round of section 7 that shifts five registers. |
| Sha1Block.Process | lab1/ex3/sha1.c:73-227 | The ring and the 80 renamed rounds compute section 7's result modulo 2^32 for every block and state, with 32- or 64-bit unsigned long. |
| Sha1Count.CountCarries | lab1/ex3/sha1.c:243-247 | The masked add and carry test keep the two-word byte count. |
| Sha1Count.LengthField | lab1/ex3/sha1.c:290-295 | The eight bytes written from the two words are the 64-bit count of bits. |
| Sha1.Context.Starts | lab1/ex3/sha1.c:61-71 | A started context has hashed nothing. |
| Sha1.Context.Absorb | lab1/ex3/sha1.c:249-270 | Completing a partial block, taking whole blocks and keeping the rest appends the input. |
| Sha1.Context.Update | lab1/ex3/sha1.c:232-271 | Updating appends ilen bytes to the hashed message; a length of zero or less changes nothing. |
| Sha1.PaddingFits | lab1/ex3/sha1.c:297-301 | The padding bytes and the length complete the padded message of section 4. |
| Sha1.Context.Finish | lab1/ex3/sha1.c:284-308 | The output is the FIPS 180-1 digest of everything hashed, for every total length. |
| Sha1.Context.SetPad | lab1/ex3/sha1.c:371-378 | A pad is its byte XORed with the zero-filled key. |
| Sha1.Context.HmacStarts | lab1/ex3/sha1.c:359-384 | Keys over 64 bytes are hashed first; the inner hash has taken K XOR ipad and K XOR opad is kept. |
| Sha1.Context.HmacFinish | lab1/ex3/sha1.c:397-408 | The output is the digest of the kept pad followed by the inner digest. |
| Sha1.OneShot | lab1/ex3/sha1.c:313-322 | The one-call form gives the digest of its input. |
| Sha1.HashChunks | lab1/ex3/sha1.c:232-308 | For any split into update calls the output is the digest of the whole. |
| Sha1.HmacChunks | lab1/ex3/sha1.c:359-423 | For any key and any split of the text the output is H((K XOR opad) followed by H((K XOR ipad) followed by text)) of section 2 of RFC 2104. |
| Md5Spec.UnstepStep | lab1/ex3/md5.c:203-205 | The inverse step undoes a step. |
| Md5Spec.StepUnstep | lab1/ex3/md5.c:203-205 | A step undoes the inverse step. |
| Md5Spec.StepsAreBijective | lab1/ex3/md5.c:197-301 | For a fixed block the steps are a bijection on the four registers: the inverse run undoes them and they undo it. |
| Md5.Constants1 | lab1/ex3/md5.c:65-80 | The program's constants of round 1 are the sine table of RFC 1321. |
| Md5.Constants2 | lab1/ex3/md5.c:81-96 | The program's constants of round 2 are the sine table of RFC 1321. |
| Md5.Constants3 | lab1/ex3/md5.c:97-112 | The program's constants of round 3 are the sine table of RFC 1321. |
| Md5.Constants4 | lab1/ex3/md5.c:113-128 | The program's constants of round 4 are the sine table of RFC 1321. |
| Md5.Context.Set | lab1/ex3/md5.c:203-205 | Storing one register and renaming is one step of the standard. |
| Md5.Context.Round1 | lab1/ex3/md5.c:202-222 | The sixteen listed operations of round 1 take steps 0..15 of the standard. |
| Md5.Context.Round2 | lab1/ex3/md5.c:228-248 | The sixteen listed operations of round 2 take steps 16..31 of the standard. |
| Md5.Context.Round3 | lab1/ex3/md5.c:254-274 | The sixteen listed operations of round 3 take steps 32..47 of the standard. |
| Md5.Context.Round4 | lab1/ex3/md5.c:280-300 | The sixteen listed operations of round 4 take steps 48..63 of the standard. |
| Md5.Context.Process | lab1/ex3/md5.c:131-310 | One block is one application of the compression function of RFC 1321 section 3.4. |
| Md5.CountCarries | lab1/ex3/md5.c:328-337 | The added high part, low part and carry test keep the two-word bit count, modulo 2^64. |
| Md5.LengthField | lab1/ex3/md5.c:373-374 | The eight bytes of the two words are the 64-bit count of bits, least significant first. |
| Md5.Context.constructor | lab1/ex3/md5.c:312-320 | A new context has hashed nothing. |
| Md5.Context.Absorb | lab1/ex3/md5.c:339-357 | Completing a partial block, taking whole blocks and keeping the rest appends the data. |
| Md5.Context.Append | lab1/ex3/md5.c:322-358 | Appending adds nbytes bytes to the hashed message; a length of zero or less changes nothing. |
| Md5.PaddingFits | lab1/ex3/md5.c:376-378 | The ((55 - count) & 63) + 1 padding bytes and the length complete the padded message. |
| Md5.Context.Finish | lab1/ex3/md5.c:360-381 | The digest is the RFC 1321 digest of everything hashed, for every total length. |
| Md5.HashChunks | lab1/ex3/md5.c:322-381 | For any split into append calls the digest is the digest of the whole. |

## Left out

- Kernel plumbing of the drivers: device registration, open and release, semaphores, user-space copies that fail, and return values. The array read returns its buffer here, not a byte count.
- Reads and writes of the single member devices, minor 7 in the erase and recover calls, and what happens after two failures beyond `Raid5Runs.UnguardedLoses`.
- The recovery function of the RAID-6 driver (lab3/q7_2/q7/ssd.c:540-566): it walks 5 devices and 16 stripes, not the 7-device, 13-stripe layout that is encoded.
- Raid6.SsdArray6.ComputeRaid6: requires every lookup to stay inside the memory modelled from the antilog table on; with three more entries than the table that is every lookup (`Raid6.BuiltReadable`), and nothing is said about what those entries hold.
- Raid6.WriteThenRead: for an array in which no device has failed.
- Sha2.Context.Update: nothing is said about calls whose int block offsets overflow.
- Md5.Context.Append: nothing is said about calls whose `offset + nbytes` overflows.
- Sieve.Sieve: nothing is said about the run from the point on where a 64-bit counter has wrapped, beyond the compiled-in MAX.
- Sha2.Context.Final: gives the digest over the program's padding, which is the standard's exactly below 2^29 bytes (`Sha2Spec.PaddingExact`); for longer messages nothing is said about the standard's digest.
- Wiping of contexts and temporaries with memset after use, hashing of files, self-tests and test vectors.
- Run-time detection of byte order and pointer alignment in MD5: words are little-endian byte groups.
- Scheduling policy, thread creation failures and printing in the sieve.
- MPEG-2 parsing, time conversion, image filters, timing programs, clock and message-queue demonstrations: input and output, or easy claims.
- Collision and preimage resistance of the hashes.
