# Verified models of stress-ng's algorithmic core

Eight small algorithmic units of stress-ng, each modelled in Dafny and proved to do what it is for.

| unit | modules |
|---|---|
| shared lock pool and its spinlocks (core-lock.c) | `LockPool`, `LockCalls` |
| hashes and the chained hash table (core-hash.c) | `Crc32c`, `Murmur3`, `Coffin`, `HashTable` |
| multiply-with-carry generator and fair range reduction (core-mwc.c, core-mwc.h) | `Lehmer`, `Mwc`, `RangeReduction` |
| bit-pattern generator (core-bitgen.c) | `Bitgen`, `BitgenSweep`, `BitgenHamming`, `BitgenOrbit`, `BitgenModes`, `BitgenChoices` |
| primality and stride primes (core-prime.c) | `Primes`, `Striding` |
| flag permutations (core-helper.c) | `FlagPermutation` |
| Internet checksum (core-net.c) | `Checksum` |
| port reservation (core-net.c) | `Ports` |

`Wrappers`, `CStrings`, `Arithmetic`, `Widths`, `Registers` and `Words` are shared;
`Residues` and `LargePrimes` hold the number theory that `BitgenOrbit` and `Striding` need. `Words` keeps a machine word as the list of its bits.
`dafny verify dfyconfig.toml` checks everything.

Code that updates state is a class or a method with its loops, proved against a specification function; the lemmas
are about that function. The lock pool is a transition system: each action is one step of the C code by one of any
number of processes, with at most one access to shared memory (or, twice, a pair that no other process can come between
in effect: `LockPool.MagicIsStable`), so that a run is an interleaving of the C code.

## Where the code does not do what its comments say

The models follow the code. For each of these a theorem gives the exact condition; it is named in brackets.

- `stress_bitgen_hamming64`: the comment takes the work to be bounded. The bit is chosen by the `w` half alone. The
  search ends exactly if `w` is no multiple of 1179647999 or at most one bit is asked for, and then within 571392002
  draws; otherwise every draw names the same bit [`BitgenOrbit.ReturnsExactly`]. The cap at 32 bits is what the proof
  needs: the `w` half takes close to half of all values, which cannot all name one of 31 bits. The seeding guard tests
  for both halves being 0, so `w == 0` with `z != 0` gets through [`BitgenHamming.StuckSeeds`].
- `stress_prime64_get`: "a prime > n" holds of a number that was found exactly for `n < 2^60`, because the mask drops
  the top four bits [`Primes.AboveExactly`]. `n == 0` always gives up.
- `stress_prime64_next_get` starts from the number it returned last. What it finds is above n exactly if no number from
  its start up to n would have been accepted. That is sure for `n < 2^60` and for n up to the number returned last, and
  sure to fail for n at the end of the tries or beyond; in the window between the primes decide
  [`Striding.NextAboveExactly`]. Within 4000 of 2^64 the addition may wrap around; what is then found is below 4000
  [`Striding.CallExactly`].
- "A prime that is not a divisor of n, used for file name striding": the result is always prime. It does not divide n,
  and striding by it visits every place once, exactly unless no try succeeds and n is a multiple of 1009
  (`stress_prime64_next_get`) or the give-up constant itself (`stress_prime64_get`)
  [`Striding.NextStridesExactly`, `GetStridesExactly`].
- "Keep the primes different each call": short of the wrap-around, two successive results are equal exactly if no try of
  the first call succeeds, nor any of the second, which then starts from 1009; and a run grows exactly if no call after
  the first gives up [`Striding.RunDiffersExactly`; for any run `RunGrowsExactly`].
- `stress_net_ipv4_checksum` is the checksum of section 1 of RFC 1071 for all buffers of a size exactly up to 131074
  bytes on a little-endian machine. On a big-endian one the size must be even as well: an odd last byte is added as the
  low half of a word, not as [Z,0], which goes unnoticed only if it is 0 [`Checksum.CorrectExactly`, `MeetsExactly`].
- `stress_flag_permutation` lists all settings exactly when at most 20 flags are set
  [`FlagPermutation.ListsAllExactly`].
- `stress_bitgen_edge64`: the boundary itself is never its own sample; a value is ever returned exactly if it lies at
  distance 1 to 4 from some entry, so the quiet NaN is not [`BitgenModes.SampledExactly`].
- The boundary dictionary: the entry called "~1.1^53 neighbourhood" is 10^8, and "~FLT_MIN normal" is the smallest
  subnormal float, 2^-149 [`BitgenModes.DoubleBounds`].
- `stress_bitgen_u64`: three calls in a row use the three modes once each, except across the wrap of the counter
  [`BitgenModes.ThreeInARow`].
- The `modn` functions return exactly 0 .. max-1; their comments say 1 .. max [`RangeReduction.ScaleRange`,
  `RejectIsFair`].
- A lock that nobody holds may not be destroyed yet. In every reachable state destroying a lock that one owns is safe
  exactly if nobody, oneself included, holds it or is on the way to acquiring it, or there is no other process;
  otherwise two processes can come to hold the lock that is created next in its slot [`LockPool.DestroyIsSafeExactly`].

## Assumptions

Test-and-set and the plain store that releases a lock are single atomic steps. Callers release only locks they hold,
destroy only locks they own, and destroy none that a process holds or is acquiring. `1.0 + sqrt(n)`, truncated, lies
between the integer square root and that plus 2. Allocation failure, the continue flag, the bound ports and the number
of times a lock can be taken are parameters. Where C leaves the order of two draws in one expression open, the left
one is drawn first.

## Model

| member | source | states |
|---|---|---|
| LockPool.MutualExclusion | core-lock.c:199-272 | in every reachable state of any number of processes no two hold the same lock and no two are between test-and-set and release of the big lock |
| LockPool.UniqueHandles | core-lock.c:697-739 | no two processes own handles of the same slot, slot 0 is never a handle, and the slot of a live handle is marked in use |
| LockPool.ScanFindsLeastFree | core-lock.c:697-717 | the scan ends with the least free slot, or with none exactly when every slot is taken, whatever the other processes did during the scan |
| LockPool.FlagIsHeld | core-lock.c:245-272 | the flag of a live lock is set exactly while some process holds it, so no release is lost and no free lock stays shut |
| LockPool.FailedAcquireChangesNothing | core-lock.c:206-242 | a failed or timed-out acquire changes no slot, no other process and nothing the process holds or owns |
| LockPool.BigLockIsReleased | core-lock.c:697-741 | a process inside the big lock can release it within STRESS_LOCK_MAX + 2 steps of its own, from every state the invariant allows |
| LockPool.InitialInv | core-lock.c:749-768 | the freshly mapped pool satisfies the invariant for any number of idle processes |
| LockPool.ApplyInv | core-lock.c:609-741 | every single step of create, destroy, acquire, relaxed acquire and release by any process keeps the invariant |
| LockPool.RunInv | core-lock.c:609-741 | every run of steps keeps the invariant |
| LockPool.DestroyIsSafeExactly | core-lock.c:636-741 | in every reachable state, a destruction by the idle owner can never be followed by two processes holding one lock exactly if nobody, the owner included, holds the lock or is on the way to acquiring it, or there is only one process |
| LockPool.DestroyShares | core-lock.c:636-741 | the run that leads there: the big lock is left, the slot freed, the waiting test-and-set succeeds, and creations bring the slot back |
| LockPool.DestroySharesOwn | core-lock.c:636-741 | the same for an owner that holds the lock itself: any other process ends its call, gets the new lock, and both hold it |
| LockPool.CreateUntil | core-lock.c:697-717 | an undisturbed process that goes on creating locks is handed every free slot in the end |
| LockPool.BigLockIsLeft | core-lock.c:697-741 | in any interleaving a process has left the big lock once it has made STRESS_LOCK_MAX + 2 steps of its own |
| LockPool.MagicIsStable | core-lock.c:706-741 | while a process is inside the big lock no other changes any magic |
| LockPool.DestroyUnderSpinnerBreaksExclusion | core-lock.c:636-657 | the same from the start: if locks were destroyed as soon as nobody holds them, a run of two processes reaches a state in which both hold slot 1 |
| LockCalls.Releases | core-lock.c:267-272 | from every reachable state a holder that begins a release and makes two more steps is idle, the flag is clear, it holds the lock no more, and no other slot or process has changed |
| LockCalls.ReleaseTakesEffect | core-lock.c:682-687 | in any interleaving, within two own steps of a process that has begun to release there is a moment at which it is idle and without the lock, and the flag is clear |
| LockCalls.AcquiresFree | core-lock.c:652-677 | acquiring a live lock whose flag is clear, plain or relaxed, sets the flag, gives the lock, and changes nothing else |
| LockCalls.SpinsOn | core-lock.c:245-264 | against a set flag a plain acquire fails 1001 times as such, goes on as the relaxed one from the 1002nd failure, and changes nothing else |
| LockCalls.Creates | core-lock.c:609-717 | an undisturbed creation takes the least free slot k in k + 5 steps, marks it, leaves its flag and the big lock clear, hands it out, and changes nothing else |
| LockCalls.CreateFails | core-lock.c:697-717 | with every slot in use it ends with the big lock released and everything as before |
| LockCalls.Destroys | core-lock.c:636-741 | an undisturbed destruction clears magic and flag of the slot, takes the handle away, releases the big lock, and changes nothing else |
| LockCalls.WrongMagicFails | core-lock.c:163-166 | a call whose handle has no magic number fails and changes nothing |
| Crc32c.EntryIsEightSteps | core-hash.c:207-284 | every one of the 256 table entries is eight reflected polynomial division steps of its index |
| Crc32c.TableStepIsEightBits | core-hash.c:297-298 | one table step of any state and byte is the bitwise CRC fed with the byte's eight bits |
| Crc32c.HashCrc32c | core-hash.c:290-301 | the table-driven loop computes the bitwise reflected CRC-32C (section 12.1 of RFC 3720) of the string before the first NUL |
| Crc32c.FeedInjective | core-hash.c:297-298 | for fixed input the CRC state map is injective |
| Crc32c.WindowsDiffer | core-hash.c:297-298 | from any state, two different bit windows of the same length up to 32 give different states |
| Crc32c.BurstDetected | core-hash.c:290-301 | two strings of equal length whose differences lie within any 32 consecutive bits never have the same CRC |
| Crc32c.FourByteBurstDetected | core-hash.c:290-301 | the same for differences within four consecutive bytes |
| Crc32c.KnownAnswer | core-hash.c:290-301 | the check value e3069283 of "123456789", and 0 for the empty string |
| Crc32c.ResidueIsConstant | core-hash.c:290-301 | a message followed by its CRC leaves the register at b798b438, whatever the message |
| Murmur3.HashMurmur3 | core-hash.c:168-199 | the block and tail loops compute the recursive specification of the hash, on machines of either byte order |
| Murmur3.SeedBijection | core-hash.c:168-199 | for a fixed key and byte order the map from seed to hash is a bijection on 32-bit values, with its inverse given |
| Murmur3.ScrambleInverse | core-hash.c:154-160 | the scramble of a block has an inverse |
| Murmur3.MixInverse | core-hash.c:178-182 | one round has an inverse in the state, for every block |
| Murmur3.FinalInverse | core-hash.c:191-198 | the finalizer is a bijection |
| Murmur3.OneBlockNeverCollides | core-hash.c:177-183 | for every seed, keys of equal length that differ in exactly one aligned block have different hashes |
| Murmur3.TailNeverCollides | core-hash.c:185-190 | for every seed, keys of equal length that differ only in the 1 to 3 tail bytes have different hashes |
| Murmur3.PaddedLength | core-hash.c:185-191 | undoing the finalizer on the hashes of a key and of its tail padded with zeros leaves exactly the difference of the two lengths |
| Murmur3.PaddingNeverCollides | core-hash.c:185-191 | so that a key never has the hash of its zero-padded tail |
| Murmur3.KnownTail | core-hash.c:168-199 | "a" with seed 0 has the hash 3c2569b2 |
| Murmur3.KnownBlockLittle | core-hash.c:168-199 | "abcde" with seed 9747b28c has e915b832 on a little-endian machine |
| Murmur3.KnownBlockBig | core-hash.c:168-199 | and 31fe2b2a on a big-endian one |
| Coffin.HashCoffin | core-hash.c:380-389 | the bytewise loop folds the string up to the first NUL |
| Coffin.HashCoffin32Le | core-hash.c:395-426 | with little-endian word loads and the prefetched word, the result is the bytewise hash for every length |
| Coffin.HashCoffin32Be | core-hash.c:432-462 | the same with big-endian word loads |
| Coffin.RoomCovers | core-hash.c:398-417 | the words read ahead stay within the next multiple of four bytes, and four bytes at least |
| Coffin.StepMultiplies | core-hash.c:384-387 | one step is exclusive or with the byte and then multiplication by 32 modulo 2^32 - 1 |
| Coffin.StepInverse | core-hash.c:384-387 | for a fixed byte a step is a bijection of the state |
| Coffin.OneByteNeverCollides | core-hash.c:380-389 | strings of equal length that differ in one byte have different hashes |
| Coffin.OrderMatters | core-hash.c:380-389 | swapping two different neighbouring bytes changes the hash |
| Coffin.KnownAnswers | core-hash.c:380-389 | 55555555 for the empty string, 5554dd15 for "ab" and 5554d175 for "ba" |
| HashTable.SdbmStepMultiplies | core-hash.c:116-117 | one sdbm step is multiplication by 65599 plus the character modulo 2^32 |
| HashTable.HashSdbm | core-hash.c:111-120 | the loop computes the fold of that step, for signed and unsigned char |
| HashTable.SdbmIsPolynomial | core-hash.c:111-120 | the hash is the characters as digits to the base 65599, modulo 2^32 |
| HashTable.OneCharNeverCollides | core-hash.c:116-118 | strings of equal length that differ in one character have different hashes |
| HashTable.KnownHashes | core-hash.c:111-120 | 0 for the empty string, 6363201 for "ab", and a byte from 128 up counts negative where char is signed |
| HashTable.OnePlaceOnly | core-hash.c:765-777 | each string of a table is in the chain its hash modulo n names, once, and in no other |
| HashTable.Create | core-hash.c:695-714 | a table exists exactly if n is not 0 and both allocations succeed, and it is then a valid empty table of n buckets |
| HashTable.Find | core-hash.c:718-727 | walking an acyclic chain finds a node with the string, or none is in the chain |
| HashTable.Get | core-hash.c:733-748 | returns the node of a string exactly if the string was added, NULL otherwise and for NULL arguments |
| HashTable.Add | core-hash.c:754-782 | an old string gets its old node and nothing changes; a new one gets a fresh node in front of its bucket's chain or NULL without memory; chains stay acyclic and disjoint, each string once and in the bucket of its hash |
| HashTable.RunOfAdds | core-hash.c:754-782 | after any run of adds the table holds exactly the strings some add had memory for, each with the node of its first such add for ever |
| HashTable.DeleteChain | core-hash.c:797-803 | frees every node of a chain, reading its next link first; each node was live before |
| HashTable.Delete | core-hash.c:787-807 | frees every node of the table, the bucket array and the table, each once |
| Lehmer.StepFits | core-mwc.c:228-229 | a step of either half never overflows 32 bits |
| Lehmer.ClosedForm | core-mwc.c:228-229 | after n steps a half is congruent to a^n times its seed modulo a * 2^16 - 1 |
| Lehmer.ExactForm | core-mwc.c:228-229 | for seeds strictly between 0 and the modulus it is exactly that residue |
| Lehmer.ZeroOnlyFromZero | core-mwc.c:228-229 | a half becomes zero only if it was zero |
| Lehmer.FixedPoints | core-mwc.c:228-229 | a half stands still exactly at 0 and at its modulus |
| Lehmer.StuckExactly | core-mwc.c:228-229 | a half is a multiple of its modulus after a step exactly if it was before |
| Mwc.StreamClosedForm | core-mwc.c:226-232 | both halves in closed form with their moduli 2422800383 and 1179647999 |
| Mwc.StreamExactForm | core-mwc.c:226-232 | the exact sequence for seeds inside the cycle |
| Mwc.OutputIs | core-mwc.c:231 | a word is 65536 z + w modulo 2^32 |
| Mwc.WordClosedForm | core-mwc.c:226-232 | word n from the seeds alone: 65536 times the residue of 36969^(n+1) z plus that of 18000^(n+1) w, modulo 2^32 |
| Mwc.WordShowsLowHalf | core-mwc.c:231 | for the same w two words are equal exactly if the low halves of z are |
| Mwc.KnownWords | core-mwc.c:52-61 | the first words from the default seeds are 820856226, 2331188998 and 4033440000 |
| Mwc.StandsStill | core-mwc.c:226-232 | the four states under which the generator does not change |
| Mwc.EverStandsStill | core-mwc.c:193-232 | the generator ever comes to stand still exactly for seeds that are multiples of both moduli |
| Mwc.RunTracks | core-mwc.c:226-297 | from a flushed state, under any interleaving of 1-, 8-, 16- and 32-bit draws, every draw returns the next low-to-high digit of the word its width drew, and the words drawn are consecutive outputs of the stream |
| Mwc.WordIsUsedUp | core-mwc.c:255-297 | the digits that one word gives put together are the word: no bit is dropped or used twice |
| Mwc.BitsOfWords | core-mwc.c:287-297 | draw n of one bit is bit n mod 32 of word n / 32 |
| Mwc.Mwc.constructor | core-mwc.c:52-61 | starts with the default seeds and empty caches |
| Mwc.Mwc.Flush | core-mwc.c:67-75 | empties the caches and keeps the seeds |
| Mwc.Mwc.SeedSet | core-mwc.c:193-198 | sets both seeds and flushes |
| Mwc.Mwc.SeedGet | core-mwc.c:204-208 | returns the seeds that setting would restore |
| Mwc.Mwc.SeedDefault | core-mwc.c:214-217 | restores the initial state |
| Mwc.Mwc.Mwc32 | core-mwc.c:226-232 | advances the stream by one word, without overflow, and leaves the caches alone |
| Mwc.Mwc.Mwc64 | core-mwc.c:238-241 | joins two words of the stream, the first one high |
| Mwc.JoinParts | core-mwc.c:240 | quotient and remainder by 2^32 of the joined word are the two words |
| Mwc.Mwc.Mwc16 | core-mwc.c:255-265 | one 16-bit draw of the cache model that RunTracks is about |
| Mwc.Mwc.Mwc8 | core-mwc.c:271-281 | one 8-bit draw of it |
| Mwc.Mwc.Mwc1 | core-mwc.c:287-297 | one 1-bit draw of it |
| Mwc.Mwc.RndStr | core-mwc.c:466-509 | fills len - 1 characters, five from each word, lowest six bits first, and a NUL; nothing beyond len is written |
| Mwc.MarkedDigit | core-mwc.c:489-506 | the marker in the top two bits shows exactly after five characters |
| Mwc.AlphabetIs | core-mwc.c:473-482 | capitals, small letters, digits, hyphen and underscore, 64 different characters |
| Mwc.KnownLetters | core-mwc.c:466-509 | from the default seeds the string begins with iWU7wG |
| RangeReduction.ScaleIsFair | core-mwc.h:60-102 | every value below max comes from floor or ceiling of 2^k / max source words, exactly 2^k / max if max divides |
| RangeReduction.ScaleIsPart | core-mwc.h:60-102 | the result is v exactly if the word lies in the v-th of max equal parts |
| RangeReduction.ScaleBelow | core-mwc.h:60-102 | the result is below max, and 0 for max 0 |
| RangeReduction.ScaleRange | core-mwc.h:60-102 | from at least max source words the results are exactly 0 .. max-1 |
| RangeReduction.Mwc8Modn | core-mwc.h:60-63 | one 8-bit draw scaled; no narrowing loses bits |
| RangeReduction.Mwc16Modn | core-mwc.h:70-73 | the same for 16 bits |
| RangeReduction.Mwc32Modn | core-mwc.h:80-83 | the same for 32 bits |
| RangeReduction.Mwc64Modn | core-mwc.h:99-102 | the same for 64 bits in 128-bit arithmetic |
| RangeReduction.Mask | core-mwc.c:304-312 | the shift-or cascade yields the least 2^h - 1 at or above its argument, for each of the four widths |
| RangeReduction.MaskModn | core-mwc.c:319-447 | the reject loop of all four widths draws from the generator until the masked value is below max, returns that value, and leaves the generator where that draw did; 0 without a draw for max below 2 |
| RangeReduction.RejectIsFair | core-mwc.c:304-447 | every accepted value is the masked value of the same number of source words, and more than half of the masked values are accepted |
| RangeReduction.BytesOfWords | core-mwc.c:271-281 | 8-bit draws from a flushed state are the bytes of consecutive words, lowest first |
| RangeReduction.HalvesOfWords | core-mwc.c:255-265 | 16-bit draws are their halves, lower first |
| RangeReduction.WholeWords | core-mwc.c:226-241 | 32-bit draws are the words, 64-bit draws pairs of them, the first one high |
| RangeReduction.RemainderShare | core-bitgen.c:129-135 | of any n words exactly n / m have a given remainder modulo m, or one more for the least n mod m remainders |
| Bitgen.Bitgen.constructor | core-bitgen.c:165-183 | every field of a seeded handle comes from its own word of the stream, and the cursor is in range |
| Bitgen.Bitgen.Mwc32 | core-bitgen.c:115-121 | the private generator steps exactly like the global one |
| Bitgen.Bitgen.WidthRoll | core-bitgen.c:129-135 | the width lies within the configured range and is decided by one word |
| Bitgen.Bitgen.DensityRoll | core-bitgen.c:138-151 | the density is one of those in the mask, or any if the mask is empty |
| Bitgen.PlaceFills | core-bitgen.c:221-233 | for every start 0 .. 63 and width up to 64, wrapped or not, band bit i lands at (start + i) mod 64 and every other bit is the raw word's |
| Bitgen.Bitgen.Band | core-bitgen.c:198-219 | band bit i is set as the density and its own random word say |
| Bitgen.Bitgen.BandFill | core-bitgen.c:191-247 | the word is as PlaceFills says for the words drawn, the cursor moves one step, and the handle stays in range |
| BitgenChoices.DensityIsQuarters | core-bitgen.c:199-218 | of the 2^32 words exactly d * 2^30 set a band bit at density d |
| BitgenChoices.ThreeIsNotOne | core-bitgen.c:209-217 | density 3 sets the bit for exactly the words for which density 1 does not; word 0 sets it at 1 and 2 and not at 3 |
| BitgenChoices.BandBitShare | core-bitgen.c:198-233 | band bit i of a word is decided by word 2 + i of the stream alone, and set by d quarters of its values |
| BitgenChoices.RawBits | core-bitgen.c:193-247 | outside the window the upper half is word 0 of the stream and the lower half word 1 |
| BitgenChoices.UniformBits | core-bitgen.c:397-398 | in the third mode the upper half is word 0, the lower half words 1 and 2 mixed |
| BitgenChoices.WidthShare | core-bitgen.c:129-135 | each width of the range is rolled by every span-th word, 2^32 / span of them or one more |
| BitgenChoices.OtherShares | core-bitgen.c:176-182 | how many words choose each of the 7 steps, 64 starts and 57 boundary values |
| BitgenChoices.DensityRank | core-bitgen.c:138-151 | with m densities allowed word r chooses the one with r mod m allowed ones below it, with none any of the five |
| BitgenChoices.KnownHandle | core-bitgen.c:165-183 | every field of the handle that seed 2 * 2^32 + 1 gives at the default configuration |
| BitgenChoices.ZeroSeed | core-bitgen.c:169-171 | the all-zero seed is replaced by 13572468 in w, and no other seed is changed |
| Bitgen.FillIsOK | core-bitgen.c:235-245 | one word keeps start < 64, count < step, 1 <= step <= 7 and width and density within the configured choices |
| BitgenSweep.RunIsOK | core-bitgen.c:235-245 | any run of words keeps all that |
| BitgenSweep.SweepRuns | core-bitgen.c:235-245 | until the sweep ends width, density and step stay as they are and the starts are served in order |
| BitgenSweep.SweepEnds | core-bitgen.c:238-244 | after the remaining words of any handle the window is back at bit 0, its width, density and step chosen by the next three words of the stream |
| BitgenSweep.SweepSchedule | core-bitgen.c:235-245 | the k-th word after a re-roll has its window at bit k / step, for the (k mod step)-th time |
| BitgenSweep.SweepIsFair | core-bitgen.c:235-245 | in the 64 * step words of a sweep every set of starts is used step times its size |
| BitgenSweep.EachStartServed | core-bitgen.c:235-245 | each of the 64 starts is used exactly step times |
| BitgenSweep.EachBitReached | core-bitgen.c:191-247 | every one of the 64 bits lies in the window exactly width * step times in a sweep |
| BitgenSweep.SolidSweep | core-bitgen.c:201-208 | throughout a sweep the window is all zeros at density 0 and all ones at density 4 |
| Bitgen.Bitgen.Hamming64 | core-bitgen.c:348-365 | a returned word has exactly min(target mod 64, 32) bits set and is the set of bits named by the fewest words that name so many; it fails exactly if the words allowed do not name enough |
| Bitgen.NamedGrows | core-bitgen.c:359-361 | more words never name fewer bits |
| BitgenHamming.NamedByW | core-bitgen.c:360 | the bit a word names is the low six bits of the w half |
| BitgenHamming.StuckReturnsExactly | core-bitgen.c:355-363 | once w is a multiple of 1179647999 the loop ends exactly for target mod 64 of 0 or 1 |
| BitgenHamming.StuckSeeds | core-bitgen.c:165-174 | exactly which seeds lead there |
| BitgenHamming.ZeroWNeverReturns | core-bitgen.c:165-174 | a handle seeded with w = 0 and z not 0 never delivers a word of weight 2 or more |
| BitgenOrbit.ReturnsExactly | core-bitgen.c:348-365 | for every state of the generator, some number of draws suffices exactly if w is no multiple of 1179647999 or target mod 64 is at most 1, and then 571392002 do |
| BitgenOrbit.EnoughWords | core-bitgen.c:355-363 | for every w that is no multiple of the modulus, 571392002 draws name at least 32 different bits |
| BitgenOrbit.Hamming64 | core-bitgen.c:348-365 | the function itself ends for all those states and returns a word of exactly min(target mod 64, 32) bits |
| BitgenOrbit.NoReturn | core-bitgen.c:115-121 | from the second step on no value of w comes back within 589823998 steps |
| BitgenOrbit.BelowAfterTwo | core-bitgen.c:118 | after two steps every w that is no multiple of its modulus lies below it |
| LargePrimes.PrimeP | core-mwc.c:229 | the modulus 18000 * 2^16 - 1 of the w half is prime |
| LargePrimes.PrimeQ | core-mwc.c:229 | so is (18000 * 2^16 - 2) / 2 |
| Bitgen.Bitgen.Edge64 | core-bitgen.c:264-281 | the entry at the cursor moved by 1 .. 4 up or down in 64 bits, and the cursor moves on cyclically |
| BitgenModes.EightNeighbours | core-bitgen.c:272-280 | the result is never the entry itself, and is decided by exactly three bits of the word |
| BitgenModes.JitterDirection | core-bitgen.c:272-280 | words 8q to 8q + 3 go 1 to 4 down, words 8q + 4 to 8q + 7 go 1 to 4 up |
| BitgenModes.SampledExactly | core-bitgen.c:264-281 | a value can be returned exactly if it is at distance 1 to 4 from some entry |
| BitgenModes.QuietNanNeverSampled | core-bitgen.c:259-281 | the quiet NaN of the dictionary is never returned |
| BitgenModes.EdgeRound | core-bitgen.c:266-270 | in 57 draws every entry is used exactly once, and then the round repeats |
| BitgenModes.CarryBoundaries | core-bitgen.c:40-45 | entries 9 to 23 are 2^k - 1, 2^k and 2^k + 1 for k = 8, 16, 32, 48 and 56 |
| BitgenModes.SpreadPowers | core-bitgen.c:67-82 | entries 42 to 56 are 2^10 to 2^12 and then every fourth power from 2^16 to 2^60 |
| BitgenModes.IntegerBounds | core-bitgen.c:31-66 | the bounds of signed and unsigned integers, and two pairs of complementary patterns |
| BitgenModes.DoubleBounds | core-bitgen.c:46-60 | the double encodings by exponent and mantissa |
| Bitgen.Bitgen.U64 | core-bitgen.c:389-400 | the mode is the counter modulo 3 after a 32-bit increment, each mode with its own word and state change |
| BitgenModes.ThreeInARow | core-bitgen.c:391-399 | three calls in a row use each mode once exactly if the counter is not 2^32 - 3 or 2^32 - 2 |
| BitgenModes.WhatMoves | core-bitgen.c:389-400 | a mixed word moves the window alone, the boundary cursor alone by one entry and one draw, or neither with three draws, as the new counter modulo 3 says |
| BitgenModes.ThirdIsEdges | core-bitgen.c:389-400 | short of the counter's wrap 3n mixed words move the boundary cursor by exactly n entries |
| Bitgen.Bitgen.Skip | core-bitgen.c:372-381 | leaves the handle as one mixed word for every 8 bytes begun does |
| BitgenModes.SkipsAdd | core-bitgen.c:375-380 | two skips make one exactly when no word is begun twice; otherwise they draw one word more |
| Primes.Prime64Check | core-prime.c:31-47 | true exactly for the primes, for every bound between the integer square root and that plus 2 |
| Primes.TriedBelow | core-prime.c:43-45 | no number is ever tested against itself |
| Primes.NextSix | core-prime.c:43-45 | testing i and i + 2 settles six candidates |
| Primes.NoneMeansPrime | core-prime.c:41-46 | no divisor up to the square root means prime |
| Primes.Prime64Get | core-prime.c:84-102 | returns the first tried number that is prime and does not divide n, or the give-up constant if there is none |
| Primes.StridePrimes.Prime64NextGet | core-prime.c:57-76 | the same from the number the last call left, in 64 bits, or 1009; and leaves the result for the next call |
| Primes.LeastPrime | core-prime.c:84-102 | for 1 <= n < 2^60 the result is the least prime above max(1009, n or 1), or the constant when none of the numbers tried is prime: after 2000 tries there is none within 4000 |
| Primes.AboveExactly | core-prime.c:78-97 | a number that was found is above n exactly for n < 2^60 |
| Primes.BelowAt60 | core-prime.c:87-97 | for n = 2^60 the search finds 1013, in the first call of either function |
| Primes.OddIsNear | core-prime.c:87 | the search begins at the low 60 bits of n, or one above when they are even |
| Primes.ZeroGivesUp | core-prime.c:97-101 | for n = 0 both searches give up |
| Primes.StridePermutes | core-prime.c:49-56 | striding by a found prime visits every one of 0 .. n-1 exactly once |
| Striding.CallExactly | core-prime.c:57-76 | n, the kept number and the tries decide: 1009 if no try succeeds, a number below 4000 if only one behind the wrap-around does, otherwise a number above the start |
| Striding.NextAboveExactly | core-prime.c:57-72 | what is found without wrapping around is above n exactly if no number from the start up to n is prime and no divisor of n; always for n < 2^60 and n up to the kept number, never for n from the start plus twice the tries on |
| Striding.PermutesExactly | core-prime.c:49-56 | striding by a prime visits every one of 0 .. n-1 exactly once if and only if the prime does not divide n |
| Striding.NextStridesExactly | core-prime.c:49-76 | the result is prime; it does not divide n, and striding by it visits every place once, exactly unless no try succeeds and n is a multiple of 1009 |
| Striding.GetStridesExactly | core-prime.c:78-102 | the same, unless no try succeeds and n is the give-up constant |
| Striding.StrideStuck | core-prime.c:66-75 | with the continue flag down and n = 1009 place 1 is never visited |
| Striding.GetStuck | core-prime.c:92-101 | the same for the give-up constant |
| Striding.RunDistinct | core-prime.c:53-56 | in a run of calls, for whatever n, the results grow strictly as long as no call gives up or wraps around |
| Striding.RunGrowsExactly | core-prime.c:53-76 | any run grows exactly if every call after the first finds a number before the wrap-around, or gives up when less than 1009 is kept |
| Striding.RunDiffersExactly | core-prime.c:53-76 | without wrapping around, successive results are equal exactly if no try of the first call succeeds and none of the second from 1009; the run grows exactly if no call after the first gives up |
| Striding.GiveUpRestarts | core-prime.c:73-75 | after a call that gives up the calls that follow are a run from 1009 |
| Striding.TwoZeros | core-prime.c:53-76 | two calls with n = 0 both return 1009 |
| LargePrimes.PrimeGiveUp | core-prime.c:101 | the constant 18446744073709551557 is prime |
| FlagPermutation.FlagPermutations | core-helper.c:1527-1570 | returns the listing, or NULL and 0 without a place for it or without memory |
| FlagPermutation.CountFlags | core-helper.c:1540-1541 | the shifting loop counts the set bits |
| FlagPermutation.ListsSubMasks | core-helper.c:1554-1567 | the listing increases strictly as unsigned numbers and holds exactly the sub-masks of the lowest 20 set flags |
| FlagPermutation.ListsAllExactly | core-helper.c:1543-1544 | every sub-mask of the flags is listed exactly when at most 20 are set |
| FlagPermutation.MissingSetting | core-helper.c:1543-1544 | with 21 flags set, the highest alone is a setting that is missing |
| FlagPermutation.ListEnds | core-helper.c:1554-1567 | the listing starts with no flag and ends with all that are permuted |
| FlagPermutation.ScatterGather | core-helper.c:1558-1566 | every sub-mask is scattered from its collected bits |
| FlagPermutation.GatherScatter | core-helper.c:1558-1566 | and every counter is collected from its mask, so that no mask comes twice |
| FlagPermutation.LowestIsLowest | core-helper.c:1543-1566 | every flag that is permuted lies below every flag that is not |
| Checksum.Ipv4Checksum | core-net.c:484-503 | the 32-bit sum with two folds; up to 131074 bytes the stored result is the standard's, save on a big-endian machine with an odd last byte other than 0; 0 for a null pointer |
| Checksum.MeetsExactly | core-net.c:484-503 | up to 131074 bytes the bytes stored are those of the standard's checksum, taken in network order with [Z,0] for an odd byte, exactly if the machine is little-endian or the size even or the last byte 0 |
| Checksum.TwoFoldsSuffice | core-net.c:499-500 | two folds bring any 32-bit sum to its one's-complement value |
| Checksum.OnesSumIsResidue | core-net.c:492-498 | adding with end-around carry word by word is the residue modulo 65535 with 0 only for 0 |
| Checksum.WorkedExample | core-net.c:484-503 | the standard's side: the example of section 3 of RFC 1071 gives ddf2 and the bytes 22 0d |
| Checksum.CorrectExactly | core-net.c:484-503 | this holds of all buffers of a size exactly if the size is at most 131074 and, on a big-endian machine, even |
| Checksum.StoredChecksumVerifies | core-net.c:484-503 | storing the result in a zeroed word makes the checksum of the whole buffer 0 |
| Checksum.WordOrderIrrelevant | core-net.c:492-495 | buffers with the same multiset of words have the same checksum |
| Checksum.ByteOrderExactly | core-net.c:492-498 | machines of both byte orders store the same bytes exactly if the size is even or the last byte is 0 |
| Ports.PortMap.Reserve | core-net.c:379-464 | finds the least block of ports neither allocated nor bound at or above the first, marks exactly that block, or returns -1 with the map unchanged |
| Ports.PortMap.ReserveOne | core-net.c:395-418 | the same for one port, with the lock taken again after every 17 ports |
| Ports.PortMap.ReserveBlock | core-net.c:419-452 | the same for several ports |
| Ports.PortMap.Release | core-net.c:470-478 | clears exactly the ports of a range that is in order and nothing otherwise |
| Ports.FailsExactly | core-net.c:427-450 | with the lock taken often enough, -1 is returned exactly when no such block exists below 65536 |
| Ports.FreeIsFound | core-net.c:395-452 | when all bits of both maps are clear over some block, a block that starts no later is reserved, and exactly its ports are marked |
| Ports.ReachesExactly | core-net.c:395-452 | the least block is reserved exactly if it ends within 17 ports for each time the lock can be taken |
| Ports.OutcomeIsUnique | core-net.c:379-464 | maps, request and locks determine the port and the new map |
| Ports.ReleaseUndoes | core-net.c:470-478 | releasing what was reserved gives the old map back |
| Ports.RunKeepsLedger | core-net.c:379-478 | along every run of reservations and releases by their holders no two holders share a port, the map is exactly what is held, and is empty again when nothing is |
| Ports.WrapsIntoRange | core-net.c:509-514 | every number, negative ones too, is taken to the one port of 1024 .. 65535 it is congruent to |
| Ports.NoOverflowExactly | core-net.c:509-514 | the arithmetic stays within int exactly for ports from INT_MIN + 1024 up |

## Left out

- MaskModn: takes a bound on the draws; whether a reject loop ends depends on both halves of the generator together, and that is not modelled.
- RunInv: the lock pool is modelled on values, because what is proved is about the interleaving of steps inside calls; a method runs to its end without interference.
- The lock variants other than the atomic spinlock, backoff pauses, the clock (a timeout is a failing step that may happen at any time), processes that die.
- Floating point: Prime64Check takes the truncated bound as a parameter.
- ReserveBlock: exclusivity between processes. The found path of one port releases the lock twice, both scans drop the lock after every 17 ports, and release takes no lock; the model is sequential. How often the lock can be taken is a parameter.
- Reading the bound ports from /proc/net; the bit positions inside the bytes of the port maps.
- Release: callers that release ports they do not hold.
- The remaining one-line hashes, the floating-point bit patterns, the complement pairs, `stress_rndbuf` and `stress_uint8rnd4`: easy beside the parts they call.
- The entropy of `stress_mwc_reseed`, all system calls, mappings, option parsing and stressors.
