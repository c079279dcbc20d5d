# NEMU: arithmetic, memory, monitor and list code

NEMU is a 32-bit x86 emulator; a small kernel and a few games run on it. This project models the
parts of it that compute, remember or rearrange something, and proves what each of them is for.
`dafny verify dfyconfig.toml` checks everything.

**Floating point** (`Common.dfy`, `Ieee754.dfy`, `FpuNormalize.dfy`, `Fpu.dfy`, `FpuStack.dfy`).
Addition, subtraction and multiplication on 32-bit patterns, loop by loop: sticky alignment, signed
significands in two's complement, normalising in both directions, rounding, and the tables of
special cases. The reference is independent of the code. `Ieee754.RoundsTo` states round to nearest,
ties to even, with overflow, in the words of section 4.3.1 of IEEE 754-2008, and `IsSum`,
`IsDifference` and `IsProduct` add the rules for zeros, infinities and NaNs of sections 6.1 to 6.3.
The theorems range over all 2^64 pairs of patterns and say exactly when the code agrees:

* Sums and differences are right unless the first operand is infinite and the second is a NaN that
  is not one of the two default patterns; then the infinity comes back instead of a NaN. In
  particular they are right for all finite operands.
* Products are wrong in three families only (`Fpu.MulFails`). Two NaN-free ones come from the shared
  normaliser. A product that enters it with exponent 0 and at most 27 bits comes out doubled
  (2^-149 times 2^19). A product that rounds up to 2^-126 from below comes out as zero, because the
  carry at nemu/src/cpu/fpu.c:79 does not reach the exponent field (0x00FFFFFF times one half). The
  third family is a NaN operand when neither operand is a default NaN. Normal operands with an exact
  product of at least 2^-126 are always multiplied correctly.

In the contracts of the normaliser, `exact` is the real number the significand stands for,
`Jams` and `Agrees` say how a sticky significand stands for it, and `EntryScale` is the power of two
the code gives an exponent on entry.

**Memory** (`Bytes.dfy`, `Cache.dfy`, `Linear.dfy`, `KernelPaging.dfy`). The cache of 128 sets of 8
lines in front of hw_mem, with whatever rand() answers, does not change what any run of accesses
reads or what it leaves in memory. Every read leaves its blocks in the cache, and hits are counted for
exactly the blocks it holds. On top of it laddr_read and laddr_write, walking the page tables and
splitting accesses that leave their page (also at 2^32), do what translating every byte on its own
would do. The same walk decodes the tables that init_page and init_mm build to the map the kernel
intends. The cache is compiled out in the shipped configuration (include/config.h:8); `Mmu` covers
both settings.

**Expression evaluator** (`ExprTokens.dfy`, `ExprEval.dfy`, `ExprGrammar.dfy`, `ExprArithmetic.dfy`,
`ExprMonitor.dfy`). From the lexer's tokens on, the evaluator returns the value `v` without an error
if and only if the tokens spell an expression of the precedence grammar (`ExprEval.Grammatical`) whose
meaning is `v`. So it accepts nothing else either: stacked prefix operators, for example, are errors.
`ExprArithmetic` says the same without the ranks of the code and without its operations: a grammar
with one level for each group of operators, and for every operator the number it stands for. Without
any operator the code looks at the word before its token array; this never becomes a success. On a
success expr does not write the caller's flag at all, so its answer means something only to a caller
that has set the flag before, which nemu/src/monitor/ui.c:95-105 and
nemu/src/monitor/breakpoint.c:78-80 do not.

**Breakpoints** (`PoolLists.dfy`, `BreakpointList.dfy`, `CodeSites.dfy`, `Breakpoints.dfy`,
`SavedBytes.dfy`). The two lists partition the pool after every operation. After any run of sets and
deletes, masking gives the original code back except for INT3 at the addresses whose oldest
breakpoint was deleted, because deleting does not write to the code. Masking and then resuming gives
the same code again, and the same saved bytes exactly when no two breakpoints with a real saved byte
share an address. The emulator's own loop does not mask: it puts one byte back and resumes all, and
then every other breakpoint saves the INT3 that is still in the code.

**Typing game** (`TypingRules.dfy`, `TypingList.dfy`, `TypingSchedule.dfy`, `Typing.dfy`). The
intrusive list over a static pool with a sentinel, and the loops that walk it while freeing nodes,
take the steps of a state machine over plain sequences. Over every run of that machine, letters
created are letters hit, missed or on the screen. The scan code of a falling letter's text always
makes the next update_keypress strike a letter. On the clock of main_loop, at one letter every 33
ticks, there are never more than fourteen of them, so the pool of 1000 does not run out. The initial
speed is always one half: the division at game/src/typing/effect.c:44 is an integer division,
although the comment above it announces a random speed.

**Key states** (`Keyboard.dfy`). Interrupts and polls in any order, for the key table of the PAL
game. A make code of a key that is up is reported as one press of it, within as many polls as there
are pending keys; repeated before the release it reports nothing more. Two presses of a key are
always separated by a release. A release answers a press unless a break code came before the press
was reported, and exactly then it does not.

**Carry chains and quicksort** (`Alu.dfy`, `QuickSort.dfy`). Addition and subtraction with flags,
chained over any number of words; and the hole-based quicksort.

## Conventions

* Words are unbounded integers with the wrap-around written out; shifts and masks are powers of two.
* A failed assert, a trap, a missing translation and an access outside hw_mem end the emulator:
  `Fault`, `Aborted` or `None`.
* rand(), register and symbol values and the memory that expressions read are parameters or
  nondeterministic choices.
* A linked node is the index of its pool entry, NULL is `NIL`; ghost sequences name the lists.
* Signed overflow in the evaluator wraps around, as the compiler's target does.

## Model

| member | source | states |
|---|---|---|
| FpuNormalize.JamsAfterShift | nemu/src/cpu/fpu.c:26-28 | A right shift by one that ors the lost bit into the last one still stands for half the exact value |
| FpuNormalize.RoundGrsIsNearest | nemu/src/cpu/fpu.c:73-78 | Dropping guard, round and sticky bits this way is IEEE round to nearest, ties to even, of the exact value the sticky significand stands for |
| FpuNormalize.OverflowRounds | nemu/src/cpu/fpu.c:32-36 | Exact values with 27 bits at exponent 255 or above round to infinity |
| FpuNormalize.UnderflowRounds | nemu/src/cpu/fpu.c:46-51 | What is left at a negative exponent with a significand below 5 rounds to zero |
| FpuNormalize.NormalizeRight | nemu/src/cpu/fpu.c:17-31 | The right-shift loop keeps the exact value and stops with 27 bits or an infinite exponent |
| FpuNormalize.NormalizeLeft | nemu/src/cpu/fpu.c:52-65 | The left-shift loop keeps the exact value and, at exponent 0, ends on the subnormal scale without losing a bit |
| FpuNormalize.RoundAndPack | nemu/src/cpu/fpu.c:71-90 | The pattern assembled is the rounding of the exact value, except that a subnormal rounding up to 2^-126 becomes zero |
| FpuNormalize.RoundsUpToNormalAt | nemu/src/cpu/fpu.c:79-82 | The carry that misses the exponent field happens exactly for exact values from 2^-126 - 2^-150 up to 2^-126 |
| FpuNormalize.InternalNormalize | nemu/src/cpu/fpu.c:11-91 | On every entry the operations produce, and every exact one below 2^128, the result is the signed rounding of the exact value at its entry scale, or zero where the carry is lost |
| Fpu.FindCorner | nemu/src/cpu/fpu.c:112-116 | The scan finds a listed pair if there is one |
| Fpu.CornerAddIsSum | nemu/src/cpu/fpu.c:93-105 | Every row of the addition table is the IEEE sum |
| Fpu.CornerAddCovers | nemu/src/cpu/fpu.c:93-105 | Pairs the table lets through are never two zeros, opposite infinities or an infinity with a default NaN |
| Fpu.SignificandWithGrs | nemu/src/cpu/fpu.c:137-149 | The significand with its hidden bit and three zero bits below |
| Fpu.Align | nemu/src/cpu/fpu.c:153-159 | The aligned significand stands for the exact shifted value, and loses bits only from the fourth place on, where the sum keeps enough of them |
| Fpu.TwosComplement | nemu/src/cpu/fpu.c:163-170 | Unsigned addition of the negated operands gives sign and magnitude of the signed sum |
| Fpu.AddSigned | nemu/src/cpu/fpu.c:163-170 | Sign and magnitude of the signed sum of the significands |
| Fpu.SumsAreExactBelowNormal | nemu/src/cpu/fpu.c:108-174 | No exact sum of two finite numbers lies where the normaliser loses the carry |
| Fpu.AddFinite | nemu/src/cpu/fpu.c:136-173 | The rounded sum of two finite nonzero numbers, smaller exponent first |
| Fpu.SumCommutes | nemu/src/cpu/fpu.c:131-134 | Swapping the operands does not change which result is the IEEE sum |
| Fpu.ZeroPlus | nemu/src/cpu/fpu.c:117-118 | A zero plus a nonzero operand is that operand |
| Fpu.InternalFloatAdd | nemu/src/cpu/fpu.c:108-174 | The IEEE 754 sum on all operands, if and only if it is not an infinity plus a NaN other than the default ones |
| Fpu.CornerSubIsDifference | nemu/src/cpu/fpu.c:176-185 | Every row of the subtraction table is the IEEE difference |
| Fpu.InternalFloatSub | nemu/src/cpu/fpu.c:188-201 | The IEEE 754 difference, under the same exact condition |
| Fpu.SelfDifference | nemu/src/cpu/fpu.c:188-201 | The difference of a finite number with itself is +0 |
| Fpu.AddLosesANaN | nemu/src/cpu/fpu.c:127 | An infinity plus 0x7f800001 is such an operand pair, and the infinity returned is not its sum |
| Fpu.CornerMulIsProduct | nemu/src/cpu/fpu.c:203-212 | Every row of the multiplication table is the IEEE product |
| Fpu.CornerMulCovers | nemu/src/cpu/fpu.c:203-212 | The table catches every zero times infinity |
| Fpu.ProductValue | nemu/src/cpu/fpu.c:243-244 | The exact product is the product of the significands at the sum of the scales |
| Fpu.NotBothRoundings | nemu/src/cpu/fpu.c:38-45 | No pattern is the rounding of a value and also that of twice the value, or zero, in the subnormal range: what makes the doubled results wrong |
| Fpu.ProductDelivered | nemu/src/cpu/fpu.c:243-246 | What the normaliser delivers for a product of finite numbers is the IEEE product exactly outside the failing families |
| Fpu.MulFinite | nemu/src/cpu/fpu.c:234-246 | The product of finite nonzero operands is right if and only if it is not in the failing families, and is never a NaN; in every case the result is the signed rounding of the product or, if it enters as a subnormal, of twice the product, except a signed zero where that rounds up to 2^-126 |
| Fpu.InternalFloatMul | nemu/src/cpu/fpu.c:215-247 | The IEEE 754 product on all operands, if and only if MulFails does not hold; for finite nonzero operands what comes back otherwise is twice the product, rounded and signed, or a signed zero |
| Fpu.NormalProductsAreRight | nemu/src/cpu/fpu.c:215-247 | Normal operands with an exact product of at least 2^-126 are never in the failing families |
| Fpu.MulLosesTheCarry | nemu/src/cpu/fpu.c:79-82 | 0x00FFFFFF times one half should be 2^-126 and is in the failing families |
| Fpu.MulDoubles | nemu/src/cpu/fpu.c:38-45 | 2^-149 times 2^19 is in the failing families |
| Fpu.MulTakesANaN | nemu/src/cpu/fpu.c:222-246 | 0x7f800001 times one is in the failing families |
| FpuStack.Registers.constructor | nemu/src/cpu/fpu.c:304-313 | An empty register file, all zero |
| FpuStack.Registers.Load | nemu/src/cpu/fpu.c:304-307 | A load pushes the value and drops ST(7) |
| FpuStack.Registers.Store | nemu/src/cpu/fpu.c:309-313 | A store returns ST(0), which becomes ST(7) |
| FpuStack.Registers.Peek | nemu/src/cpu/fpu.c:315-318 | ST(0), unchanged |
| FpuStack.Registers.Add | nemu/src/cpu/fpu.c:320-330 | ST(0) becomes the IEEE sum, exactly when internal_float_add gives it; ST(1) to ST(7) stay |
| FpuStack.Registers.AddIdx | nemu/src/cpu/fpu.c:332-343 | The same for ST(0) + ST(idx) into any register, every 32-bit index taken modulo 8; the others stay |
| FpuStack.Registers.Sub | nemu/src/cpu/fpu.c:345-355 | The same for the difference |
| FpuStack.Registers.Mul | nemu/src/cpu/fpu.c:357-366 | ST(0) becomes the IEEE product exactly when MulFails does not hold, and otherwise for finite operands what internal_float_mul delivers |
| FpuStack.Registers.MulIdx | nemu/src/cpu/fpu.c:368-379 | The same for ST(0) * ST(idx) into any register, indices modulo 8 |
| FpuStack.Registers.Xch | nemu/src/cpu/fpu.c:393-399 | ST(0) and ST(idx) change places, the index modulo 8; the others stay |
| FpuStack.Registers.Copy | nemu/src/cpu/fpu.c:401-404 | ST(idx), the index modulo 8, becomes ST(0); the others stay |
| FpuStack.PushedOrder | nemu/src/cpu/fpu.c:304-307 | After any number of loads the latest eight values are on the stack, newest first, above what was there |
| FpuStack.PoppedOrder | nemu/src/cpu/fpu.c:309-313 | The k-th store returns the register k places down, around the circle |
| FpuStack.LastInFirstOut | nemu/src/cpu/fpu.c:304-313 | Any number of loads and then up to eight stores return the latest values, newest first |
| Bytes.LittleEndianBytesOf | nemu/src/memory/memory.c:13-21 | The bytes copied out of a word have its value modulo 256^n |
| Bytes.BytesOfLittleEndian | nemu/src/memory/memory.c:13-21 | Reading bytes as a number and writing that number back gives the bytes |
| Bytes.ReadBack | nemu/src/memory/memory.c:13-21 | A read after a write at the same place returns the low bytes written |
| Bytes.ReadElsewhere | nemu/src/memory/memory.c:19-21 | A write changes no byte outside its range |
| Bytes.WriteSplit | nemu/src/memory/cache.c:85-89 | Writing the low and then the shifted high bytes is one write |
| Bytes.JoinParts | nemu/src/memory/cache.c:55-60 | Shifting and adding the two partial reads gives the whole read |
| Bytes.MaskedWriteSplit | nemu/src/memory/cache.c:86-88 | The two partial writes, low part masked by shifting left and right, are one write |
| Cache.CachedMemory.constructor | nemu/src/memory/memory.c:124-131 | Zero memory, no valid line, the invariant holds |
| Cache.CachedMemory.Store | nemu/src/memory/memory.c:19-21 | memcpy of the low bytes: exactly those bytes of hw_mem change |
| Cache.CachedMemory.ReadUncached | nemu/src/memory/memory.c:13-17 | The little-endian value of the bytes |
| Cache.CachedMemory.WriteUncached | nemu/src/memory/memory.c:47-51 | With the cache compiled out a write is the flat write |
| Cache.CachedMemory.BlockRead | nemu/src/memory/cache.c:15-40 | The value is that of memory, whatever line rand() picks. A hit is counted exactly if a valid line of the set has the tag, and changes no line; a miss fills one line of the set with the block, an invalid one if there is any. The block is held afterwards and the invariant kept |
| Cache.CachedMemory.Read | nemu/src/memory/cache.c:42-62 | A cached read, straddling two lines or not, is the flat read; memory is untouched. Hits are counted for exactly the blocks that were held, both blocks are held afterwards, other sets keep their lines, and if both were held all lines stay |
| Cache.CachedMemory.ReadTwice | nemu/src/memory/cache.c:15-62 | Of two reads of one block in a row the second is a hit |
| Cache.CachedMemory.BlockWrite | nemu/src/memory/cache.c:64-76 | Updating the first matching line keeps every valid line an exact copy of memory; no line becomes valid, invalid or another block's |
| Cache.CachedMemory.Write | nemu/src/memory/cache.c:78-90 | A cached write, straddling or not, is the flat write, and what is held does not change |
| Cache.CachedMemory.Run | nemu/src/memory/cache.c:42-90 | Every run of accesses returns the values and leaves the memory of the uncached run, for all choices of rand() |
| Cache.OtherBlocksKeep | nemu/src/memory/cache.c:64-76 | A line that does not hold the written block stays an exact copy of its own block |
| Cache.SameBlockRepaired | nemu/src/memory/cache.c:72 | The same bytes at the same offset repair the line that does |
| Cache.LineHolds | nemu/src/memory/cache.c:22-26 | Reading a matching line is reading memory |
| Cache.FillKeeps | nemu/src/memory/cache.c:30-36 | Filling any line of the set keeps coherence and uniqueness, once no line of it holds the block |
| Cache.WriteMissKeeps | nemu/src/memory/cache.c:68-75 | A write no line matches keeps every line coherent |
| Cache.WriteKeeps | nemu/src/memory/cache.c:68-74 | By uniqueness, stopping after the first match leaves no stale line |
| Cache.ElsewhereKept | nemu/src/memory/cache.c:15-40 | Reading a block changes no line of another set, so what is held there stays |
| Linear.OffsetKept | nemu/src/memory/mmu/page.c:24-26 | Translation keeps the offset in the page |
| Linear.NextByte | nemu/src/memory/mmu/page.c:5-27 | The next linear byte of a page is the next physical byte, or faults with it |
| Linear.WithinPage | nemu/src/memory/memory.c:68-71 | Inside a page the bytes translate to consecutive physical addresses |
| Linear.AddressesSplit | nemu/src/memory/memory.c:59-66 | The translations of an access are those of its two parts, also around 2^32 |
| Linear.OnePage | nemu/src/memory/memory.c:68-71 | Inside a page, the byte-by-byte access is one physical access at the translation of the first byte |
| Linear.TwoPages | nemu/src/memory/memory.c:60-67 | Across pages it is two, with the data joined and split by the shifts of the code |
| Linear.Unpaged | nemu/src/memory/memory.c:73 | Without paging it is the physical access at the same address |
| Linear.CrossingPoint | nemu/src/memory/memory.c:59-61 | The code finds how many bytes lie on the second page, also at the top of the address space |
| Linear.SamePage | nemu/src/memory/memory.c:59-60 | Equal page numbers mean that the access does not leave its page |
| Linear.Mmu.constructor | nemu/src/memory/memory.c:124-131 | Cleared memory, cache and mode |
| Linear.Mmu.PaddrRead | nemu/src/memory/memory.c:23-38 | Outside MMIO a physical read is the flat read, with and without the cache; with it one or two block accesses are counted, without it the cache is not touched |
| Linear.Mmu.PaddrWrite | nemu/src/memory/memory.c:40-53 | And a physical write the flat write; what the cache holds does not change |
| Linear.Mmu.Translate | nemu/src/memory/mmu/page.c:5-27 | The two-level walk over hw_mem, a fault where an assert fails |
| Linear.Mmu.LaddrRead | nemu/src/memory/memory.c:56-74 | The little-endian value of the bytes found by translating each address on its own, or a fault if any of them faults; memory unchanged |
| Linear.Mmu.LaddrWrite | nemu/src/memory/memory.c:76-95 | Byte i of the data goes to the translation, before the write, of address i; on a fault nothing is written |
| Linear.GatherScatter | nemu/src/memory/memory.c:76-95 | Bytes written to distinct addresses are read back, every other byte is unchanged |
| Linear.AddressesDistinct | nemu/src/memory/memory.c:76-95 | The bytes of one access have distinct physical addresses even when both pages map to one frame |
| Linear.WriteThenGather | nemu/src/memory/memory.c:76-95 | For a fixed translation, a write followed by a read returns the low bytes of the data, and nothing else changed |
| Linear.TranslationStable | nemu/src/memory/mmu/page.c:11-20 | A translation depends only on the table entries it consults |
| Linear.AddressesStable | nemu/src/memory/mmu/page.c:11-20 | The same for all bytes of an access |
| Linear.ReadBackIff | nemu/src/memory/memory.c:56-95 | With the walk repeated after the write, the data comes back if and only if every byte is then translated, to a byte like the one written |
| Linear.WriteThenRead | nemu/src/memory/memory.c:56-95 | With the walk repeated after the write the data also comes back, if the write does not hit a table entry it uses |
| Linear.WriteCanUnmapItself | nemu/src/memory/memory.c:56-95 | A write to the entry that maps it succeeds and makes the next read fault |
| KernelPaging.Kernel.constructor | kernel/src/memory/kvm.c:9-16 | Page-aligned tables |
| KernelPaging.Kernel.InitPage | kernel/src/memory/kvm.c:12-44 | The nested loops leave entry k of the tables at 4096 k + 7, and the directory at the same 32 tables, plus 7, in both halves and zero elsewhere; paging is on at that directory |
| KernelPaging.Kernel.InitMm | kernel/src/memory/mm.c:23-34 | The user directory has the kernel's entries above 0xC0000000 and zero elsewhere; ucr3 points at it |
| KernelPaging.WalkThroughTable | nemu/src/memory/mmu/page.c:7-26 | A directory entry made for table t translates its 4 MB to the t-th 4 MB of physical memory |
| KernelPaging.NotPresentFaults | nemu/src/memory/mmu/page.c:13-15 | A zero directory entry faults |
| KernelPaging.KernelEntries | kernel/include/memory.h:23-24 | Every entry as a number: frame address with the present, writable and user bits set, at exactly the 64 directory slots and all 32768 table entries |
| KernelPaging.UserEntries | kernel/src/memory/mm.c:26-33 | The same numbers in the upper half of a user directory and zero elsewhere |
| KernelPaging.KernelTablesDecode | kernel/src/memory/kvm.c:19-33 | The emulator's walk over init_page's tables is x to x and 0xC0000000 + x to x below 128 MB, and a fault everywhere else, on all 2^32 addresses |
| KernelPaging.UserTablesDecode | kernel/src/memory/mm.c:26-33 | Over init_mm's directory only the part above 0xC0000000 is mapped, as the kernel maps it |
| KernelPaging.AliasAddresses | kernel/src/memory/kvm.c:24-33 | Every access at 0xC0000000 + x goes to consecutive physical addresses from x, page crossings included |
| KernelPaging.KernelAliasReads | kernel/src/memory/kvm.c:24-33 | So a linear read there is the physical read at x |
| QuickSort.HoleMoves | testcase/src/quick-sort.c:12-15 | Moving an element into the hole moves the hole and keeps the elements, the pivot counted in |
| QuickSort.Partition | testcase/src/quick-sort.c:7-20 | The pivot ends where everything before it is at most as large and everything after it larger; a permutation, nothing outside the range changes; every round makes progress |
| QuickSort.SortedAround | testcase/src/quick-sort.c:25-27 | Sorted parts around a pivot are sorted together |
| QuickSort.SortedRecursively | testcase/src/quick-sort.c:22-28 | Partition and the two recursive calls together leave the range sorted and rearranged |
| QuickSort.Sort | testcase/src/quick-sort.c:22-28 | Any range ends sorted, a permutation of itself, and nothing outside it changes |
| QuickSort.SortedUnique | testcase/src/quick-sort.c:33-36 | Only one arrangement of given elements is sorted |
| QuickSort.SortTwice | testcase/src/quick-sort.c:30-42 | Sorting an arrangement of 0 to n-1 gives a[i] == i, and so does sorting again |
| Alu.ClearLowestBit | nemu/src/cpu/alu.c:11-14 | temp & (temp - 1) has one bit fewer |
| Alu.OnesOfLowByte | nemu/src/cpu/alu.c:9-10 | The byte the parity loop works on has the ones of bits 0 to 7 of the result |
| Alu.SumOverflow | nemu/src/cpu/alu.c:22-28 | The sign test finds exactly the sums outside the signed range, carry included |
| Alu.DifferenceOverflow | nemu/src/cpu/alu.c:61-63 | With the complement it finds exactly the differences outside the signed range |
| Alu.ComplementSum | nemu/src/cpu/alu.c:61-63 | Subtracting is adding the complement with the opposite carry, and the complement is the signed negation less one |
| Alu.SumCarry | nemu/src/cpu/alu.c:40-43 | The two comparisons are the carry out of dest + src + carry |
| Alu.DifferenceBorrow | nemu/src/cpu/alu.c:82-89 | The two comparisons are the borrow out of dest - src - borrow |
| Alu.Cpu.SetPF | nemu/src/cpu/alu.c:8-16 | PF is 1 if and only if the number of ones among bits 0 to 7 of the result, each taken as result / 2^i % 2, is even |
| Alu.Cpu.SetZF | nemu/src/cpu/alu.c:18 | ZF says whether the result is zero |
| Alu.Cpu.SetSF | nemu/src/cpu/alu.c:20 | SF says whether the result is negative |
| Alu.Cpu.Judge | nemu/src/cpu/alu.c:22-24 | Of a 32-bit sum, with or without a carry in, it says whether the sum of the signed operands leaves the signed range |
| Alu.Cpu.Add | nemu/src/cpu/alu.c:30-38 | Result and CF are the exact sum, OF the signed overflow, the other flags those of the result |
| Alu.Cpu.Adc | nemu/src/cpu/alu.c:49-59 | The same with the carry in |
| Alu.Cpu.Sub | nemu/src/cpu/alu.c:72-80 | Result and CF are the exact difference and borrow, OF the signed overflow |
| Alu.Cpu.Sbb | nemu/src/cpu/alu.c:95-104 | The same with the borrow in |
| Alu.AddChainAdds | nemu/src/cpu/alu.c:30-59 | A chain over any number of words adds the numbers, the last carry counting as the next word |
| Alu.AddChainCarry | nemu/src/cpu/alu.c:30-59 | So the words are the sum modulo 2^(32n) and the last carry says that it did not fit |
| Alu.SubChainSubtracts | nemu/src/cpu/alu.c:72-104 | A chain subtracts, the last borrow counting against it |
| Alu.SubChainBorrow | nemu/src/cpu/alu.c:72-104 | So the last borrow says which number was smaller |
| Alu.AddChainOverflow | nemu/src/cpu/alu.c:49-59 | The signed n-word sum leaves its range exactly when the top words with the carry below them do |
| Alu.SubChainOverflow | nemu/src/cpu/alu.c:95-104 | The same for the signed n-word difference |
| Alu.AddWords | nemu/src/cpu/alu.c:30-59 | alu_add and then alu_adc over any number of words: result and CF are the n-word sum, and OF is its signed n-word overflow |
| Alu.SubWords | nemu/src/cpu/alu.c:72-104 | alu_sub and then alu_sbb over any number of words: result and CF are the n-word difference, and OF is its signed n-word overflow |
| Alu.AddLongLong | testcase/src/add-longlong.c:3-6 | add and adc give the 64-bit sum with carry, and OF the signed 64-bit overflow |
| Alu.SubLongLong | testcase/src/sub-longlong.c:3-7 | sub and sbb give the 64-bit difference with borrow, and OF the signed 64-bit overflow |
| Keyboard.Hal.constructor | game/src/nemu-pal/hal/keyboard.c:13 | All keys empty |
| Keyboard.Hal.KeyboardEvent | game/src/nemu-pal/hal/keyboard.c:15-30 | The key with that scan code goes to press from empty, and to release on a break code; no other key changes |
| Keyboard.Hal.ProcessKeys | game/src/nemu-pal/hal/keyboard.c:56-84 | The lowest pending key is reported once and settled; true exactly if a key was pending |
| Keyboard.Hal.Drive | game/src/nemu-pal/hal/keyboard.c:15-84 | The object takes every interleaving of the two as the run on values does |
| Keyboard.RunInvariant | game/src/nemu-pal/hal/keyboard.c:15-84 | Over every run the presses of a key never repeat, and it waits for a release exactly after a reported press, up to a release still pending |
| Keyboard.ReleaseBetweenPresses | game/src/nemu-pal/hal/keyboard.c:67-81 | Between two press callbacks of a key there is a release callback of it |
| Keyboard.ReleasesPaired | game/src/nemu-pal/hal/keyboard.c:20-28 | Over every run all releases of a key, reported or pending, answer a press, if and only if no break code came while the key was empty or its press unreported |
| Keyboard.ReleaseHasPress | game/src/nemu-pal/hal/keyboard.c:67-81 | Then every release callback has a press callback before it with no other release between |
| Keyboard.PollSettlesOne | game/src/nemu-pal/hal/keyboard.c:66-83 | A poll reports one key and lowers the number of pending keys by one, or does nothing when there is none |
| Keyboard.Drains | game/src/nemu-pal/hal/keyboard.c:56-84 | Without new events, as many polls as there are pending keys empty them all |
| Keyboard.KeycodesAre | game/src/nemu-pal/hal/keyboard.c:6-11 | The literal make code of each of the 18 keys, none of them 0 or above 0x7f |
| Keyboard.MakeIsReported | game/src/nemu-pal/hal/keyboard.c:15-84 | After any run that leaves a key up, its make code and then as many polls as there are pending keys report one press of that key and nothing else of it |
| Keyboard.BreakIsReported | game/src/nemu-pal/hal/keyboard.c:15-84 | And its break code, in whatever state the key is, one release |
| Keyboard.RepeatIgnored | game/src/nemu-pal/hal/keyboard.c:24-27 | A make code repeated before the release changes neither the keys nor the log, whatever follows |
| Keyboard.OtherCodesIgnored | game/src/nemu-pal/hal/keyboard.c:15-30 | Nor does a code of no key |
| Keyboard.ReleaseWithoutPress | game/src/nemu-pal/hal/keyboard.c:22-27 | An early break exists: a key pressed and released before the poll is reported as released only |
| BreakpointList.TakeNode | nemu/src/monitor/breakpoint.c:29-36 | The first free node, which was not in use, moves to the front of the used list and the two lists stay a partition of the pool |
| BreakpointList.ReturnNode | nemu/src/monitor/breakpoint.c:94-106 | Unlinking and freeing the k-th used node keeps the partition and the order of the rest |
| BreakpointList.InitialLists | nemu/src/monitor/breakpoint.c:16-27 | After the initial loop all 32 nodes are free, in order |
| Breakpoints.BreakpointPool.constructor | nemu/src/monitor/breakpoint.c:16-27 | An empty list and 32 free nodes |
| Breakpoints.BreakpointPool.SetBreakpoint | nemu/src/monitor/breakpoint.c:47-74 | The new node at the front saves the byte and INT3 replaces it, no other node or byte changes; nothing happens on an empty pool |
| Breakpoints.BreakpointPool.SetWatchpoint | nemu/src/monitor/breakpoint.c:76-92 | The new node at the front holds expression and value in place of an address; -1 without a value |
| Breakpoints.BreakpointPool.DeleteBreakpoint | nemu/src/monitor/breakpoint.c:94-106 | Exactly the node with that number leaves the list and the saved bytes, the others keep order and data, the code is not written; false exactly if there is none |
| Breakpoints.BreakpointPool.Locate | nemu/src/monitor/breakpoint.c:95-98 | The walk stops at the node with that number, with its predecessor |
| Breakpoints.BreakpointPool.FreeBp | nemu/src/monitor/breakpoint.c:38-45 | The node is marked free and goes to the front of the free list |
| Breakpoints.BreakpointPool.DeleteAllRecursively | nemu/src/monitor/breakpoint.c:108-113 | The nodes reach the free list in their own order |
| Breakpoints.BreakpointPool.DeleteAll | nemu/src/monitor/breakpoint.c:115-118 | No breakpoint is left and the free list is the old used list followed by the old free list |
| Breakpoints.BreakpointPool.FindBreakpoint | nemu/src/monitor/breakpoint.c:138-148 | The first breakpoint of the list at that address, if any |
| Breakpoints.BreakpointPool.MaskBreakpoints | nemu/src/monitor/breakpoint.c:175-188 | The walk writes the saved bytes back, front first |
| Breakpoints.BreakpointPool.ResumeBreakpoints | nemu/src/monitor/breakpoint.c:150-173 | The walk saves each byte and writes INT3, front first, and changes no link |
| SavedBytes.MaskAt | nemu/src/monitor/breakpoint.c:175-188 | After masking, an address holds the byte saved by the last node there |
| SavedBytes.ResumeAt | nemu/src/monitor/breakpoint.c:150-173 | After resuming, every site is INT3; the first node at an address saved the byte, later ones INT3 |
| SavedBytes.SetKeepsArmed | nemu/src/monitor/breakpoint.c:57-59 | Setting one more breakpoint at a new address keeps code and saved bytes consistent with the original code |
| SavedBytes.MaskRestores | nemu/src/monitor/breakpoint.c:175-188 | Masking then gives exactly the original code |
| SavedBytes.SetThenMask | nemu/src/monitor/breakpoint.c:47-188 | Breakpoints at any different addresses followed by a mask leave the code as it was |
| SavedBytes.SetKeepsMask | nemu/src/monitor/breakpoint.c:57-59 | Setting a breakpoint at any address, occupied or not, does not change what masking gives |
| SavedBytes.DeleteSpoils | nemu/src/monitor/breakpoint.c:94-106 | Deleting the oldest breakpoint at an address makes what masking gives INT3 there; deleting any other changes nothing |
| SavedBytes.EditsThenMask | nemu/src/monitor/breakpoint.c:47-188 | After any run of sets and deletes, masking gives the code with INT3 at exactly the addresses whose oldest breakpoint was deleted |
| SavedBytes.EditsRestore | nemu/src/monitor/breakpoint.c:47-188 | So from a fresh list it gives the original code if and only if the code had INT3 at all of those |
| SavedBytes.DeleteThenMask | nemu/src/monitor/breakpoint.c:94-188 | After one deletion among breakpoints at different addresses, masking restores the code if and only if the deleted one had saved INT3 |
| SavedBytes.PoolDeleteThenMask | nemu/src/monitor/breakpoint.c:94-188 | The same of the nodes of the pool |
| SavedBytes.SetThenDelete | nemu/src/monitor/breakpoint.c:47-106 | Set and deleted again, a breakpoint leaves INT3 in the code |
| SavedBytes.MaskResumeMemory | nemu/src/monitor/breakpoint.c:150-188 | Masking and resuming always gives the same code again |
| SavedBytes.MaskResumeSaved | nemu/src/monitor/breakpoint.c:150-188 | And the same saved bytes if and only if breakpoints that share an address saved INT3 |
| SavedBytes.HitThenResume | nemu/src/cpu/cpu.c:73-86 | Putting the byte of one breakpoint back and then resuming all gives the same code, and the same saved bytes if and only if all the others had saved INT3 |
| SavedBytes.TwiceAtOneAddress | nemu/src/monitor/breakpoint.c:47-188 | Setting two breakpoints at one address: the first mask restores the code, after a resume the next mask leaves INT3 there |
| ExprTokens.WrapDigit | nemu/src/monitor/expr.c:182-184 | Wrapping at every digit is wrapping once at the end |
| ExprTokens.DecimalValue | nemu/src/monitor/expr.c:179-186 | The loop gives the decimal number modulo 2^32, as a signed integer |
| ExprTokens.HexValue | nemu/src/monitor/expr.c:187-197 | The loop gives the hexadecimal number modulo 2^32 |
| ExprTokens.DominantFound | nemu/src/monitor/expr.c:150-176 | The scan finds the rightmost of the weakest operators outside parentheses whenever there is one |
| ExprEval.PrintBalanced | nemu/src/monitor/expr.c:136-148 | The spelling of an expression never closes a parenthesis it did not open |
| ExprEval.ParensBalanced | nemu/src/monitor/expr.c:136-148 | Parentheses around a balanced spelling are balanced and may be taken off, and nothing inside is outside them |
| ExprEval.BinaryNotEnclosed | nemu/src/monitor/expr.c:136-148 | Around two parts with an operator between they may not, even if both ends are parentheses |
| ExprEval.PrintDominant | nemu/src/monitor/expr.c:150-176 | In the spelling of an expression the outermost operator is the dominant one |
| ExprEval.EvalPrint | nemu/src/monitor/expr.c:211-254 | eval computes the meaning of every expression of the grammar without an error |
| ExprGrammar.Accepted | nemu/src/monitor/expr.c:211-254 | Tokens on which eval succeeds are the spelling of an expression with that meaning |
| ExprGrammar.EvalIffGrammar | nemu/src/monitor/expr.c:211-254 | eval succeeds with v if and only if the tokens spell an expression with meaning v |
| ExprGrammar.PrintPlaced | nemu/src/monitor/expr.c:123-134 | In an expression, minus and star are prefix operators exactly where no operand ends before them |
| ExprGrammar.ProcessReads | nemu/src/monitor/expr.c:123-134 | So process recovers the operators from the lexer's spelling |
| ExprGrammar.ProcessKeepsSpelling | nemu/src/monitor/expr.c:123-134 | And changes nothing but the reading |
| ExprGrammar.ExprIffGrammar | nemu/src/monitor/expr.c:256-270 | From lexer tokens: process and eval succeed with v if and only if they spell an expression with meaning v |
| ExprArithmetic.QuotientDivides | nemu/src/monitor/expr.c:247 | The truncated quotient fits in 32 bits and leaves a remainder smaller than the divisor, zero or of the sign of the dividend |
| ExprArithmetic.QuotientUnique | nemu/src/monitor/expr.c:247 | Only one number does |
| ExprArithmetic.BinaryGives | nemu/src/monitor/expr.c:243-253 | Each binary operator computes v if and only if v is congruent to the integer sum, difference or product, is the truncated quotient, or is 1 or 0 as the comparison or connective holds |
| ExprArithmetic.PrefixGivesIt | nemu/src/monitor/expr.c:234-237 | The same for negation, not and dereferencing |
| ExprArithmetic.NumbersReadBack | nemu/src/monitor/expr.c:178-197 | A number written in decimal, or in hexadecimal in either case, is read as that number modulo 2^32 |
| ExprArithmetic.NamesAreLookedUp | nemu/src/monitor/expr.c:198-206 | A register is looked up without its dollar sign, a symbol as it stands |
| ExprArithmetic.LevelsAreGrammar | nemu/src/monitor/expr.c:150-176 | The expressions of each strength are those of a grammar with one level for each group of operators, named one by one |
| ExprArithmetic.DenotesMeaning | nemu/src/monitor/expr.c:211-254 | The meaning of an expression is the value obtained operator by operator from these relations |
| ExprArithmetic.SecondFirstRanks | nemu/src/monitor/expr.c:158-172 | Of two binary operators in a row the second binds tighter exactly for a product after a sum, either after a comparison, and any of these after a connective |
| ExprArithmetic.EvalResolved | nemu/src/monitor/expr.c:211-254 | Where every name of an expression has a value, eval gives its meaning, and dies exactly if a division traps |
| ExprArithmetic.FormOutcome | nemu/src/monitor/expr.c:211-270 | For x, p x, x op y, p x op y, x op p y and x op1 y op2 z: process and eval succeed with v if and only if v is computed step by step in the literal order, and otherwise the emulator dies |
| ExprMonitor.Evaluator.Process | nemu/src/monitor/expr.c:123-134 | The in-place loop gives every minus and star its reading by the token before it, the last token excepted |
| ExprMonitor.Evaluator.CheckParentheses | nemu/src/monitor/expr.c:136-148 | Error exactly on an unmatched closing parenthesis; true exactly if the range has parentheses at both ends and no closing one before the last brings the depth back to zero |
| ExprEval.NoOperator | nemu/src/monitor/expr.c:230-253 | Without a dominant operator the switch looks at the word before the array; whatever is there, this is an error or a trap and never a success |
| ExprMonitor.Evaluator.DominantOf | nemu/src/monitor/expr.c:150-176 | The loop finds the dominant operator, -1 without one, and fails exactly on an undecided minus or star outside parentheses |
| ExprMonitor.Evaluator.Val | nemu/src/monitor/expr.c:178-209 | The value of one token, or none |
| ExprMonitor.Evaluator.EvalRange | nemu/src/monitor/expr.c:211-254 | The recursion over index ranges computes eval on the tokens of the range |
| ExprMonitor.Evaluator.EvalSides | nemu/src/monitor/expr.c:241-253 | Both sides, left first, with the error flag carried over |
| ExprMonitor.Evaluator.Switch | nemu/src/monitor/expr.c:243-253 | The number the operator stands for: congruent sum, difference or product modulo 2^32, truncated quotient, or 0 and 1; the error flag carried over; a trap exactly for a zero divisor and -2^31 / -1; an error for anything else |
| ExprMonitor.Evaluator.ExprValue | nemu/src/monitor/expr.c:256-270 | If the tokens spell an expression of the levelled grammar that denotes a value, the result is that value and the flag is left as the caller had it; otherwise the flag is cleared, or the emulator dies. On operands with one or two operators the result is computed step by step at the literal precedences, and only a division trap stops it |
| TypingRules.TargetUnique | game/src/typing/effect.c:75-81 | The letter to strike is determined |
| TypingRules.TickCounts | game/src/typing/effect.c:50-65 | In a tick every letter stays or is counted once, struck letters only as hits |
| TypingRules.StepKeepsScore | game/src/typing/effect.c:32-91 | Every step keeps the score invariant |
| TypingRules.EveryRunKeepsScore | game/src/typing/effect.c:32-91 | Over every run created = hit + miss + on the screen, and struck = hit + struck and still rising |
| TypingRules.ScoreBounds | game/src/typing/effect.c:56-58 | Never more hits than strikes, and letters not struck are missed or still falling |
| TypingRules.StrikeUsesKey | game/src/typing/effect.c:83-87 | Each strike uses up one pressed key |
| TypingRules.PressMarks | game/src/typing/keyboard.c:5-21 | The literal scan code of each of the 26 letters marks that letter and no other; other codes mark none |
| TypingRules.InterruptMarks | game/src/typing/keyboard.c:13-21 | That is all an interrupt changes in the game |
| TypingRules.TypedIsStruck | game/src/typing/effect.c:68-91 | If a letter with the typed text is falling, the next update_keypress strikes one at least as low, whose key was down or is the one typed |
| TypingRules.NewLetterWaits | game/src/typing/effect.c:32-47 | A new letter cannot be struck by a key pressed earlier, and by the next one exactly if it has its code |
| TypingRules.StartSpeedIsHalf | game/src/typing/effect.c:44 | The computed speed is one half for every answer of rand() |
| TypingRules.StartColumns | game/src/typing/effect.c:43 | The column is a multiple of 8 from 8 to 304, and each of these for exactly every 38th answer of rand() |
| TypingRules.StartTexts | game/src/typing/effect.c:45 | Each of the 26 letters, for exactly every 26th answer |
| TypingRules.FallsFor384 | game/src/typing/effect.c:50-65 | A letter never struck is on the screen for its first 384 moves and leaves at the bottom with the 385th |
| TypingRules.RisesOut | game/src/typing/effect.c:50-65 | A struck letter rises three at a time and leaves at the top with the first move beyond it, never at the bottom |
| TypingRules.TickAround | game/src/typing/effect.c:50-65 | In any list a tick moves each letter, drops it exactly if that takes it off the screen, and counts it once at the end it left by |
| TypingSchedule.AgeBound | game/src/typing/effect.c:55-56 | No letter lives longer than 448 moves, struck or not |
| TypingSchedule.TickSpaced | game/src/typing/game.c:60-68 | A move keeps the letters at least 33 moves apart in age |
| TypingSchedule.StepInTime | game/src/typing/game.c:60-68 | Whatever main_loop, an interrupt or a strike does next is possible and keeps the ages apart |
| TypingSchedule.PoolSuffices | game/src/typing/game.c:54-68 | Over every interleaving of main_loop with interrupts and strikes every letter that is due finds room in the pool, and there are never more than fourteen |
| TypingList.InitialChain | game/include/adt/linklist.h:49-55 | The first use links all nodes, the sentinel last |
| TypingList.NewLetterKeeps | game/include/adt/linklist.h:46-76 | The node handed out is never live and never the sentinel; put at the front, the list is well formed in both directions and live and free nodes still partition the pool |
| TypingList.BypassedList | game/include/adt/linklist.h:77-82 | Removing a node leaves a well-formed list of the others, in order |
| TypingList.RemoveKeeps | game/include/adt/linklist.h:77-86 | Removing and freeing keeps the partition; the other letters are untouched |
| Typing.TypingGame.constructor | game/src/typing/effect.c:9-12 | No letters, no keys, a score of zero |
| Typing.TypingGame.FlyNew | game/include/adt/linklist.h:46-61 | Hands out the first free node, or fails exactly when all SIZE nodes are live |
| Typing.TypingGame.FlyInsert | game/include/adt/linklist.h:70-76 | Links the node between two neighbours |
| Typing.TypingGame.FlyRemove | game/include/adt/linklist.h:77-82 | Links the neighbours to each other |
| Typing.TypingGame.FlyFree | game/include/adt/linklist.h:83-86 | The node becomes the first free one |
| Typing.TypingGame.CreateNewLetter | game/src/typing/effect.c:32-47 | For any three answers of rand() it takes the creation step of the state machine, or fails exactly on a full pool |
| Typing.TypingGame.Advance | game/src/typing/effect.c:55 | Of the letters in the list exactly the k-th one moves, and both lists stay well formed |
| Typing.TypingGame.Drop | game/src/typing/effect.c:59-60 | The node is linked past and becomes the first free one |
| Typing.TypingGame.UpdateLetterPos | game/src/typing/effect.c:50-65 | The walk that frees nodes under way takes exactly the tick of the state machine and keeps both lists well formed |
| Typing.TypingGame.KeyboardEvent | game/src/typing/keyboard.c:13-21 | The literal scan code of a letter marks exactly that letter, any other code marks none |
| Typing.TypingGame.UpdateKeypress | game/src/typing/effect.c:68-91 | Strikes the lowest falling letter whose key is down, the first of the list among equals; true exactly if there is one |
| Typing.TypingGame.TypeLetter | game/src/typing/game.c:54-55 | keyboard_event with the code of a falling letter and then update_keypress: always true, and a letter is struck |
| Typing.TypingGame.StrikeAll | game/src/typing/game.c:54-55 | The loop ends, after as many strikes as keys were used, when no falling letter has its key down |
| Typing.TypingGame.CatchUp | game/src/typing/game.c:60-68 | The loop over the missed ticks never meets the failing assert of fly_new |
| Typing.TypingGame.Round | game/src/typing/game.c:54-68 | Nor does a whole round of main_loop, and the next one can start from where it ends |

## Left out

- FPU division (nemu/src/cpu/fpu.c:264-302): the quotient drops its remainder, so its rounding is not claimed.
- FpuNormalize.InternalNormalize: promises nothing for an inexact significand that would have to be shifted left twice, nor, at exponents of 255 and above, for at most 27 bits worth 2^128 or more; addition, subtraction and multiplication produce neither.
- fpu_cmp and fpu_cmpi compare host floats; NaN payloads are not part of the reference beyond being a NaN.
- alu_mul, alu_imul, alu_div, alu_idiv, the logic operations and the shifts: they would add easy members.
- Linear.WriteThenRead: a sufficient condition that can be seen before the write; the exact one, in ReadBackIff, depends on what the new table entries happen to map.
- Cache.CachedMemory.Store: copies byte by byte where the code calls memcpy.
- Breakpoints.BreakpointPool.SetBreakpoint: the guest's code is a flat array of bytes by virtual address; instr_fetch and vaddr_write with their translation are not repeated here.
- make_token and the regular expressions: the evaluator starts from tokens, and the limit of the token array is not modelled.
- Uninitialised flags: ExprValue takes the flag as the caller passes it; what an uninitialised one holds is not modelled.
- MMIO, segmentation, the TLB and mm_malloc: physical accesses are to hw_mem, page_translate is the walk without the TLB.
- scan_watchpoint and list_breakpoint: evaluation over the list and printing; new_val, which only the former uses, and the release of the expression's text are not modelled.
- Float arithmetic in the typing game: positions are multiples of one half, which float holds exactly, so reals are used.
- Interrupt masking in the two games: each handler, poll and game step is atomic, in any order.
- Devices, drawing, the PAL game, instruction decoding and the monitor's user interface.
