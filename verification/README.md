# RustOS: a verified model of its algorithmic core

This project models, in Dafny 4.11, the parts of the RustOS kernel and its userland whose
correctness does not hang on hardware: the shell's parser and globbing, ELF symbol lookup and
relocation, the futex and run-queue protocols, the seccomp filter machine and its allow-list
compiler, three memory allocators, the NVMe sector translation, SHA-256, CRC-32, line drawing,
calendar dates, and the service manager. `dafny verify dfyconfig.toml` checks all of it.

Loops of the source are loops here, and objects whose fields change are classes. Each such method
is tied to a function on values, and the laws the source is meant to obey are lemmas about those
functions, over all inputs, all runs or all interleavings.

| file | models |
|---|---|
| `ShellLexer`, `ShellParser`, `ShellGrammar`, `ShellRoundTrip`, `ShellJoin` | `src/shell_parser.rs`, and how `src/shell.rs` splits a line |
| `Glob` | `glob_match` in `src/shell.rs` |
| `ElfImage`, `ElfHash`, `ElfSymbols`, `ElfRelocation` | `src/elf.rs`; System V gABI chapter 5 (Hash Table), section 4.4.1 of the System V x86-64 psABI |
| `Futex`, `FutexRuns` | `src/futex.rs`, one lock-held region or clock read at a time |
| `Smp`, `SmpRuns` | the run queues of `src/smp.rs`, one call at a time and one atomic step at a time |
| `Seccomp` | `src/seccomp.rs` |
| `Bitmap`, `FrameAllocator`, `Vmalloc`, `Slab` | `src/memory.rs`, `src/vmalloc.rs`, `src/slab.rs` |
| `Block` | the NVMe device of `src/block.rs` over the driver in `src/drivers/nvme.rs` |
| `Sha256`, `Sha256Rounds`, `Sha256Constants` | `src/sha256.rs`; sections 4.1.2, 4.2.2, 5.1.1, 5.3.3 and 6.2.2 of FIPS 180-4 |
| `Crc32`, `GptHeader` | `src/partition.rs`; clause 3.2.9 of IEEE 802.3 |
| `CivilDate`, `Bresenham` | `coreutils_src/date.c`, `line` in `src/framebuffer.rs` |
| `Init`, `InitManager`, `InitReturns` | `src/init.rs` |
| `Wrappers`, `Arithmetic`, `Words` | optional values and results, division facts, machine words as bit sequences |

## What the code does not promise

Where a law one would expect fails, the model keeps the code as it is, gives an input, and states
exactly when the law holds.

- The grammar comment of the parser (`src/shell_parser.rs:8-19`) is not what the code accepts, and
  the code does not insist on the end of the input. `ParseExact` and `DerivationUnique` give the
  grammar it does accept: one separator or none after a list, any number after `then`, `else`, `do`,
  the values of a `for` and at the start, and any arms in any order. `StopExact` says where it may
  stop: `if a; then b; fi c` runs without the `c` (`WordAfterFi`), and a second `else` replaces the
  first (`RepeatedElse`). `GrammarExact` says which inputs the two grammars agree on.
- `join_simple` quotes only for blanks, so for the parser's own tokenizer `;`, line ends and quotes
  in a word are not carried (`JoinFaithful`, `JoinLosesSeparator`). The line goes to the dispatcher,
  which splits at `;` and white space and knows no quotes, so a word with a blank is not carried
  there at all (`DispatchExact`, `DispatchLosesBlank`).
- `glob_match` tries a literal match before the star, so a `*` in the text can use up a star of
  the pattern (`TextExact`, `PatternExact`).
- The comment on `civil_from_days` (`coreutils_src/date.c:13-15`) gives a domain whose dates leave
  the year range it gives (`CommentFails`, `CommentExact`); the year is cut to 32 bits only outside
  `FirstDay` to `LastDay` (`IntExact`).
- `elf_hash` is called identical to the textbook one (`src/elf.rs:766-767`). The ABI's loop on a
  64-bit word gives another value for some names (`CarryHappens`), and the same one exactly when no
  addition for the last eight characters carries out of 32 bits (`Textbook64`).
- `lookup_symbol_hashed` is said to fall back to the linear search on a malformed chain
  (`src/elf.rs:679-680`). It does not: a symbol can be there and not be found (`NoFallback`). The two
  agree on every name exactly when every chain ends and the chains index the symbols (`HashedExact`).
  They index them when each symbol is on its own name's chain and no name is defined twice
  (`PlacedIndexes`, `PlacedAgrees`).
- A RET of the accumulator returns the constant of the instruction (`ReturnAIgnoresA`,
  `ReturnExact`), a load near the end of the 32-bit offsets panics (`PanicExact`), and 4096 steps
  are too few for an allow-list of more than 4094 calls (`AllowlistExact`, `CheckAllowlist`).
- A futex waiter with a timeout can be released and still report a timeout (`TimeoutExact`); tasks
  without a process share one pid, and then Ok can come without a wake (`OkExact`).
- The comment on `enqueue` (`src/smp.rs:176-179`) says a reader never sees more than the queue
  holds; during a pop or drain it does (`LengthExact`, `LengthTooLarge`).
- A steal that saw two pids can take the last one, exactly when the others have gone between its look
  and its lock (`StealExact`, `StealEmpties`).
- The frame allocator counts a frame once for each usable region that lists it (`CountExact`).
- Freeing a frame that is not an allocated one puts the frame counter out (`GiveExact`).
- `GptHeader::verify_crc` is called nowhere: `parse_gpt` (`src/partition.rs:238-239`) takes any header
  with the right signature. `Accept` is the composition a caller would have to make.
- NVMe block counts are cut to 16 bits, so large requests succeed in part (`ReadsExact`, `WritesExact`).
- `line` leaves 32-bit arithmetic on some segments; the greatest length on which none does is
  715827883 (`OverflowExact`).
- `start` recurses along dependencies, and can recurse without end (`SelfRequired`). It comes back
  exactly when its service can be started, and then succeeds, or when following the first
  requirement in its way leads to an unregistered name, and then fails (`ReturnsExact`, `ErrorExact`,
  `StartableExact`). On a cycle of services that do not run it never succeeds (`CycleStuck`).
- A runlevel change starts required services of other levels, and leaves failed ones alone
  (`RunlevelExact`, `DisabledDependencyStarts`, `FailedNotStarted`).

## Model

| member | source | states |
|---|---|---|
| ShellLexer.Tokenize | src/shell_parser.rs:48-99 | the loop's tokens are those of the spans of the text: one for each unquoted `;` and line end, one for each stretch between breaks that has a character of a word, in order |
| ShellLexer.LexExact | src/shell_parser.rs:48-99 | a token list is the text's if and only if it lists all its spans from left to right, each word with its quotes removed, and `Eof` |
| ShellLexer.TakeQuoted | src/shell_parser.rs:76-92 | a quoted stretch runs to its closing quote or to the end, whichever comes first |
| ShellLexer.LexWellTerminated | src/shell_parser.rs:48-99 | every token list ends in its only `Eof` |
| ShellLexer.LexRender | src/shell_parser.rs:48-99 | writing out any token list the tokenizer can produce and tokenizing it gives it back |
| ShellParser.Parser.constructor | src/shell_parser.rs:124-126 | a parser starts at the first token of its input |
| ShellParser.Parser.Bump | src/shell_parser.rs:129-133 | reads the next token and never passes the closing `Eof` |
| ShellParser.Parser.Eat | src/shell_parser.rs:134-136 | consumes a token exactly when it is the expected one |
| ShellParser.Parser.SkipSep | src/shell_parser.rs:139-143 | drops exactly the leading separators |
| ShellParser.Parser.Program | src/shell_parser.rs:145-149 | the cursor-moving parser computes the grammar function on the remaining tokens, errors included, and ends |
| ShellParser.Parser.List | src/shell_parser.rs:151-164 | the same for command lists |
| ShellParser.Parser.Item | src/shell_parser.rs:166-173 | the same for one command |
| ShellParser.Parser.SimpleCommand | src/shell_parser.rs:175-185 | the same for words |
| ShellParser.Parser.IfCommand | src/shell_parser.rs:187-228 | the same for `if` with its arms |
| ShellParser.Parser.WhileCommand | src/shell_parser.rs:230-247 | the same for `while` |
| ShellParser.Parser.ForCommand | src/shell_parser.rs:249-274 | the same for `for` |
| ShellGrammar.ParseExact | src/shell_parser.rs:128-275 | the parser answers a tree and leaves a rest if and only if the tokens before the rest derive that tree and the derivation may stop there |
| ShellGrammar.DerivationUnique | src/shell_parser.rs:128-275 | tokens have at most one derivation |
| ShellGrammar.StopExact | src/shell_parser.rs:145-164 | the program ends before a token, dropping the rest without an error, if and only if it is a terminator after a trailing separator, or else no separator and no word after words |
| ShellGrammar.DroppedAfterBlock | src/shell_parser.rs:145-164 | after `fi` or `done` every token but a separator is dropped with all that follows |
| ShellGrammar.WordAfterFi | src/shell_parser.rs:145-164 | an input on which a command is dropped so |
| ShellGrammar.RepeatedElse | src/shell_parser.rs:187-228 | a second `else` is accepted and the first one's body is lost, for all bodies |
| ShellGrammar.SentenceParses | src/shell_parser.rs:8-19 | every program of the documented grammar is read to its end, as the tree it spells |
| ShellGrammar.GrammarExact | src/shell_parser.rs:8-19 | tokens are a program of the documented grammar if and only if they are read to the end and their derivation has the grammar's separators and at most one `else`, last |
| ShellGrammar.FreeGrammarExact | src/shell_parser.rs:8-19 | the same with separators wherever the parser takes them |
| ShellRoundTrip.ParseText | src/shell_parser.rs:279-281 | `parse` answers what the grammar function answers for the tokens of the text |
| ShellRoundTrip.UnparseParses | src/shell_parser.rs:128-275 | the tokens of every canonical tree are a program of the documented grammar, parse to exactly that tree and are all consumed |
| ShellRoundTrip.TextParses | src/shell_parser.rs:279-281 | the text of every tree of tokenizable words parses to exactly that tree |
| ShellRoundTrip.ParseWritable | src/shell_parser.rs:128-275 | every tree the parser returns is canonical and made of tokenizable words |
| ShellRoundTrip.ParserImage | src/shell_parser.rs:102-116 | a tree is the answer for some text if and only if it is canonical and of such words |
| ShellRoundTrip.ParseStable | src/shell_parser.rs:279-281 | writing a parsed tree out and parsing again changes nothing |
| ShellJoin.JoinSimple | src/shell_parser.rs:285-297 | the loop builds the joined line |
| ShellJoin.JoinFaithful | src/shell_parser.rs:285-297 | the parser's tokenizer reads the joined line as the same words if and only if every word can be carried |
| ShellJoin.JoinLosesSeparator | src/shell_parser.rs:285-297 | an input on which it does not |
| ShellJoin.DispatchExact | src/shell.rs:612-649 | the dispatcher reads the joined line as one command of the same words if and only if there are some and none is empty or holds white space or `;` |
| ShellJoin.DispatchLosesBlank | src/shell.rs:612-649 | an input on which it does not |
| Glob.GlobMatch | src/shell.rs:49-78 | the two loops end and compute the backtracking run from the start |
| Glob.Sound | src/shell.rs:49-78 | whatever is accepted matches in the declarative meaning of `*` and `?` |
| Glob.Complete | src/shell.rs:49-78 | where no star of the text can meet one of the pattern, it accepts exactly what matches |
| Glob.TextExact | src/shell.rs:49-78 | a text is judged correctly by all patterns if and only if it holds no `*` |
| Glob.PatternExact | src/shell.rs:49-78 | a pattern is judged correctly on all texts if and only if it holds no `*` |
| Glob.TextWitness | src/shell.rs:57-63 | for each text with a `*`, a pattern that matches and is refused |
| ElfImage.DynamicEntries | src/elf.rs:370-390 | entry `k` of the result is the tag and the value at byte `16 k` of the segment; the list ends after the first null tag or where no whole entry is left, and is empty when the segment leaves the file |
| ElfImage.LastExact | src/elf.rs:454-464 | of several entries with one tag the last counts |
| ElfImage.NumberByte | src/elf.rs:376-384 | byte `i` of a field is its `i`-th digit to base 256 |
| ElfHash.Compute | src/elf.rs:768-777 | the loop computes the hash and it stays below 2^28, so no shift loses a bit |
| ElfHash.HashStep | src/elf.rs:768-777 | each character moves the hash up four bits and is added in 32 bits; then the top four bits are xored into bits 4 to 7 and dropped |
| ElfHash.TextbookExact | src/elf.rs:766-777 | on a word of any width the loop of the ABI has the hash as its low 32 bits, and is the hash if and only if none of the last characters, one for each four bits above, carries |
| ElfHash.Textbook64 | src/elf.rs:766-777 | on 64 bits: if and only if none of the last eight does |
| ElfHash.CarryIsOverflow | src/elf.rs:771 | a character carries if and only if sixteen times the hash so far plus the character is 2^32 or more |
| ElfHash.AddIsSum | src/elf.rs:771 | the addition of words is the sum modulo their range, with the carry it leaves out |
| ElfHash.CarryHappens | src/elf.rs:766-777 | a name on which the 64-bit loop gives another value |
| ElfSymbols.ReadName | src/elf.rs:661-677 | a name is the bytes from its offset up to the first zero byte or the end of the string table |
| ElfSymbols.SymRoundTrip | src/elf.rs:734-757 | every 24-byte symbol record reads back, wherever it lies |
| ElfSymbols.LookupSymbol | src/elf.rs:661-677 | the linear lookup returns the first defined symbol of that name in table order |
| ElfSymbols.ScanExact | src/elf.rs:661-677 | it answers a value if and only if the first record that is defined and has that name has the value |
| ElfSymbols.LookupHashed | src/elf.rs:681-730 | the bucket-and-chain walk answers, panics on no buckets, or goes on forever as the chain function says |
| ElfSymbols.TableRoundTrip | src/elf.rs:693-728 | every hash table, two counts, buckets and chains, reads back from the places the walk looks at |
| ElfSymbols.WalkBounded | src/elf.rs:708-728 | a chain walk goes on forever if and only if it has not ended after as many links as there are symbols |
| ElfSymbols.FindExact | src/elf.rs:693-730 | in every table in bounds the walk finds what scanning the table finds, for every name, if and only if every chain ends and the first definition of each name has the value of the first one on its bucket's chain |
| ElfSymbols.HashedExact | src/elf.rs:661-730 | the same of an image: when hashed lookup equals linear lookup on every name |
| ElfSymbols.PlacedIndexes | src/elf.rs:661-730 | symbols on the chains of their own names, each name defined once, are such an index |
| ElfSymbols.PlacedAgrees | src/elf.rs:661-730 | on an image laid out so, with chains that end or lead to earlier symbols, the two lookups are equal on every name |
| ElfHash.LeadingZero | src/elf.rs:768-777 | a zero byte in front of a name does not change its hash |
| ElfSymbols.NoFallback | src/elf.rs:679-730 | an image with a defined symbol that the linear lookup finds and the hashed one does not |
| ElfRelocation.ApplyRela | src/elf.rs:398-434 | type by type, with S, A and B as in the psABI: 8 stores B + A, 1 stores S + A, 6 and 7 store S, 0 nothing; other types, unresolved symbols and places out of bounds are errors and change nothing |
| ElfRelocation.ApplyPieRelocations | src/elf.rs:450-498 | the loop that reads its table from the image it patches computes the loop function; without a table, or with entries under 24 bytes, nothing changes |
| ElfRelocation.RelocationExact | src/elf.rs:450-498 | where the places named lie in bounds, off each other and off the table: for every entry of type 8 the eight bytes at its offset field hold base plus its addend field, every other byte is unchanged, and the count is the number of such entries |
| ElfRelocation.RelocationIdempotent | src/elf.rs:450-498 | relocating the result again gives the same image and count |
| ElfRelocation.SeesExact | src/elf.rs:476-496 | the loop sees each entry as it was before any patching if and only if no slot disturbs an entry after its own |
| ElfRelocation.PatchAsRead | src/elf.rs:476-496 | then patching while reading gives what reading the whole table first gives, however slots overlap, up to the first one out of bounds |
| ElfRelocation.OverlapHarmless | src/elf.rs:450-498 | in particular with slots off the table that overlap each other |
| Futex.WaitQueues.CheckAndPark | src/futex.rs:47-67 | the locked check and push park exactly when the address is not null and the word is as expected, and say which of the two failed |
| Futex.WaitQueues.StillParked | src/futex.rs:76-80 | the poll says whether the pid is on the queue |
| Futex.WaitQueues.TimeOut | src/futex.rs:86-90 | the timeout arm removes every occurrence of the pid from that queue only |
| Futex.WaitQueues.WakeUp | src/futex.rs:98-111 | wake releases the oldest waiters, `nr` of them or all there are, and drops an empty queue |
| FutexRuns.Conservation | src/futex.rs:47-122 | over every interleaving, pids pushed are those drained, timed out or parked, and drains come in push order |
| FutexRuns.Reachable | src/futex.rs:47-122 | over every interleaving of tasks with distinct pids, a pid is queued exactly once while its task waits unreleased on that address, and otherwise not at all |
| FutexRuns.EnterExact | src/futex.rs:47-67 | a call parks, finds the word changed or refuses the address, exactly as these are |
| FutexRuns.PollExact | src/futex.rs:76-80 | a poll returns Ok if and only if a wake released the waiter since it parked |
| FutexRuns.NoLostWakeUp | src/futex.rs:47-122 | once the word stays away from `e`, a wake as large as the queue leaves nobody who expected `e` waiting, whatever ran before and after |
| FutexRuns.OkExact | src/futex.rs:58-65 | in all runs Ok means woken, if and only if no two tasks share a pid |
| FutexRuns.TimeoutExact | src/futex.rs:82-91 | in all runs a released waiter never reports a timeout, if and only if its timeout is zero |
| FutexRuns.NoEarlyTimeout | src/futex.rs:69-91 | over every interleaving a wait that reports a timeout has lasted that many ticks |
| FutexRuns.DeadlineExact | src/futex.rs:82-91 | over every interleaving a check gives up if and only if the timeout has passed since the clock was first read |
| Smp.RunQueues.Enqueue | src/smp.rs:180-184 | the pid joins the back of that queue and no other changes |
| Smp.RunQueues.DequeueOn | src/smp.rs:187-192 | the oldest pid, or none for an empty queue or a CPU out of range |
| Smp.RunQueues.TotalRunnable | src/smp.rs:248-256 | the number of pids queued on CPUs that are alive |
| Smp.RunQueues.LeastLoadedCpu | src/smp.rs:261-273 | the first least loaded alive CPU, or CPU 0 when there is none |
| Smp.RunQueues.EnqueueBalanced | src/smp.rs:278-284 | the pid joins that queue, and no load gap between alive CPUs grows beyond one or what it was |
| Smp.RunQueues.StealFromPeer | src/smp.rs:295-308 | steals from the first most loaded other CPU with two or more, which keeps at least one; none exactly when there is no such CPU |
| Smp.RunQueues.Drain | src/smp.rs:203-208 | empties one queue and returns it in order |
| SmpRuns.QueuesFifo | src/smp.rs:180-209 | over every interleaving each queue is first in, first out, and its cached length is its length whenever its lock is free |
| SmpRuns.LengthExact | src/smp.rs:176-198 | over every interleaving the cached length exceeds the queue if and only if a pop or drain is between its change and its store |
| SmpRuns.LengthTooLarge | src/smp.rs:176-192 | a run in which it does |
| SmpRuns.RegionIsCall | src/smp.rs:180-209 | the steps of a call that is not interrupted leave queue and length as the sequential operation does |
| SmpRuns.RoutingIsCall | src/smp.rs:261-284 | a scan that is not interrupted routes to the first least loaded alive CPU, or to CPU 0 when there is none |
| SmpRuns.StealingIsCall | src/smp.rs:295-308 | one that steals goes for the first most loaded other CPU with two pids or more, and gives up exactly when there is none |
| SmpRuns.StealExact | src/smp.rs:290-308 | over every interleaving a thief about to take a lock saw two pids or more there, and empties its victim if and only if the pids that left between look and lock are those that came and one less than it saw |
| SmpRuns.StealEmpties | src/smp.rs:290-308 | a run in which it does |
| SmpRuns.Conservation | src/smp.rs:180-308 | over every interleaving with stale loads, each pid was handed in as often as it is held by a caller, queued, or taken out |
| Seccomp.LoadNumber | src/seccomp.rs:104-119 | the word at offset 0 of the filter data is the system call number |
| Seccomp.LoadFields | src/seccomp.rs:92-119 | the other words are the architecture and the halves of the instruction pointer and of each argument |
| Seccomp.RunVm | src/seccomp.rs:153-251 | the machine loop computes the run of the step function, which the rows below pin code by code |
| Seccomp.EvaluateExact | src/seccomp.rs:153-251 | a filter answers `v` if and only if a return among its first 4096 instructions does, or `v` is to kill and it runs off its end or is not done by then |
| Seccomp.LoadCodes | src/seccomp.rs:162-190 | what each load does, by its literal code |
| Seccomp.StoreCodes | src/seccomp.rs:191-245 | the same for stores and for the two transfers |
| Seccomp.ArithmeticCodes | src/seccomp.rs:199-215 | addition, subtraction, multiplication and negation modulo 2^32 |
| Seccomp.DivisionCodes | src/seccomp.rs:199-215 | quotient and remainder; a zero divisor kills |
| Seccomp.ShiftCodes | src/seccomp.rs:199-215 | shifts multiply and divide by a power of two, with the distance modulo 32 |
| Seccomp.BitCodes | src/seccomp.rs:199-215 | or, and, exclusive or, digit by binary digit |
| Seccomp.JumpCodes | src/seccomp.rs:216-233 | which comparison each jump makes, and where it goes |
| Seccomp.OtherCodes | src/seccomp.rs:153-251 | every other code kills |
| Seccomp.RangeExact | src/seccomp.rs:153-251 | a five-instruction filter allows exactly the calls from `lo` to `hi` |
| Seccomp.PcIncreases | src/seccomp.rs:153-251 | every instruction that goes on moves the program counter forward |
| Seccomp.CapExact | src/seccomp.rs:153-251 | the cap changes no result on programs of `n` instructions if and only if `n` is at most 4096 |
| Seccomp.ReturnExact | src/seccomp.rs:234-237 | a return answers the index register or its constant, never the accumulator |
| Seccomp.ReturnAIgnoresA | src/seccomp.rs:234-237 | the instruction documented to return the accumulator returns its constant |
| Seccomp.PanicExact | src/seccomp.rs:104-251 | a run panics if and only if one of its first 4096 instructions is an absolute load whose end leaves 32 bits |
| Seccomp.BuildAllowlist | src/seccomp.rs:348-362 | the loop emits one load, two instructions a call, and a default |
| Seccomp.AllowlistRuns | src/seccomp.rs:348-362 | running the compiled list, steps included, is searching the list |
| Seccomp.AllowlistExact | src/seccomp.rs:348-362 | the compiled list answers allow for members and the default for others if and only if the search ends within the cap or the default is to kill |
| Seccomp.AllowlistCorrect | src/seccomp.rs:348-362 | up to 4094 calls it always does, in `i + 3` steps for a match at `i` |
| Seccomp.FilterTable.Install | src/seccomp.rs:274-290 | replaces or adds a pid's filter, touches no other, and fails only when the table is full |
| Seccomp.FilterTable.Remove | src/seccomp.rs:296-300 | removes a pid's filter and no other |
| Seccomp.CheckAllowlist | src/seccomp.rs:321-342 | a call checked under an installed allow-list is allowed or gets the default's action, if and only if the search ends within the cap or both are to kill |
| Seccomp.DecideExact | src/seccomp.rs:332-341 | which answers mean an error number, log, trap, kill, and, all others, allow |
| Seccomp.OffTheList | src/seccomp.rs:321-342 | a call off a list of at most 4094 gets the decision its default asks for, in particular `Errno(e)` for `0x50000 + e` |
| FrameAllocator.BitmapFrameAllocator.constructor | src/memory.rs:133-168 | a frame is free if and only if it is below the bitmap's end and all its bytes lie in one usable region; the total counts it once for each region it lies in |
| FrameAllocator.CountExact | src/memory.rs:136-161 | the count of usable frames is their number if and only if no two regions share one |
| FrameAllocator.CountListings | src/memory.rs:136-161 | the count is the number of pairs of a usable region and a frame in it |
| FrameAllocator.OverlapCounted | src/memory.rs:136-161 | a region listed twice is counted twice |
| FrameAllocator.BitmapFrameAllocator.FindFreeFrame | src/memory.rs:173-213 | whatever the hint, none is found only when none is free; else the first from the hint's byte on, wrapping |
| FrameAllocator.BitmapFrameAllocator.AllocateFrame | src/memory.rs:246-258 | fails exactly when no frame is free, else takes the first one from the hint's byte on, wrapping, out of the free set |
| FrameAllocator.BitmapFrameAllocator.DeallocateFrame | src/memory.rs:232-242 | puts any frame back into the free set, ignoring addresses beyond the bitmap; the counters stay right if and only if it was an allocated one |
| FrameAllocator.BitmapFrameAllocator.AllocateContiguousFrames | src/memory.rs:317-340 | takes the lowest run of `n` free frames, or none if and only if there is none |
| FrameAllocator.BitmapFrameAllocator.DeallocDmaContig | src/memory.rs:414-424 | puts the whole region back, or panics beyond the bitmap; the counters stay right if and only if all of it was allocated |
| FrameAllocator.BitmapFrameAllocator.MemoryStats | src/memory.rs:262-266 | allocated plus free is total, and the free figure is the number of free frames and what the total exceeds the usable ones by |
| FrameAllocator.TakeRun | src/memory.rs:317-340 | setting a clear run keeps the counters and the free set in step |
| FrameAllocator.GiveRun | src/memory.rs:414-424 | so does clearing an allocated run |
| FrameAllocator.GiveExact | src/memory.rs:232-242 | clearing any run does if and only if all its frames were allocated |
| FrameAllocator.PagesLeast | src/memory.rs:415 | the pages of a region are the fewest that hold it |
| Bitmap.LowestIsFirst | src/vmalloc.rs:90-104 | the lowest clear run is the first fit |
| Vmalloc.FindRun | src/vmalloc.rs:90-104 | the scan returns the lowest first fit, or none if and only if there is none |
| Vmalloc.Allocator.Vmalloc | src/vmalloc.rs:127-161 | reserves the first fit, or on any failure leaves bitmap, table, counter and mappings as they were and says why |
| Vmalloc.Allocator.Vfree | src/vmalloc.rs:164-181 | frees exactly a live allocation, else an error and no change |
| Vmalloc.Allocator.MapPages | src/vmalloc.rs:140-152 | maps all pages, or unmaps those it mapped and reports the first failure |
| Vmalloc.Allocator.Stats | src/vmalloc.rs:225-231 | the used figure is the size of the set pages |
| Vmalloc.ReserveCoherent | src/vmalloc.rs:127-161 | allocating keeps the set bits equal to the disjoint union of the table's ranges and the counter equal to their size |
| Vmalloc.ReleaseCoherent | src/vmalloc.rs:164-181 | freeing keeps it too |
| Vmalloc.ReleaseUndoes | src/vmalloc.rs:127-181 | freeing a fresh allocation gives the whole state back |
| Vmalloc.UsedIsTotal | src/vmalloc.rs:154-155 | the table's lengths add up to the counter |
| Slab.StrideRounds | src/slab.rs:130-144 | the masked stride is the least multiple of the rounded alignment that holds an object and a list node |
| Slab.AlignRounds | src/slab.rs:130-144 | the alignment is the least power of two that serves object and node, and a slab holds the objects asked for, or one |
| Slab.MaskRounds | src/slab.rs:133 | masking with the complement of a power of two less one takes off the remainder |
| Slab.SlotsApart | src/slab.rs:54-61 | different slots of all slabs are aligned and do not overlap |
| Slab.TakeSound | src/slab.rs:167-185 | taking the head keeps free and live slots a partition of all slots, with per-slab counts right |
| Slab.PutSound | src/slab.rs:187-201 | putting an object back keeps it |
| Slab.GrowSound | src/slab.rs:147-165 | a new slab keeps it |
| Slab.SlabCache.Grow | src/slab.rs:147-165 | threads the new slots before the list, last one first, or fails and changes nothing |
| Slab.SlabCache.Alloc | src/slab.rs:167-185 | an aligned slot that overlaps no live object; none only when the list is empty and no memory is given |
| Slab.SlabCache.Free | src/slab.rs:187-201 | the object becomes the head of the list |
| Slab.SlabCache.WriteObject | src/slab.rs:24-28 | an owner may overwrite its object, link word included, without harm to the list |
| Slab.SlabCache.Stats | src/slab.rs:203-217 | used and free figures are the live objects and the list, and used is allocs less frees |
| Block.Covers | src/block.rs:169-175 | the rounded block count covers the request and one fewer would not |
| Block.NvmeDev.Read | src/block.rs:160-184 | the buffer gets what the block transfer gives, the rest of it and the counters as stated; too short a buffer and other errors change nothing |
| Block.NvmeDev.Write | src/block.rs:185-210 | the disk becomes what read, splice and write back give; a command that breaks off leaves anything in the blocks moved and nothing elsewhere |
| Block.ReadExact | src/block.rs:164-180 | with a block count that fits, and a device that follows the two page pointers to the end, a read returns exactly the addressed sectors |
| Block.WriteExact | src/block.rs:189-206 | with a block count that fits, and such a device, a write changes the addressed sectors and no other byte |
| Block.ReadBack | src/block.rs:160-210 | what was written is read back, and disjoint reads are unaffected |
| Block.ReadsExact | src/block.rs:174-177 | successful reads are true on all disks if and only if the block count fits 16 bits or is cut to zero |
| Block.WritesExact | src/block.rs:199-205 | the same for writes |
| Sha256Rounds.CompressBlock | src/sha256.rs:88-135 | the schedule and round loops give a chaining value that meets the equations of section 6.2.2 of FIPS 180-4 |
| Sha256Rounds.CompressExact | src/sha256.rs:88-135 | a chaining value is theirs if and only if sequences of the first and of the fifth register exist that meet the two recurrences, on numbers modulo 2^32, and end in it |
| Sha256Rounds.ChoiceBits | src/sha256.rs:35-36 | the choice and majority functions, bit by bit |
| Sha256Rounds.SigmaBits | src/sha256.rs:37-40 | each bit of the four sigma functions is the parity of three bits of the argument |
| Words.RotateIs | src/sha256.rs:34-40 | rotations and shifts as divisions by a power of two |
| Sha256Constants.RoundConstantsExact | src/sha256.rs:11-25 | round constant `t` is the first 32 bits of the fraction of the cube root of the prime with `t` primes below it |
| Sha256Constants.InitialHashExact | src/sha256.rs:27-32 | initial register `i` is the same of the square root |
| Sha256.Sha256.Update | src/sha256.rs:55-86 | absorbs its bytes, however the buffer stands, and leaves less than a block buffered |
| Sha256.Sha256.Finalize | src/sha256.rs:137-166 | gives the digest of everything absorbed, in both padding cases |
| Sha256.TailIsPadding | src/sha256.rs:137-160 | the one or two tail blocks complete the padding of section 5.1.1 of FIPS 180-4 |
| Sha256.PaddedExact | src/sha256.rs:137-160 | bytes are the padded message if and only if they are the message, 0x80, zeros to the first block end with room for it, and the length in bits |
| Sha256.OutputIs | src/sha256.rs:161-165 | word `i` of a digest is register `i`, highest byte first |
| Sha256.HashAppend | src/sha256.rs:55-86 | hashing blocks in two parts is hashing them in one |
| Sha256.HashPieces | src/sha256.rs:51-166 | every way of cutting a message into updates gives the digest of the whole |
| Sha256.Hash | src/sha256.rs:170-174 | the one-shot hash is the digest |
| Sha256.PaddingIsMinimal | src/sha256.rs:137-160 | no shorter padding reaches a whole block, and the length field is the length if and only if the message is under 2^61 bytes |
| Crc32.BuildCrcTable | src/partition.rs:267-281 | every entry is eight bit steps of its index |
| Crc32.TableStepIsSerial | src/partition.rs:257-265 | one table step is eight bit-at-a-time steps |
| Crc32.Crc | src/partition.rs:257-265 | the table-driven checksum is the reflected bit-at-a-time one on every byte string |
| Crc32.PolyBits | src/partition.rs:267-281 | the generator's coefficients, reflected, are the constant the table loop uses |
| Crc32.StepsLinear | src/partition.rs:267-281 | bit steps are linear over exclusive or |
| Crc32.RegisterIsRemainder | src/partition.rs:257-265 | the register is congruent to the dividend modulo the generator of clause 3.2.9 of IEEE 802.3 |
| Crc32.RemainderUnique | src/partition.rs:257-265 | it is the only remainder of that degree |
| Crc32.ChecksumExact | src/partition.rs:257-265 | a word is the checksum if and only if its complement is the remainder of the dividend by the generator |
| Crc32.MessageBit | src/partition.rs:257-265 | a message is read lowest bit of each byte first |
| Crc32.BurstDetected | src/partition.rs:257-265 | messages that differ in a burst of at most 32 bits have different checksums |
| GptHeader.VerifyCrc | src/partition.rs:148-156 | a header verifies when its bytes with the checksum field cleared have the stored checksum |
| GptHeader.SizeFieldIs | src/partition.rs:131 | the header size is the little-endian number in bytes 12 to 15 |
| GptHeader.Accept | src/partition.rs:121-156 | parsing a sector and then verifying it against its own fields, which the source leaves to callers |
| GptHeader.TamperExact | src/partition.rs:121-156 | an accepted sector changed in up to four adjacent bytes, in the checksum field or off it and the size field, is accepted if and only if no byte within the header size differs |
| CivilDate.CivilEpoch | coreutils_src/date.c:16-29 | day 0 is 1970-01-01 |
| CivilDate.CivilSuccessor | coreutils_src/date.c:16-29 | for every day number, negative ones too, the date is valid and the next one is its Gregorian successor |
| CivilDate.CivilNumber | coreutils_src/date.c:16-29 | counting days to the date gives the day number back |
| CivilDate.CivilOfNumber | coreutils_src/date.c:16-29 | every valid date is the date of its day number |
| CivilDate.IntExact | coreutils_src/date.c:24-28 | the 32-bit results are right if and only if the day lies in the stated range |
| CivilDate.CommentExact | coreutils_src/date.c:13-15 | the year lies in the range the comment names if and only if the day lies between the starts of two years |
| CivilDate.CommentFails | coreutils_src/date.c:13-15 | a day of the comment's domain whose year does not |
| CivilDate.DateMain | coreutils_src/date.c:31-46 | negative times are refused; else hours, minutes, seconds and the date make up the time |
| Bresenham.Line | src/framebuffer.rs:154-170 | the loop ends in every octant and colours exactly the points of the line that lie on the surface |
| Bresenham.HalfPixel | src/framebuffer.rs:154-170 | every point lies within half a pixel of the ideal line |
| Bresenham.EndPoints | src/framebuffer.rs:154-170 | the first and last points are the given ones |
| Bresenham.EndOnlyLast | src/framebuffer.rs:165 | the loop's exit test holds at the last point and not before |
| Bresenham.Turn | src/framebuffer.rs:166-168 | the error tests step to the nearest next point, moving at least one axis |
| Bresenham.InBox | src/framebuffer.rs:154-170 | no point overshoots the box of the end points |
| Bresenham.NoOverflow | src/framebuffer.rs:155-168 | no intermediate value leaves 32 bits for lengths up to 715827883 |
| Bresenham.OverflowExact | src/framebuffer.rs:155-168 | no segment of a length overflows if and only if the length is at most that |
| Bresenham.MemSurface.PutPixel | src/framebuffer.rs:108-112 | sets that pixel and no other; outside the surface nothing |
| InitManager.InitSystem.StartService | src/init.rs:231-263 | the recursive start computes the start function in the depth of calls it has, on any dependencies |
| InitManager.InitSystem.StopService | src/init.rs:266-278 | stops that service and no other, or reports it missing |
| InitManager.InitSystem.SetRunlevel | src/init.rs:202-228 | both passes, in whatever order, are the two pass functions, on any dependencies; the same level changes nothing |
| InitManager.RankedEnds | src/init.rs:231-263 | with acyclic dependencies a depth of calls suffices, and the result is that of the start function below |
| InitManager.RankedAllEnd | src/init.rs:218-225 | the same for the second pass of a runlevel change |
| InitManager.StartableExact | src/init.rs:231-263 | on any dependencies start succeeds in some depth if and only if what its service needs, short of what runs, exists and is not circular |
| InitManager.StartCounts | src/init.rs:231-263 | on any dependencies, whether it fails or not, start sets services that did not run to running, counts each once more, and changes nothing else |
| InitManager.StartErrors | src/init.rs:231-263 | its error is that the service is not found, or else that a dependency is missing |
| InitReturns.ReturnsExact | src/init.rs:231-263 | on any dependencies start comes back in some depth if and only if its service can be started or its start is bound to fail |
| InitReturns.ErrorExact | src/init.rs:231-263 | it comes back with an error if and only if following the first requirement that neither runs nor can start leads to an unregistered name |
| InitReturns.NotBoth | src/init.rs:231-263 | never both |
| InitManager.CycleStuck | src/init.rs:231-263 | no service that leads round a cycle of services that do not run can be started in any depth |
| InitManager.SelfRequired | src/init.rs:231-263 | a stopped service that requires itself first runs out of any stack |
| Init.StartGrounded | src/init.rs:231-263 | start keeps running services' dependencies running even when it fails, and stops nothing |
| Init.StartWithin | src/init.rs:231-263 | it starts nothing but the service and what it needs |
| Init.StartExact | src/init.rs:231-263 | it succeeds if and only if everything needed exists, and then exactly that runs besides what ran |
| Init.RunlevelExact | src/init.rs:202-228 | exactly the level's services run afterwards if and only if what its stopped services need is what it lacks |
| Init.MonotoneRunlevel | src/init.rs:202-228 | with dependencies inside the level and nothing failed, that is so, and every running service's dependencies run |
| Init.DependencyOutside | src/init.rs:218-225 | a stopped service of the level that requires one outside it spoils the level |
| Init.DisabledDependencyStarts | src/init.rs:218-225 | two services on which that happens |
| Init.FailedNotStarted | src/init.rs:218-225 | a failed service of the level that stays as it is |

## Left out

- Hardware: port, MSR and page-table access, DMA descriptors, interrupt and AP start-up code.
- The shell's commands, editor and printing, and the parser's `pretty` printer.
- ShellJoin.DispatchExact: variables, substitution, redirection, pipes, jobs and globs, which the dispatcher handles around the splitting.
- `ElfLoader::load`, `link`, and GNU-hash table sizing, whose result is a parameter of symbol lookup.
- ElfSymbols.LookupHashed: address sums such as `h + 8` do not wrap at 2^64.
- GptHeader.TamperExact: changes to the size field, and changes across an edge of the checksum field, which the checksum cannot be relied on to notice.
- Futex: marking woken processes ready in the process table; memory order weaker than sequential consistency.
- Smp: weaker memory order than sequential consistency; the CPU table's size of 32 is a parameter.
- FrameAllocator: the bitmap size is a parameter and address arithmetic does not wrap at 2^64.
- Vmalloc: conservation of physical frames (`map_one_page` keeps the frame it took when the page is already mapped or mapping fails, `src/vmalloc.rs:192-200`), unmapping that fails, and moving the base after the first allocation.
- Slab.SlabCache.Free: addresses that are no live object of the cache, which `free` puts on its list like any other (`src/slab.rs:187-201`).
- Slab: giving slabs back; an overflowing slab size counts as the backing allocator failing.
- Block.ReadExact: the driver sets two page pointers only (`src/drivers/nvme.rs:363-364`, `398-399`), and for more than two pages the device would take the second for a list of pointers; such transfers are taken to work, in `ReadBlocks` and `WriteBlocks` and all that is built on them.
- Block.WriteExact: the same, for writes.
- Bresenham.Line: segments on which 32-bit arithmetic overflows; a build panics or wraps there.
- Init: ticks, pids and descriptions; the states between stopping and starting, which no caller sees; `mark_failed` and `restart`.
- File systems, networking, the scheduler, and the smaller tables and decoders of the kernel.
