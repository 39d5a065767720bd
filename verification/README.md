# Verified model of the kernel's stateful components

This project models four components of the kernel and proves properties of the model with the
Dafny verifier (`dafny verify dfyconfig.toml`).

* **Page allocator** (`Words`, `PageBitmap`, `BootMap`, `BootSafety`, `PageAllocator`,
  `PageRuns`). The bitmap of
  32768 words over 2^20 page frames, built from the Multiboot memory map, reserved for the kernel,
  the modules and page 0, and served by first fit with whole-word skipping. Words are `bv32`,
  addresses are unsigned 32-bit integers with explicit wrap-around. The three initialisation loops
  are proved against a closed form. What the closed form means is then proved separately: the exact
  conditions under which the loops end, an entry frees only pages inside its region, and a range is
  reserved whole; composed, over every run: with ranges reserved whole no page handed out touches page
  0, the kernel or a module, whatever the memory map; and each comes from a region of the map and
  is RAM inside it unless that very entry fails its condition. On the map of an ordinary PC that
  leaves one bad page. Inputs that violate each condition are given.
* **Text console** (`Terminal`, `TextLayout`, `Console`). 4000 bytes of video memory written and scrolled in place,
  proved to show an endless roll of 80-column rows through a window of 25 rows. The roll holds the
  cells before the absolute cursor; every cell from the cursor on is blank.
* **Chat** (`Bytes`, `KeyRing`, `Keyboard`, `KeyLayout`, `LineEditor`, `EditLaws`, `ChatModel`, `ChatSpec`,
  `ChatScreen`, `ChatLaws`, `ChatMachine`, `KernelRuns`, `KernelDrains`, `KernelRounds`,
  `KernelTyping`). The scan-code handler, the ring buffer, the two line
  editors, the command dispatcher and the formatter as in-place code; a reference that cuts each
  user's bytes at the Enters and edits the pieces; and a step system that interleaves the main loop,
  instruction by instruction around the ring, with key interrupts and COM1 arrivals.
* **Spinlocks and the two-lock transfer** (`Locks`, `Transfer`, `TransferSafety`, `TransferLiveness`).
  The literal demonstrations as sequential code, and the protocol they stand for as a step system
  with any number of processes, each with its own lock order, interleaved at every XCHG, every copied
  byte and every release.

Conventions. A function-valued step system makes every interleaving a schedule, so "for every
schedule" is "for every run". A command that never returns is represented by `hung`: the busy-wait
is given an arbitrary number of exchanges and is shown to fail for each. The texts the commands
print are a parameter (`Banners`); those of /transferir, which show both files, are an arbitrary
function of the two contents at that moment. The step-by-step functions that the in-place
code is proved against are pinned by laws said without them (`TextLayout`, `KeyLayout`, `EditLaws`,
`ChatLaws`). `hide` statements only keep definitions away from the solver.

Where code and comments disagree the code is followed: the comment about 4 KiB alignment of the
memory regions (src/memory.c:54) promises a rounding that the loop does not do, and the 64-bit high
words of a memory-map entry are ignored. `BootMap.FreesOnlyRamExactly` says exactly when every page
freed for one entry lies inside that entry's own region. For a whole map the condition on every entry
is enough for freeing only RAM, and it is exact when the regions do not share pages
(`BootSafety.MapFreesOnlyRamExactly`; regions that abut inside a page are the difference). Ordinary
inputs fail it: the low-memory entry of a PC and RAM above 4 GiB. The converse, that no RAM is lost,
fails for a region whose 32-bit end wraps; `BootMap.FreesAllRamExactly` is its exact condition.

What the allocator asks of its caller, because the code does not check it: `Bootable` (each loop
reaches its bound before the 32-bit address wraps, and the entries tile the map), and that clients
release only pages they hold. For the pages to be clear of
the kernel and the modules, `BootSafety.RangesReservedWhole` is sufficient (page-aligned starts meet
it); for them to be RAM as well, `FreesOnlyInside` of the entries is.

## Model

| member | source | states |
|---|---|---|
| Words.FullWord | src/memory.c:100-101 | a bitmap word equals 0xFFFFFFFF if and only if all its 32 bits are set, so the whole-word skip is exact |
| PageBitmap.FreeAfterMark | src/memory.c:18-20 | setting a bit removes exactly that page from the free set, across all 2^20 pages |
| PageBitmap.FreeAfterClear | src/memory.c:22-24 | clearing a bit adds exactly that page to the free set |
| PageBitmap.MarkAndClearUndo | src/memory.c:18-24 | clear undoes set on a free page and set undoes clear on a used one, word for word |
| PageBitmap.BitLayout | src/memory.c:18-28 | page p is used exactly when binary digit p % 32, from the lowest, of word p / 32 is one |
| PageBitmap.ScanIsLeast | src/memory.c:95-116 | the bit-by-bit reference scan returns the least free page, and the end of the bitmap exactly when none is free |
| BootMap.RegionLoopEndsExactly | src/memory.c:51-57 | the region loop ends in 32-bit arithmetic if and only if its end wraps or its last stride does not |
| BootMap.RegionLoopCanRunForever | src/memory.c:51-57 | for the region at 0xFFFFF000 of length 0xFFF the loop never reaches its end, however many strides it makes |
| BootMap.RangeLoopEndsExactly | src/memory.c:72-74 | the range loop ends in 32-bit arithmetic if and only if its last stride does not wrap |
| BootMap.RangeLoopCanRunForever | src/memory.c:72-86 | a range from 0xFFFFF000 that ends in the last page, such as a module there, keeps its loop below its end however many strides it makes |
| BootMap.FreesOnlyRamExactly | src/memory.c:48-58 | every page freed for an entry lies wholly inside that entry's 64-bit region if and only if the stated alignment and high-word condition holds |
| BootMap.FreesAllRamExactly | src/memory.c:48-58 | every page below 4 GiB inside an entry's 64-bit region is freed for it if and only if the stated condition on its words holds |
| BootMap.TopOfMemoryIsLost | src/memory.c:51-57 | the region of 1 GiB at 0xC0000000 frees no page although page 0xD0000 lies inside it |
| BootMap.ReservesAllTouchedExactly | src/memory.c:69-87 | a range loop reserves only pages touching the range, and all of them if and only if the start is not further into its page than the end |
| BootMap.AvailableMember | src/memory.c:48-61 | a page is freed exactly when the strides of some type-1 entry visit it |
| BootMap.ModulePagesMember | src/memory.c:77-87 | a page is reserved for modules exactly when the strides of some module visit it |
| BootMap.OrderIndependent | src/memory.c:48-87 | permuting map entries and modules does not change the initial free set |
| BootSafety.FreedByEntry | src/memory.c:48-61 | for every map a freed page was visited for some available entry, and is RAM inside its region unless that entry fails the per-entry condition |
| BootSafety.FreedPageIsRamExactly | src/memory.c:48-61 | for regions that share no page a page freed for an entry is RAM if and only if it lies inside that entry's region |
| BootSafety.MapFreesOnlyRam | src/memory.c:48-61 | when every available entry is aligned and low, every page the map frees is wholly RAM |
| BootSafety.MapFreesOnlyRamExactly | src/memory.c:48-61 | for regions that share no page the map frees only RAM if and only if every available entry meets the per-entry condition |
| BootSafety.InitialFreeExactly | src/memory.c:30-93 | with kernel and module ranges reserved whole the free set is the available pages minus those touching the kernel, those touching a module, and page 0, for every map |
| BootSafety.InitialFreeIsUsable | src/memory.c:30-93 | with the ranges reserved whole every initially free page is clear of page 0, the kernel and the modules, and is inside an available region unless the entry that freed it fails the per-entry condition |
| BootSafety.InitialFreeIsAllUsable | src/memory.c:30-93 | when the entries meet both exact conditions the initially free pages are exactly the pages inside an available region that touch nothing in use |
| BootSafety.OrdinaryMapFreesOneBadPage | src/memory.c:48-61 | on the map of a PC with 128 MiB page 0x9F is the only freed page that is not wholly RAM |
| BootSafety.LowMemoryFreesPartialPage | src/memory.c:51-57 | the PC entry of base 0 and length 0x9FC00 leaves page 0x9F free although its last kilobyte is not RAM |
| BootSafety.HighMemoryFreesVideoMemory | src/memory.c:51-57 | 1 GiB of RAM at 4 GiB leaves page 0xB8, the video memory, free |
| BootSafety.AbuttingRegionsShareAPage | src/memory.c:48-61 | two regions that abut inside a page free it; it is RAM and inside neither of them |
| BootSafety.UnalignedModuleStaysFree | src/memory.c:77-87 | a module from 0x200800 to 0x201400 leaves page 0x201, which it touches, free |
| BootSafety.FlagBits | src/multiboot.h:8-12 | bit 3 of the flags announces modules and bit 6 the memory map |
| BootSafety.FlagsDecide | src/memory.c:40-87 | with bit 3 a module's page stays reserved and without it the same page is free; without bit 6 no page is; the kernel's pages are those 3 GiB below its addresses |
| PageAllocator.Allocator.BitmapSet | src/memory.c:18-20 | the bitmap afterwards is the old one with exactly that bit set |
| PageAllocator.Allocator.BitmapClear | src/memory.c:22-24 | the bitmap afterwards is the old one with exactly that bit cleared |
| PageAllocator.Allocator.BitmapTest | src/memory.c:26-28 | the test is true exactly for used pages |
| PageAllocator.Allocator.ClearRegion | src/memory.c:50-58 | the free set grows by exactly the pages the wrapped 32-bit strides visit |
| PageAllocator.Allocator.ReserveRange | src/memory.c:72-74 | the free set shrinks by exactly the pages the strides of the closed range visit |
| PageAllocator.Allocator.ClearAvailable | src/memory.c:44-61 | walking the map by entry sizes frees exactly what the type-1 entries make available |
| PageAllocator.Allocator.ReserveModules | src/memory.c:77-87 | exactly the module pages leave the free set |
| PageAllocator.Allocator.Initialize | src/memory.c:30-93 | whatever the bitmap held, the free set is available pages minus kernel, modules and page 0 |
| PageAllocator.Allocator.AllocPage | src/memory.c:95-116 | word skipping returns the address, and leaves the bitmap, of the bit-by-bit first-fit scan |
| PageAllocator.Allocator.FreePage | src/memory.c:118-121 | exactly the bit of the page containing the address is cleared |
| PageAllocator.OtherWordHasFree | src/memory.c:101-109 | a word that is not skipped has a free page, so the inner scan never falls through |
| PageAllocator.AllocTakesLeast | src/memory.c:95-116 | allocation takes the least free page, changes no other page, and returns 0 if and only if no page is free or page 0 is |
| PageAllocator.AllocThenFree | src/memory.c:95-121 | releasing an allocated page restores every word and the next allocation returns the same address |
| PageAllocator.FreeThenAlloc | src/memory.c:95-121 | release followed by allocation restores every word if and only if no lower page is free |
| PageRuns.RunsConservePages | src/memory.c:95-121 | over every disciplined run live addresses are aligned, distinct and never 0, and free plus live is the initial free set |
| PageRuns.RunsNeverHandOutReserved | src/memory.c:66-121 | no run after initialisation hands out page 0, a page that the strides over the kernel or a module visited, or a page already held |
| PageRuns.RunsStayInRegions | src/memory.c:30-121 | on every boot each page any run hands out was freed for an available entry, and is RAM inside its region unless that entry fails the per-entry condition |
| PageRuns.RunsStayClear | src/memory.c:30-121 | whatever the memory map, with ranges reserved whole no run hands out a page that touches page 0, the kernel or a module, nor one page twice |
| PageRuns.RunsHandOutUsablePages | src/memory.c:30-121 | corollary of the two for maps whose available entries all meet the per-entry condition: every page handed out is also wholly inside an available region |
| PageRuns.OrdinaryRunsExposeOnePage | src/memory.c:30-121 | on the map of a PC with 128 MiB every page any run hands out is clear, and wholly RAM unless it is page 0x9F |
| Terminal.PutMovesByOneRow | src/framebuffer.c:83-93 | a character scrolls by at most one row, exactly when the cursor reaches 2000, and then the cursor is 1920 |
| Terminal.WriteKeepsTopForced | src/framebuffer.c:78-95 | over any writes the number of scrolls is a function of the absolute cursor |
| Terminal.SlideIsShift | src/framebuffer.c:57-73 | moving the window down one row is shifting the 2000 cells by 80 and blanking the last row |
| Terminal.PutShows | src/framebuffer.c:83-93 | one character changes at most one cell of the window before the window slides |
| Terminal.EraseShows | src/framebuffer.c:106-114 | taking a cell back blanks exactly the cell before the cursor |
| Terminal.EraseAtOrigin | src/framebuffer.c:106-110 | a backspace changes nothing exactly at screen position 0 |
| Terminal.WriteConcat | src/framebuffer.c:78-97 | writing two strings in turn is writing their concatenation |
| TextLayout.WriteOne | src/framebuffer.c:78-95 | writing a text of one character is that character, for every byte and every attribute |
| TextLayout.WriteLaysOut | src/framebuffer.c:78-95 | every character of a text other than a newline stands where the cursor has come by then, a newline goes to the next multiple of 80, everything else passed is blank |
| TextLayout.WriteSpells | src/framebuffer.c:78-95 | a text without a newline extends the roll by its characters in its colours |
| TextLayout.AttributeNibbles | src/framebuffer.c:37-41 | the low four bits of an attribute are the foreground and the high four the background |
| Console.Screen.SetCharacter | src/framebuffer.c:37-41 | exactly the addressed cell changes, to the character and the packed colours |
| Console.Screen.Clear | src/framebuffer.c:46-52 | all 2000 cells are blank and the cursor is 0: the empty roll |
| Console.Screen.Scroll | src/framebuffer.c:57-73 | in place, the cells move up by 80, the last row is blank and the cursor is 1920 |
| Console.Screen.PutCharacter | src/framebuffer.c:83-93 | the screen shows the roll extended by that character |
| Console.Screen.WriteColored | src/framebuffer.c:78-97 | the screen shows the roll extended by the string |
| Console.Screen.Backspace | src/framebuffer.c:106-114 | the screen shows the roll with its last cell taken back, or unchanged at screen position 0 |
| Console.WriteAll | src/framebuffer.c:46-97 | after a clear and any coloured writes the cells are rows k to k+24 of the never-scrolled roll and the absolute cursor is position + 80k |
| KeyRing.OfferIsAccept | src/chat.c:105-112 | at most 255 bytes wait and a byte is appended unless exactly 255 wait, for every position of the two indices |
| KeyRing.AdvanceIsTail | src/chat.c:119-124 | the ring is empty exactly when the indices meet, and the head slot is the oldest byte |
| KeyRing.AcceptAllIsPrefix | src/chat.c:105-112 | a burst is accepted up to the free room, in order, and cut there |
| KeyRing.Ring.Enqueue | src/chat.c:105-112 | the waiting bytes gain the new byte at the end, or stay when 255 wait |
| KeyRing.Ring.Pop | src/chat.c:114-128 | the oldest waiting byte is taken, or failure is reported and nothing changes |
| Keyboard.TranslateTypable | src/keyboard.c:27-44 | every translated byte is backspace, newline or printable ASCII |
| KeyLayout.KeyboardRows | src/keyboard.c:27-44 | the keys of each engraved row, in order, give the bytes engraved on them |
| KeyLayout.KeysBesideRows | src/keyboard.c:27-44 | backspace, Enter, keypad asterisk and the space bar give 8, 10, 42 and 32 |
| KeyLayout.OnlyMappedKeysGiveBytes | src/keyboard.c:71-91 | break codes and all other make codes give no byte |
| KeyLayout.RowTypesText | src/keyboard.c:65-92 | pressing the keys of a row from left to right types its text |
| KeyLayout.KeyHasItsCode | src/keyboard.c:27-44 | looking up the byte of a mapped code on the engraved rows gives the code back |
| KeyLayout.KeysDiffer | src/keyboard.c:27-44 | two different scan codes never give the same byte |
| KeyLayout.KeystrokesGiveText | src/keyboard.c:65-92 | pressing and releasing the keys of any text that can be typed gives exactly that text |
| Keyboard.KeyboardHandler | src/keyboard.c:65-92 | one interrupt empties the controller and appends the first 255 - pending translated bytes, in order |
| Locks.SpinLock.AtomicXchg | src/deadlock.c:25-35 | returns the old word and stores the new one |
| Locks.SpinLock.Lock | src/deadlock.c:41-46 | for every number of exchanges it succeeds exactly if the word was 0, and leaves the word 1 |
| Locks.SpinLock.Unlock | src/deadlock.c:51-55 | the word is 0 |
| Locks.StrCopy | src/deadlock.c:58-66 | the buffer holds the string cut to its room, terminated, with the bytes behind it unchanged; it equals the rounds the step system takes |
| Locks.FileStore.constructor | src/deadlock.c:77-88 | both locks are free and the files hold their initial names |
| Locks.FileStore.DemoUnsafe | src/deadlock.c:93-157 | for every bound on the waiting it does not return, both words stay 1, no file changes, and the locks are taken, seized and waited for in the code's order |
| Locks.FileStore.DemoSafe | src/deadlock.c:162-225 | it returns with the two contents exchanged and both locks free, having taken lock_vga then lock_serial, written both files and released in reverse order |
| Locks.SafeTraceIsGuarded | src/deadlock.c:159-225 | in that sequence files are written only while both locks are held, and lock_serial is taken and released only under lock_vga |
| Transfer.StepKeepsInvariant | src/deadlock.c:25-66 | every XCHG, byte copy and release of any process keeps lock ownership and the exchange in progress consistent |
| Transfer.RunKeepsInvariant | src/deadlock.c:175-220 | the invariant holds after every schedule |
| TransferSafety.MutualExclusion | src/deadlock.c:25-55 | in every reachable state a word is 1 exactly when one process holds that lock, and at most one process is exchanging |
| TransferSafety.TransfersLinearize | src/deadlock.c:180-220 | whenever both locks are free the contents are the original pair or the swapped one, by the parity of completed exchanges |
| TransferSafety.MovesExactly | src/deadlock.c:41-46 | a step changes the state exactly when it is not a failed XCHG |
| TransferSafety.StuckIsCircularWait | src/deadlock.c:90-153 | a reachable state is stuck if and only if two processes hold one lock each and seek the other's |
| TransferSafety.StuckForever | src/deadlock.c:150-153 | a stuck state is the state after every further schedule of any length |
| TransferSafety.DeadlockNeedsBothOrders | src/deadlock.h:4-9 | some schedule gets stuck if and only if both lock orders occur among the working processes |
| TransferSafety.UnorderedGetsStuck | src/deadlock.c:104-153 | the two-step schedule of the demonstration reaches a stuck state |
| TransferSafety.HierarchyHolds | src/deadlock.c:175-220 | when every process takes lock_vga first, in every reachable state lock_serial is taken only while lock_vga is |
| TransferSafety.ExchangeLosesNothing | src/deadlock.c:212-216 | during an exchange each content being overwritten is held by another buffer, in the order of the three copies |
| TransferLiveness.StepLowersWork | src/deadlock.c:180-220 | every step is a failed XCHG that changes nothing or lowers the remaining work, and completed plus owed exchanges are constant |
| TransferLiveness.OneOrderIsDeadlockFree | src/deadlock.h:4-9 | the condition of FairRunsComplete, one order among the processes with work, holds if and only if no schedule gets stuck |
| TransferLiveness.FairRunsComplete | src/deadlock.c:159-225 | with one lock order among the processes with work every fair schedule of 200 rounds per transfer finishes, both locks free, as many exchanges made as the processes asked for in sum, contents by the parity of that sum |
| LineEditor.SplitIsFaithful | src/chat.c:130-206 | the reference really cuts the stream: gluing pieces, Enters and rest gives it back |
| LineEditor.NoEnterInside | src/chat.c:132-171 | no piece and no rest contains that user's Enter |
| LineEditor.LinesGrow | src/chat.c:130-206 | one more byte completes the open line if it is an Enter and edits it otherwise |
| EditLaws.TextJoinsLine | src/chat.c:150-206 | a printable text joins a line as it is while the line stays within 120 bytes, for both users |
| EditLaws.EraseTakesLast | src/chat.c:141-188 | one erase byte takes exactly the last byte of a line, and nothing from an empty one |
| EditLaws.OtherBytesAreIgnored | src/chat.c:150-194 | control bytes, and any byte for a line of 120, leave the line alone |
| EditLaws.ErasesUndoText | src/chat.c:141-206 | n erases after a typed text leave the line without the last n bytes of the text |
| EditLaws.TypedLineCompletes | src/chat.c:132-181 | a printable text and Enter complete exactly that line, for newline and, on COM1, carriage return |
| EditLaws.TypedLineIsMessage | src/chat.c:45-90 | and it is a message unless it is empty or one of the three command texts |
| ChatModel.NeverTruncated | src/chat.c:19-39 | with a line of at most 120 bytes the 136-byte buffer holds the whole message and its terminator |
| ChatModel.CompleteEffect | src/chat.c:45-90 | a completed line posts, swaps, hangs or does nothing by exactly its text, and leaves the other user's line alone |
| ChatModel.FullMessageIs | src/chat.c:19-39 | the message of a line is "[vga] " or "[serial] " by its user, the line and a newline |
| ChatLaws.AnnounceConcat | src/deadlock.c:93-225 | the texts of a command come out one after the other |
| ChatLaws.AnnounceOne | src/deadlock.c:93-225 | each text on its own device, on the screen in its colours |
| ChatLaws.PrintableJoinsLine | src/chat.c:150-206 | a printable byte joins its user's line and is echoed to that user alone, in white on black or as the same byte on COM1 |
| ChatLaws.RuboutTakesLast | src/chat.c:141-188 | an erase takes the last byte of its user's line, on the keyboard also the cell before the cursor, on COM1 without output |
| ChatLaws.OtherByteIsIgnored | src/chat.c:150-194 | any other control byte, and a printable byte for a full line, changes nothing at all |
| ChatLaws.EmptyEnter | src/chat.c:45-50 | Enter on an empty line posts and prints nothing; COM1 still echoes the line end |
| ChatLaws.MessageEnter | src/chat.c:41-58 | a completed message is posted under its user and goes, labelled with that user, in light green to the screen and to COM1 |
| ChatLaws.HelpEnter | src/chat.c:83-87 | /help prints its own texts and does nothing else |
| ChatLaws.TransferirEnter | src/chat.c:79-82 | /transferir prints its texts with the contents before the exchange and exchanges them |
| ChatLaws.DeadlockEnter | src/chat.c:75-78 | /deadlock prints its texts and hangs the machine |
| ChatLaws.WireEchoesLine | src/chat.c:183-206 | until an Enter COM1 output only grows, and without erases by exactly the COM1 user's line |
| ChatSpec.EditingMeetsSpec | src/chat.c:130-206 | for every interleaving the posted messages and open lines are those of the reference, and the machine hangs if and only if somebody completes /deadlock |
| ChatSpec.PostedUpToHang | src/chat.c:73-78 | in all cases what was posted is what the reference says of the bytes up to the hang |
| ChatSpec.UsersDoNotInterfere | src/chat.c:130-206 | without /deadlock a user's messages and line depend only on that user's bytes |
| ChatSpec.DeadlockSilences | src/chat.c:75-78 | after a completed /deadlock no byte of anybody has any effect |
| ChatSpec.FilesByParity | src/chat.c:79-82 | the two files are swapped exactly when an odd number of /transferir lines was completed |
| ChatScreen.RunsStayOnScreen | src/chat.c:141-164 | over every run lines fit, the cursor stays in the window with the keyboard line behind it, and every editor erase takes back the one cell before the cursor, its own echo or not |
| ChatScreen.RunsNeverTruncate | src/chat.c:19-58 | in every reachable state formatting yields the full message |
| ChatScreen.MessageReachesBoth | src/chat.c:41-58 | a completed message reaches screen and COM1 as the same unbroken text: label, line and newline |
| ChatScreen.RollSpellsLine | src/chat.c:141-164 | until somebody presses Enter the roll grows by exactly the keyboard line, white on black |
| ChatScreen.ScreenSpellsLine | src/chat.c:141-164 | the cells just before the cursor spell the keyboard line, through wraps and scrolls |
| ChatScreen.ScreenSpellsFreshLine | src/chat.c:130-206 | in every run, with any other output in between, the cells before the cursor spell the end of the keyboard line typed since that output |
| ChatScreen.EraseTakesOwnEcho | src/chat.c:141-148 | in every run each character of the keyboard line still has its echo on the roll, and an erase takes its own character's echo if and only if something was typed since the last other output; otherwise the echo stays |
| ChatScreen.ErasedCharacterStays | src/chat.c:141-148 | typing a, a message of the other user, then backspace: the line is empty and the a is still on the roll |
| ChatScreen.TypeThenErase | src/chat.c:141-164 | typing and erasing restores line, cursor and canvas, and the window too if and only if the screen did not scroll |
| ChatMachine.Uart.Print | src/serial.c:60-66 | the bytes sent grow by exactly the string |
| ChatMachine.StrEqual | src/chat.c:61-70 | the loop decides equality of the two strings |
| ChatMachine.AppendFormatted | src/chat.c:19-39 | the buffer holds the first size - 1 bytes of "[user] msg" and a newline, terminated |
| ChatMachine.ChatKernel.constructor | src/chat.c:92-103 | empty editors, free locks, initial files, screen as it was |
| ChatMachine.ChatKernel.Submit | src/chat.c:45-58 | an empty line does nothing; otherwise screen, COM1 and the log gain the same message |
| ChatMachine.ChatKernel.TryCommand | src/chat.c:73-90 | reports exactly the three command lines and has their effect, including the hang and the contents /transferir prints before it exchanges them |
| ChatMachine.ChatKernel.KbdProcessChar | src/chat.c:130-165 | the whole state afterwards is that of the byte-level model |
| ChatMachine.ChatKernel.SerProcessChar | src/chat.c:167-206 | the whole state afterwards is that of the byte-level model |
| ChatMachine.Poll | src/chat.c:208-219 | one round processes every waiting key byte, then every COM1 byte, once and in order, unless it hangs |
| KernelRuns.FifoUnderInterrupts | src/chat.c:105-128 | in every interleaving processed, in-hand and waiting bytes are exactly the accepted bytes in order, at most 255 waiting |
| KernelRuns.LossExactly | src/chat.c:105-112 | in every state a burst is accepted whole if and only if it fits the free room, and a single byte is lost if and only if exactly 255 wait |
| KernelRuns.RunLosesNothingExactly | src/keyboard.c:65-92 | over a whole run the accepted bytes are the translation of all scan codes taken, in order, if and only if no burst exceeds the room it finds |
| KernelRuns.ProcessingCommutes | src/chat.c:130-219 | a key interrupt or COM1 arrival just before the processing of a byte leaves the same state as just after it |
| KernelRuns.IrqAcceptsPrefix | src/keyboard.c:65-92 | in every state an interrupt's burst is accepted up to the free room and cut there |
| KernelRuns.RunsMeetSpec | src/chat.c:114-219 | however interrupts, arrivals and loop actions interleave, posts are those of the reference on the processed bytes, and screen invariants hold |
| KernelRuns.RingAccessIsMasked | src/chat.c:114-128 | in every reachable state an interrupt between the emptiness test and the advance of the head changes nothing, and everywhere else it is taken |
| KernelDrains.MainLoopDrains | src/chat.c:208-219 | from every reachable state at most as many loop actions as its backlog leave nothing waiting, or the machine hangs |
| KernelDrains.EverySchedulePauses | src/chat.c:208-219 | in every schedule that gives the loop enough actions for the backlog and the bytes delivered meanwhile, some moment has nothing waiting, or the machine hangs |
| KernelDrains.EveryScheduleDelivers | src/chat.c:105-219 | end to end in every such schedule: at some moment each user has posted exactly the messages of all bytes delivered by then |
| KernelDrains.EveryByteIsProcessed | src/chat.c:105-219 | without a delivered /deadlock line every user ends with exactly the messages of all bytes delivered for that user |
| KernelDrains.KeystrokesBecomeMessages | src/chat.c:105-219 | end to end: without overrun and without a typed /deadlock line every user ends with exactly the messages and open line of the scan codes taken, or of the bytes that arrived on COM1 |
| KernelRounds.RoundIsPoll | src/chat.c:208-219 | one undisturbed round of the step system has exactly the effect the in-place polling method promises, and ends with nothing waiting unless it hangs |
| KernelTyping.TypedTextIsPosted | src/chat.c:105-165 | who presses the keys of a text and Enter has posted exactly that text, however interrupts split the scan codes |
| KernelTyping.TypedDeadlockHangs | src/chat.c:73-78 | who types /deadlock and Enter hangs the machine |

## Left out

- Port I/O, UART set-up and the hardware cursor (src/io.s, src/serial.c:19-55, src/framebuffer.c:27-32): the controller, COM1 input and COM1 output are byte sequences.
- Boot, paging, GDT, IDT, PIC and the interrupt dispatch (src/loader.s, src/gdt.c, src/idt.c, src/pic.c, src/interrupt.c): fixed write sequences; only the cleared interrupt flag inside handlers is used.
- The start-up order and messages of src/kmain.c: they fix the starting states only.
- The texts the commands print and the delays between them: a parameter, for /transferir a function of both contents. The sequential model prints a command's texts before it takes the locks; screen and locks are disjoint, so the state on return is the same.
- Lock and owner names in the files (src/deadlock.c:7, 14): nothing reads them.
- Raw pointers into the Multiboot structures: the map is a sequence of entries walked by their sizes, the modules are a sequence.
- Misuse of the release operation (freeing page 0, a reserved page or a page not held): the code does not guard against it, clients must not do it.
- KernelRuns.RunsMeetSpec: processing one byte is one step of the main loop. The handler touches only the ring and the processing does not; KernelRuns.ProcessingCommutes shows that an interrupt just before and just after the step has the same effect, one in its middle is not a separate step.
- Locks.SpinLock.Lock: the endless wait is cut off after an arbitrary number of exchanges, so "never returns" is "fails for every bound".
- Signed overflow: `bit * PAGE_SIZE` is an `int` product in the source and overflows from bit 2^19 on (addresses of 2 GiB and more, src/memory.c:107), and so does `1 << 31` (src/memory.c:18-28); the model takes the two's complement wrap-around compilers commonly give, which C does not promise.
