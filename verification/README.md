# Ruby on Bare Metal: a verified model

This project models the parts of Ruby on Bare Metal that carry state, arithmetic or parsing, and
proves with Dafny what they promise. `dafny verify dfyconfig.toml` checks all of it.

| file | models | main results |
|---|---|---|
| `Words.dfy` | size_t arithmetic, the ALIGN macro, little-endian words | the mask rounds up exactly unless the sum wraps |
| `Heap.dfy` | the bump allocator with headers in the same byte array | `Heap.Allocator.Run`, `Heap.IntendedExactlyWhenAdmissible` |
| `Arena.dfy` | the mmap arena and both implementations of mremap | `Arena.PagesAreNeverShared`, `Arena.RemapsAgree`, `Arena.RemapGrows` |
| `Files.dfy` | embedded files and the descriptor table | `Files.ReadsAreConsecutive`, `Files.OpenThenReadAll` |
| `Raycast.dfy`, `Walker.dfy` | the ray caster and the walker of the demo, over reals | `Raycast.CastRay`, `Walker.Viewer.Wander` |
| `Screen.dfy`, `LineEditor.dfy` | a terminal line, and the shell's line reader with its history | `LineEditor.ScreenAgrees`, `LineEditor.LineKeysRead`, `LineEditor.DraftIsNeverLost` |
| `Paths.dfy`, `Loader.dfy` | path normalisation, require and require_relative | `Paths.NormalIsCanonical`, `Loader.Kernel.Load` |
| `Glob.dfy` | wildcard patterns as regular expressions | `Glob.Glob`, `Glob.FoundIsSomeLine` |
| `Ansi.dfy`, `Console.dfy` | the grammar of control sequences, and the driver's state machine | `Console.RunMeaning`, `Console.SelectIsRendition` |
| `Printer.dfy`, `Terminal.dfy`, `Adapter.dfy` | printed streams, a serial terminal with reverse video, and the editor's terminal adapter | `Adapter.TerminalAdapter.Draw`, `Adapter.TrackedPositionIsCursor`, `Adapter.HighlightsShow` |
| `Keys.dfy` | key decoding, against an encoder of keys and UTF-8 | `Keys.DecodingInvertsEncoding` |
| `KeyInput.dfy` | the console's one-key look-ahead | `KeyInput.FirstInFirstOut` |
| `Boot.dfy` | BSS clear, page-table construction, the hardware page walk | `Boot.WalkIsIdentity` |

Code that changes state in place is modelled by classes and loops. Each method is proved against a
specification function or relation on values, and the promises over whole runs are proved about
those. Sequences that follow a standard cite it by name: ECMA-48, RFC 3629, the UEFI Specification
2.10, the Intel SDM volume 3A.

Where the code falls short of a promise, the exact condition is proved: an allocation or a mapping is
placed as intended if and only if the end of the request does not wrap (`Heap.IntendedExactlyWhenAdmissible`,
`Arena.IntendedExactlyWithoutWrap`); absolute alignment holds if and only if the alignment is at most
4096 (`Heap.AbsoluteAlignment`); a failing pipe uses up a slot if and only if exactly one was free
(`Files.FailingPipe`); the edited line is shown alone if and only if nothing stood in front of it or it
was redrawn (`LineEditor.ScreenAgrees`); a repeated require is a no-op if and only if every stored candidate is
loaded (`Loader.Kernel.RequireFile`); the tracked cursor is the device's if and only if they started
together or a position was set since (`Adapter.TrackedPositionIsCursor`); highlighted blocks are shown
reversed if and only if no text follows an inner block within an outer one (`Adapter.HighlightsShow`); input after a bare ESC is
intact if and only if there is none (`Keys.BareEscapeLosesInput`); a key with newlines is found if and
only if one of its lines matches (`Glob.FoundIsSomeLine`).

The code and its comments disagree in one place: the comment above the page tables speaks of 256 MB and
128 entries (boot/boot.S:53), the loop fills 256 entries; the model follows the loop.

## Model

| member | source | states |
|---|---|---|
| Words.AlignRoundsUp | compat/ruby_on_bare_metal_malloc.c:25 | For every power of two and every sum that does not wrap, the masking macro gives the least multiple at or above its argument. |
| Words.AlignWraps | compat/ruby_on_bare_metal_malloc.c:25 | When the sum inside the macro wraps, its result is 0. |
| Words.DivideBack | compat/ruby_on_bare_metal_malloc.c:63-64 | Dividing the wrapped product back disagrees exactly when the true product needs more than 64 bits. |
| Words.WordFits | compat/ruby_on_bare_metal_malloc.c:42-44 | A header word written to memory byte by byte is read back as it was. |
| Words.LowestFirst | compat/ruby_on_bare_metal_malloc.c:19-26 | The bytes of a word in memory, the lowest first. |
| Heap.IntendedExactlyWhenAdmissible | compat/ruby_on_bare_metal_malloc.c:28-40 | In wrapping arithmetic the allocator chooses the intended place, or refuses, exactly when the end of the block does not wrap back into the heap. |
| Heap.IntendedPlanSuits | compat/ruby_on_bare_metal_malloc.c:29-36 | A granted block is aligned, lies above its header and everything in use, inside the array, and is at least as long as asked for. |
| Heap.IntendedPlanIsLeast | compat/ruby_on_bare_metal_malloc.c:28-41 | Start and length are the least multiples that will do, and a request is refused only if those do not fit the heap. |
| Heap.WrappedRequestIsGranted | compat/ruby_on_bare_metal_malloc.c:34-40 | A request for SIZE_MAX bytes is granted with an empty payload: the input on which the promise fails. |
| Heap.ObjectSizesAreAdmissible | compat/ruby_on_bare_metal_malloc.c:28-40 | No object size below half of the address space wraps, whatever the power-of-two alignment. |
| Heap.AbsoluteAlignment | compat/ruby_on_bare_metal_malloc.c:16 | Aligned offsets give aligned addresses for every 4096-aligned array exactly for alignments up to 4096. |
| Heap.SpansAreDisjoint | compat/ruby_on_bare_metal_malloc.c:19-24 | In a valid heap no byte of header or payload belongs to two blocks, and all lie in the array. |
| Heap.AllocationKeepsValid | compat/ruby_on_bare_metal_malloc.c:42-48 | Any step that grants or refuses as intended keeps all headers intact and all blocks apart. |
| Heap.HeaderReads | compat/ruby_on_bare_metal_malloc.c:74-75 | The sixteen bytes below a block decode to its size and the magic number. |
| Heap.Allocator.BumpAlloc | compat/ruby_on_bare_metal_malloc.c:28-49 | One allocation: the exact new block, mark and header, all bytes below the old mark unchanged, or no change at all. |
| Heap.Allocator.Malloc | compat/ruby_on_bare_metal_malloc.c:53-55 | The same for alignment 16. |
| Heap.Allocator.Calloc | compat/ruby_on_bare_metal_malloc.c:62-68 | NULL and no change when the true product does not fit 64 bits, otherwise an allocation whose first nmemb*size bytes are zero. |
| Heap.Allocator.HeaderSize | compat/ruby_on_bare_metal_malloc.c:74-75 | The header found below any block ever returned gives the size of that block. |
| Heap.Allocator.Realloc | compat/ruby_on_bare_metal_malloc.c:70-84 | NULL allocates; size 0 returns NULL; a size that fits returns the same block unchanged; otherwise a new block starts with the bytes of the old one and nothing below the old mark changes. |
| Heap.Allocator.Move | compat/ruby_on_bare_metal_malloc.c:79-83 | The growing branch: an allocation whose payload starts with the old bytes. |
| Heap.Allocator.PosixMemalign | compat/ruby_on_bare_metal_malloc.c:88-93 | ENOMEM leaves the caller's pointer alone; 0 comes with an aligned block. |
| Heap.Allocator.Memalign | compat/ruby_on_bare_metal_malloc.c:95-101 | An allocation at the given alignment. |
| Heap.Allocator.UsableSize | compat/ruby_on_bare_metal_malloc.c:105-110 | 0 for NULL, otherwise the size in the header of the block. |
| Heap.Allocator.ExpandHeap | compat/ruby_on_bare_metal_malloc.c:186-194 | An allocation at a page boundary. |
| Heap.Allocator.ClientWrite | compat/ruby_on_bare_metal_malloc.c:19-24 | A store into a payload changes that byte only and breaks no header. |
| Heap.Allocator.Serve | compat/ruby_on_bare_metal_malloc.c:53-110 | Whatever a client asks for: earlier blocks stay, a returned block has room for the request, calloc's bytes are zero, realloc's are the old ones, all else below the mark is unchanged; a new block is aligned and lies above everything used before, and is refused exactly when it does not fit, its product overflows, or realloc is asked for nothing; a block that is large enough is kept; refusals change nothing. |
| Heap.NewBlocksAreApart | compat/ruby_on_bare_metal_malloc.c:28-49 | In any session the block that a request newly gets, header included, lies above all that any earlier request was given. |
| Heap.BytesPersist | compat/ruby_on_bare_metal_malloc.c:53-110 | Between any two points of a session the mark only grows, and a byte below the mark keeps its value unless a client stored into it. |
| Heap.ArrayStaysZero | compat/ruby_on_bare_metal_malloc.c:62-68 | Every byte of a block from calloc is zero, at any later point of the session, until a client stores into it. |
| Heap.ResizedKeepsBytes | compat/ruby_on_bare_metal_malloc.c:70-86 | A block from realloc holds the bytes of the old block, at any later point of the session, until a client stores into them. |
| Heap.StoreReadsBack | compat/ruby_on_bare_metal_malloc.c:53-110 | What a client stores into its payload reads back at any later point, until a client stores there again. |
| Heap.Allocator.Run | compat/ruby_on_bare_metal_malloc.c:53-110 | A whole session: every request is served in a valid heap; new blocks are apart from everything given before and refused only when they do not fit; every pointer returned has room for what was asked for; every byte below the mark after any request has its value at the end unless a client stored into it. |
| Arena.IntendedExactlyWithoutWrap | compat/ruby_on_bare_metal_syscall.c:160-163 | The arena places a request as intended exactly when page boundary plus length does not wrap. |
| Arena.WrappedLengthIsGranted | compat/ruby_on_bare_metal_syscall.c:160-163 | A length of all ones is granted: the input on which the limit test fails. |
| Arena.MmapGrants | compat/ruby_on_bare_metal_syscall.c:156-172 | A granted mapping is a fresh page-aligned address in the arena, zero where readable or writable; a refusal changes nothing; no address is mistaken for an error by the wrapper. |
| Arena.MmapClears | compat/ruby_on_bare_metal_syscall.c:156-172 | A mapping with access reads as zero, one without is left as it was, and nothing else changes. |
| Arena.RemapsAgree | compat/ruby_on_bare_metal_malloc.c:144-155 | The library's mremap and the system call agree on memory, arena mark and result, up to the encoding of errors. |
| Arena.RemapGrows | compat/ruby_on_bare_metal_syscall.c:190-203 | A growing mremap keeps the old bytes, clears the rest, and changes nothing below the old mark. |
| Arena.RemapShrinks | compat/ruby_on_bare_metal_syscall.c:179-203 | Shrinking gives the same address back and changes nothing, in both implementations. |
| Arena.RemapRefused | compat/ruby_on_bare_metal_syscall.c:179-203 | Growing beyond the arena is refused without a trace, by -ENOMEM and by MAP_FAILED. |
| Arena.RemapOfNothing | compat/ruby_on_bare_metal_syscall.c:179-186 | Remapping MAP_FAILED is mapping anew. |
| Arena.StepKeepsValid | compat/ruby_on_bare_metal_syscall.c:156-203 | Every call of a session keeps all regions page aligned, inside the arena and in order, and leaves memory below the mark alone. |
| Arena.RunKeepsValid | compat/ruby_on_bare_metal_syscall.c:156-203 | The same for whole sessions of mmap, munmap and mremap. |
| Arena.PagesAreNeverShared | compat/ruby_on_bare_metal_syscall.c:156-203 | No two regions handed out in a session ever share a page. |
| Arena.AddressSpace.MmapCall | compat/ruby_on_bare_metal_syscall.c:156-172 | The call computes the specified result and new memory. |
| Arena.AddressSpace.MremapCall | compat/ruby_on_bare_metal_syscall.c:190-203 | The call computes the specified result and new memory. |
| Arena.AddressSpace.LibraryMmap | compat/ruby_on_bare_metal_malloc.c:123-132 | The wrapper turns a negated error number into MAP_FAILED and passes addresses on. |
| Arena.AddressSpace.LibraryMremap | compat/ruby_on_bare_metal_malloc.c:144-155 | The second implementation computes its own specification, which RemapsAgree ties to the first. |
| Files.StrEq | kernel/embedded_files.c:11-14 | The pointer-advancing comparison decides equality of strings. |
| Files.EmbeddedData | kernel/embedded_files.c:40-55 | The data of the first file of that name, scripts before editor files; nothing for NULL. |
| Files.FindIsFirst | kernel/embedded_files.c:42-53 | The search delivers some data exactly if it is that of the first table entry with the path. |
| Files.FileExists | kernel/embedded_files.c:29-38 | True exactly when one of the tables has that path. |
| Files.FreeFrom | compat/ruby_on_bare_metal_syscall.c:101-102 | The slot search finds the least unused descriptor, or 64. |
| Files.OpenOutcome | compat/ruby_on_bare_metal_syscall.c:95-113 | open succeeds exactly when some entry has the path and some slot is free, and takes the least; otherwise ENOENT or EMFILE, and nothing changes. |
| Files.ReadDelivers | compat/ruby_on_bare_metal_syscall.c:64-72 | A read delivers as much as was asked for and is left, from the offset on, and moves it by that. |
| Files.ReadWithoutFile | compat/ruby_on_bare_metal_syscall.c:59-74 | Descriptor 0 reads the serial line, any other without a file reads as end of file; the table stays. |
| Files.CloseFrees | compat/ruby_on_bare_metal_syscall.c:115-124 | A closed descriptor is free and reads as end of file, the others stay; EBADF outside of the table. |
| Files.CopyReadsAlike | compat/ruby_on_bare_metal_syscall.c:254-270 | A copy made by dup or dup2 reads what the original would read next, and does not move the original on. |
| Files.PipeTakesTwo | compat/ruby_on_bare_metal_syscall.c:378-404 | A pipe that succeeds takes the two least free slots, and its ends have nothing to read. |
| Files.StepKeepsValid | compat/ruby_on_bare_metal_syscall.c:59-124 | Every call keeps offset <= size, and unused slots without data, size and offset. |
| Files.FailingPipe | compat/ruby_on_bare_metal_syscall.c:378-404 | A pipe fails exactly when fewer than two slots are free, and then changes the table exactly when one was: that slot stays marked. |
| Files.DupCopiesUse | compat/ruby_on_bare_metal_syscall.c:254-263 | The descriptor that dup returns is in use exactly when the one it copies is; an unused one may be duplicated, and then nothing changes. |
| Files.StepLeaves | compat/ruby_on_bare_metal_syscall.c:254-270 | A call that neither closes a descriptor nor duplicates over it moves its offset only by reading. |
| Files.ReadsAreConsecutive | compat/ruby_on_bare_metal_syscall.c:59-74 | Reads of any sizes on one descriptor, mixed with any calls on others, deliver consecutive pieces of its file. |
| Files.OpenThenReadAll | compat/ruby_on_bare_metal_syscall.c:95-113 | open returns the least free descriptor from 3 on; from then on what was received is a prefix of the data of the first entry with that path, and a non-empty request returns nothing exactly when it is all of it. |
| Files.Descriptors.SysOpen | compat/ruby_on_bare_metal_syscall.c:95-113 | The call makes the specified step, with ENOENT and EMFILE. |
| Files.Descriptors.SysRead | compat/ruby_on_bare_metal_syscall.c:59-74 | The call makes the specified step; other descriptors read as end of file. |
| Files.Descriptors.SysClose | compat/ruby_on_bare_metal_syscall.c:115-124 | The call makes the specified step, with EBADF. |
| Files.Descriptors.SysDup | compat/ruby_on_bare_metal_syscall.c:254-263 | The call makes the specified step; the offset is copied, and an unused descriptor may be duplicated. |
| Files.Descriptors.SysDup2 | compat/ruby_on_bare_metal_syscall.c:265-270 | The call makes the specified step. |
| Files.Descriptors.SysPipe | compat/ruby_on_bare_metal_syscall.c:378-404 | One pass marks the first two free slots; with only one free slot it fails and that slot stays marked. |
| Raycast.ClosedForm | ruby/scripts/autodemo.rb:69-71 | The closed form of the distance equals the accumulated parameter of the line just crossed, so taking its absolute value changes nothing. |
| Raycast.CrossX | ruby/scripts/autodemo.rb:58-61 | Crossing a vertical line keeps the walk exact, leaves only open cells behind, and touches the new cell on its entry face. |
| Raycast.CrossY | ruby/scripts/autodemo.rb:62-66 | The same for horizontal lines. |
| Raycast.WalkOn | ruby/scripts/autodemo.rb:57-74 | Inside a solid border each crossing uses up one of the W+H-5 there can be. |
| Raycast.CastRay | ruby/scripts/autodemo.rb:35-74 | A hit is the first contact of the exact ray with a wall of the map, at that distance and through that side; a miss means the ray left the map or crossed 64 lines in the open; in a sealed map there is no miss. Components below 1e-9 count as zero: a ray parallel to an axis is followed as exactly as any other, also down a grid line, unless it starts beside a line, nearer than 6.4e-20. |
| Raycast.FlattenedIsRay | ruby/scripts/autodemo.rb:38-39 | The ray followed is the ray itself exactly when no component is both nonzero and below 1e-9; with both components from 1e-9 on it is always followed exactly. |
| Raycast.BehindNextLine | ruby/scripts/autodemo.rb:41-54 | The cells behind the line next to a parallel ray cover the ray exactly when it starts on that line: crossing a line the ray is merely near to is where the walk goes astray. |
| Raycast.ContactIsNear | ruby/scripts/autodemo.rb:56-73 | From inside a sealed map the first contact is nearer than the sentinel. |
| Raycast.NoWallBeforeContact | ruby/scripts/autodemo.rb:56-72 | Before a contact no point of the ray is strictly inside any wall. |
| Walker.CornersDecide | ruby/scripts/autodemo.rb:135-137 | The four corner tests decide whether any point of the 0.5-wide box is in a wall. |
| Walker.StepStaysInBox | ruby/scripts/autodemo.rb:132-144 | A step of at most 0.12 on each axis stays inside the box tested at its end, so the way there meets no wall. |
| Walker.FrameTurns | ruby/scripts/autodemo.rb:131-150 | A frame steps by 0.12 exactly when the square fits; otherwise it turns by a fifth of a whole turn, one way on odd frames and the other on even ones; every thirtieth frame adds 0.05; else the heading stays. |
| Walker.TurnsCancel | ruby/scripts/autodemo.rb:138-146 | Of two blocked frames in a row, neither a thirtieth, the second turns back what the first has turned. |
| Walker.MapSealed | ruby/scripts/autodemo.rb:4-17 | The map of the demo has a solid border, is small enough for 64 crossings, and the start is free. |
| Walker.FreePositionSeesWall | ruby/scripts/autodemo.rb:56-73 | From a free position in a sealed map every cast meets a wall; its distance is that of the first contact and less than the sentinel. |
| Walker.Viewer.StepAi | ruby/scripts/autodemo.rb:131-151 | One frame as specified: a step or a turn, the drift, and a heading brought into [0, 2*pi) by whole turns; the box stays free. |
| Walker.Viewer.Normalise | ruby/scripts/autodemo.rb:147-150 | The two loops end with the heading in range, a whole number of turns away. |
| Walker.Viewer.RenderFrame | ruby/scripts/autodemo.rb:95-102 | Every column's distance and side are those of the ray's first contact. |
| Walker.Viewer.Wander | ruby/scripts/autodemo.rb:158-165 | Over any number of frames with any headings and rays: every frame steps or turns as specified, two blocked frames in a row restore the heading, the box is always free, no segment between frames meets a wall, and every distance shown is that of the ray's contact with a wall, less than the sentinel. |
| Screen.FeedText | ruby/scripts/init.rb:207 | Text sent at the end of a terminal line extends it. |
| Screen.FeedBack | ruby/scripts/init.rb:210 | ESC [ n D moves the cursor back by n, however many digits n has. |
| Screen.FeedWipe | ruby/scripts/init.rb:207 | Carriage return and erase leave an empty line. |
| LineEditor.RedrawShows | ruby/scripts/init.rb:206-212 | A redraw shows prompt, buffer and cursor whatever was on the line. |
| LineEditor.EchoShows | ruby/scripts/init.rb:223-278 | After every editing key, echoed by one character, one cursor movement or a redraw, the line shows exactly prompt and buffer with the cursor in place, behind text that stood there before, which a redraw wipes out. |
| LineEditor.EchoSends | ruby/scripts/init.rb:206-212 | The bytes sent for cursor movements, characters and redraws. |
| LineEditor.ScreenAgrees | ruby/scripts/init.rb:214-280 | After any keys the line shows exactly prompt and buffer if and only if no text stood in front of the prompt or some key has redrawn the line. |
| LineEditor.EraseUndoesInsert | ruby/scripts/init.rb:260-273 | Backspace takes back the last character typed, wherever the cursor is. |
| LineEditor.EditsAtCursor | ruby/scripts/init.rb:242-278 | Insertion, backspace and the horizontal arrows are those of text in front of and behind a cursor; they touch nothing else. |
| LineEditor.UpsBrowse | ruby/scripts/init.rb:224-231 | Going up n times shows the n-th entry before, and from the bottom keeps the draft. |
| LineEditor.DownsBrowse | ruby/scripts/init.rb:232-241 | Going down n times shows the n-th entry after, or the draft at the bottom. |
| LineEditor.DraftIsNeverLost | ruby/scripts/init.rb:224-242 | Leaving the bottom of the history and coming back restores the draft, whatever was browsed and edited in between. |
| LineEditor.NextKeyReads | ruby/scripts/init.rb:215-279 | Input that starts with the encoding of a key is read as that key, and exactly that encoding is taken. |
| LineEditor.NextKeyIsEncoded | ruby/scripts/init.rb:215-279 | Whatever is read as a key is an encoding of it. |
| LineEditor.LineKeysRead | ruby/scripts/init.rb:214-280 | Any list of editing keys and an ending key come back from their encodings, with the rest of the input left over. |
| LineEditor.LineOutcomes | ruby/scripts/init.rb:215-279 | Enter returns the line as edited, Control-C an empty one, Control-D or the end of input none; with the bytes written for each. |
| LineEditor.TextIsReturned | ruby/scripts/init.rb:215-279 | Text typed and ended is returned as it is, and was echoed as it is. |
| LineEditor.EnteredText | ruby/scripts/init.rb:590-605 | Text typed is entered unless it is empty; exit, halt and shutdown are entered and end the session. |
| LineEditor.Shell.SkipParameters | ruby/scripts/init.rb:254-256 | The loop skips exactly the parameter bytes and consumes the byte after them. |
| LineEditor.Shell.ReadKey | ruby/scripts/init.rb:215-279 | The byte-wise decoding of keys, with unknown sequences skipped to their last byte and end of input inside a key. |
| LineEditor.Shell.Edit | ruby/scripts/init.rb:223-278 | One editing key changes the buffer as specified, writes the specified bytes, and keeps screen and editor in agreement. |
| LineEditor.Shell.Turn | ruby/scripts/init.rb:214-280 | One turn of the loop: the key edits the line, or ends it with a line, an interrupt or end of input. |
| LineEditor.Shell.ReadLine | ruby/scripts/init.rb:199-281 | A whole line, behind any text: the text returned, the bytes written and the input left over are those of its keys, and the history is not touched. |
| LineEditor.Shell.MainLoop | ruby/scripts/init.rb:590-605 | The lines appended to the history are exactly the non-empty lines of the input, in order, up to the end of input or the line that stops the shell; the bytes written are those of all lines. What each line reads and writes when it is run may be anything that ends behind the text of a terminal line. |
| Loader.MarksExactlyReachable | ruby/scripts/init.rb:24-51 | Marks that are reachable and closed are exactly the old ones and everything reachable through files not loaded before. |
| Loader.RequireOrder | ruby/scripts/init.rb:27-39 | The three paths a require tries, in order, and which of them it loads. |
| Loader.TwoFilesOneName | ruby/scripts/init.rb:28-34 | Two stored candidates for one name: the first require loads one, and with that loaded a repeated require loads the other. |
| Loader.Kernel.Load | ruby/scripts/init.rb:39-43 | Marking and running a file terminates on cyclic graphs, runs no file twice and in the order of the calls, and on success marks exactly what is reachable. |
| Loader.Kernel.Eval | ruby/scripts/init.rb:41 | Running the calls of a file, in order, marks only what it reaches and leaves the marks closed. |
| Loader.Kernel.RequireFile | ruby/scripts/init.rb:24-51 | A require runs the first candidate that is stored and not loaded, and changes nothing exactly when there is none; with unique names it marks exactly what its target reaches. |
| Loader.Kernel.RequireRelativeFile | ruby/scripts/init.rb:53-81 | The same for the normalised path relative to the caller; a missing file raises. |
| Paths.FieldsOfJoin | ruby/scripts/init.rb:61-70 | Splitting inverts joining for parts without slashes. |
| Paths.ResolveSurvives | ruby/scripts/init.rb:63-69 | The push and pop loop keeps exactly the parts that no later '..' cancels. |
| Paths.NormalIsCanonical | ruby/scripts/init.rb:60-70 | A normalised path has exactly the surviving components, none empty, '.' or '..'. |
| Paths.NormalSplits | ruby/scripts/init.rb:60-70 | Split again, a normalised path is one empty field and its components. |
| Paths.NormalIsIdempotent | ruby/scripts/init.rb:60-70 | Normalising twice is normalising once. |
| Paths.NormalDecidesSurvivors | ruby/scripts/init.rb:60-70 | Two paths have the same normal form exactly when the same components survive in them. |
| Paths.NormalOfAppended | ruby/scripts/init.rb:57-70 | A directory may be normalised before a name is appended. |
| Paths.UpUndoesDown | ruby/scripts/init.rb:61-69 | A proper part leads one level down, '..' back up, '.' nowhere, and the root is its own parent. |
| Paths.DirnameOfJoin | ruby/scripts/init.rb:126-129 | The directory is what came before the last slash, and the root without one. |
| Paths.RelativePathResolves | ruby/scripts/init.rb:53-70 | The path looked up is that of the caller's directories followed by the name, with its extension, and resolved. |
| Paths.NormalisePath | ruby/scripts/init.rb:60-70 | The loop computes the normal form. |
| Glob.RewriteUnfolds | ruby/scripts/init.rb:312 | The three substitutions do not disturb one another: every character is rewritten on its own. |
| Glob.WildOfOne | ruby/scripts/init.rb:311-315 | What each wildcard and each other character stands for. |
| Glob.WildOfAppended | ruby/scripts/init.rb:311-315 | A pattern matches exactly when the text can be cut so that its parts match. |
| Glob.ExpressionParses | ruby/scripts/init.rb:312-313 | The rewritten, anchored pattern is a regular expression with one piece for every character. |
| Glob.PiecesMatchWild | ruby/scripts/init.rb:312-314 | On text without newlines that expression matches exactly what the wildcards match. |
| Glob.BoundsAreLines | ruby/scripts/init.rb:313-314 | The stretches between the two line anchors are exactly the lines of the key; a final newline opens no further line. |
| Glob.FoundIsSomeLine | ruby/scripts/init.rb:313-314 | For any key, the search succeeds exactly when some line of the key matches the wildcards. |
| Glob.FoundIsWild | ruby/scripts/init.rb:313-314 | For keys without newlines it succeeds exactly when the key matches. |
| Glob.NewlineKeyIsFound | ruby/scripts/init.rb:313-314 | A key with a newline that is found without matching as a whole. |
| Glob.FinalNewlineOpensNoLine | ruby/scripts/init.rb:313-314 | The empty pattern does not find a key of one line that ends in a newline; it finds one with an empty line. |
| Glob.InsertSorted | ruby/scripts/init.rb:314 | Insertion keeps the keys in ascending order. |
| Glob.Glob | ruby/scripts/init.rb:311-315 | The matching keys, once each, in ascending order. |
| Glob.LessIs | ruby/scripts/init.rb:315 | The order of the keys is decided by the first difference. |
| Glob.AscendingIsUnique | ruby/scripts/init.rb:314 | That list is determined by its members. |
| Console.SelectIsRendition | kernel/uefi_console.c:50-58 | The rendition loop leaves the last foreground and the last background since the last reset. |
| Console.RenditionsInOrder | kernel/uefi_console.c:51-58 | Parameters of a rendition take effect one after the other. |
| Console.StepReads | kernel/uefi_console.c:83-89 | Each byte of a sequence's body leaves the parameters equal to the fields read so far. |
| Console.StepFinishes | kernel/uefi_console.c:90-95 | The final byte makes the call of the grammar, with defaults for empty fields; any other byte drops the sequence. |
| Console.SequenceStarts | kernel/uefi_console.c:78-81 | ESC [ forgets every parameter of the sequence before. |
| Console.RunMeaning | kernel/uefi_console.c:72-98 | On every bounded stream the state machine makes exactly the calls that the grammar gives it, and is idle exactly when the stream ends between items. |
| Console.Driver.AnsiReset | kernel/uefi_console.c:20-26 | All parser state is cleared. |
| Console.Driver.PushParam | kernel/uefi_console.c:28-33 | A ninth and later parameter is counted but not stored. |
| Console.Driver.Exec | kernel/uefi_console.c:35-62 | The calls and the new attribute of one control sequence. |
| Console.Driver.ParseByte | kernel/uefi_console.c:72-98 | One byte makes the specified step. |
| Console.Driver.Write | kernel/uefi_console.c:114-116 | A buffer is parsed byte by byte, from any state. |
| Console.Driver.WriteStream | kernel/uefi_console.c:114-116 | From the idle state a bounded stream is carried out as the grammar reads it. |
| Printer.Concatenation | kernel/uefi_console.c:72-98 | Streams that end between items are read one after the other. |
| Printer.DecimalOfDigits | patches/mui_terminal_adapter_ruby_on_bare_metal.rb:46 | A printed number is read back. |
| Printer.SequenceMeaning | kernel/uefi_console.c:90-92 | A single printed control sequence is read as its control function. |
| Printer.MalformedMeaning | kernel/uefi_console.c:88-95 | A sequence that breaks off at a byte it cannot contain is dropped with that byte. |
| Printer.EscapeMeaning | kernel/uefi_console.c:78-81 | ESC and a byte other than the bracket are dropped. |
| Printer.OtherFinals | kernel/uefi_console.c:61 | Other final bytes do nothing. |
| Adapter.CursorReads | patches/mui_terminal_adapter_ruby_on_bare_metal.rb:43-47 | The bytes of setpos are read as that cursor position. |
| Adapter.RenditionReads | patches/mui_terminal_adapter_ruby_on_bare_metal.rb:54-59 | Highlighting is read as setting the attribute the device has. |
| Adapter.EraseReads | kernel/uefi_console.c:44-46 | Of the numbers of J exactly 2 clears the screen. |
| Adapter.CursorDefaults | kernel/uefi_console.c:40-43 | H and f set the cursor, and what is left out or zero counts as one. |
| Adapter.ColourReads | kernel/uefi_console.c:53-57 | The sixteen foregrounds and backgrounds, each keeping the other. |
| Adapter.EmptyRenditionResets | kernel/uefi_console.c:52-53 | No parameter, an empty one and 0 reset the attribute. |
| Adapter.GlyphsOf | kernel/uefi_console.c:64-70 | A line feed is printed behind a carriage return, other characters as they are. |
| Adapter.OperationsSend | patches/mui_terminal_adapter_ruby_on_bare_metal.rb:31-59 | The bytes of a highlighted character, a position and an empty frame. |
| Adapter.OpsShow | patches/mui_terminal_adapter_ruby_on_bare_metal.rb:45-59 | On a terminal with reverse video the operations draw their characters reversed from the start of a block to the end of the first block that ends. |
| Adapter.HighlightsShow | patches/mui_terminal_adapter_ruby_on_bare_metal.rb:54-59 | Started plain, exactly the characters inside of highlighted blocks are reversed, if and only if no text follows an inner block within an outer one; in the end reverse video is off. |
| Adapter.FlatBlocksShow | patches/mui_terminal_adapter_ruby_on_bare_metal.rb:54-59 | Blocks that hold no blocks are always shown right. |
| Adapter.InnerBlockEndsOuter | patches/mui_terminal_adapter_ruby_on_bare_metal.rb:54-59 | The failing input: text behind an inner block of an outer one is plain. |
| Adapter.FrameShows | patches/mui_terminal_adapter_ruby_on_bare_metal.rb:31-38 | A frame is drawn with the cursor hidden, and shows it in the end. |
| Adapter.OpReads | patches/mui_terminal_adapter_ruby_on_bare_metal.rb:43-59 | The bytes of any operation, nested highlights included, are read as its calls and leave the reader idle with its attribute unchanged. |
| Adapter.OpsRead | patches/mui_terminal_adapter_ruby_on_bare_metal.rb:43-59 | The same for lists of operations. |
| Adapter.FrameReads | patches/mui_terminal_adapter_ruby_on_bare_metal.rb:31-38 | What refresh writes is read as the buffered calls and one final cursor position. |
| Adapter.TrackedPositionIsCursor | patches/mui_terminal_adapter_ruby_on_bare_metal.rb:26-29 | The tracked position is the cursor of the device exactly when both started together or some operation has set the position. |
| Adapter.ClearHomesDeviceOnly | patches/mui_terminal_adapter_ruby_on_bare_metal.rb:26-29 | The failing input: after a clear at (3, 5) and one character, device and adapter disagree. |
| Adapter.RefreshRealigns | patches/mui_terminal_adapter_ruby_on_bare_metal.rb:31-42 | Whatever was drawn, the refresh leaves the device's cursor at the tracked position. |
| Adapter.TerminalAdapter.constructor | patches/mui_terminal_adapter_ruby_on_bare_metal.rb:9-19 | The terminal is on the alternate screen, and that is erased. |
| Adapter.TerminalAdapter.Close | patches/mui_terminal_adapter_ruby_on_bare_metal.rb:22-24 | Attributes off, cursor shown, back from the alternate screen. |
| Adapter.TerminalAdapter.Clear | patches/mui_terminal_adapter_ruby_on_bare_metal.rb:26-29 | The buffer becomes a single home command; the tracked position stays. |
| Adapter.TerminalAdapter.Refresh | patches/mui_terminal_adapter_ruby_on_bare_metal.rb:31-38 | The buffer is written out between hiding and placing the cursor, and emptied. |
| Adapter.TerminalAdapter.MoveTo | patches/mui_terminal_adapter_ruby_on_bare_metal.rb:43-47 | Position and buffer after setpos. |
| Adapter.TerminalAdapter.AddString | patches/mui_terminal_adapter_ruby_on_bare_metal.rb:49-52 | Position and buffer after addstr. |
| Adapter.TerminalAdapter.WithHighlight | patches/mui_terminal_adapter_ruby_on_bare_metal.rb:54-59 | The block is wrapped in reverse video on and off, the tracked position follows; `HighlightsShow` says what that shows. |
| Adapter.TerminalAdapter.Draw | patches/mui_terminal_adapter_ruby_on_bare_metal.rb:31-59 | Any operations, highlighted blocks included, behind whatever was buffered, and a refresh: the console makes exactly the corresponding calls, keeps its attribute, and ends idle. |
| Adapter.TerminalAdapter.DrawCleared | patches/mui_terminal_adapter_ruby_on_bare_metal.rb:26-59 | The editor's frame, a clear, operations and a refresh: the console homes the cursor, makes the corresponding calls, and ends at the tracked position. |
| Keys.CodePointOfUtf8 | patches/mui_terminal_adapter_ruby_on_bare_metal.rb:230-245 | The text delivered for a character encodes that code point. |
| Keys.LeadBytes | patches/mui_terminal_adapter_ruby_on_bare_metal.rb:232-240 | The bit masks recognise exactly the lead and continuation bytes. |
| Keys.GetchInverts | patches/mui_terminal_adapter_ruby_on_bare_metal.rb:90-94 | One call consumes exactly one encoding and returns its key. |
| Keys.DecodingInvertsEncoding | patches/mui_terminal_adapter_ruby_on_bare_metal.rb:90-245 | Any list of keys comes back from its encodings, one call a key, nothing left over. |
| Keys.BareEscapeLosesInput | patches/mui_terminal_adapter_ruby_on_bare_metal.rb:148-152 | After a bare ESC the following input is intact exactly when there is none. |
| Keys.EscapesRead | patches/mui_terminal_adapter_ruby_on_bare_metal.rb:148-152 | ESC and a byte that introduces nothing, or an unknown one behind ESC O, is ESC, and both are taken. |
| Keys.CsiCodes | patches/mui_terminal_adapter_ruby_on_bare_metal.rb:190-228 | The key codes of the named sequences. |
| Keys.UnknownIsEscape | patches/mui_terminal_adapter_ruby_on_bare_metal.rb:190-228 | A sequence is taken for ESC exactly when it encodes no key. |
| Keys.BrokenCharacter | patches/mui_terminal_adapter_ruby_on_bare_metal.rb:236-244 | A character broken off is delivered as far as it came, and the byte that broke it off is lost. |
| Keys.StrayByte | patches/mui_terminal_adapter_ruby_on_bare_metal.rb:231-235 | A byte that starts no character is delivered as a number. |
| Keys.KeyReader.ReadCsiSequence | patches/mui_terminal_adapter_ruby_on_bare_metal.rb:179-212 | The loop reads up to the final byte and returns that sequence's key code, or ESC. |
| Keys.KeyReader.ReadSs3Sequence | patches/mui_terminal_adapter_ruby_on_bare_metal.rb:214-228 | One byte decides; end of input and unknown bytes give ESC. |
| Keys.KeyReader.ReadUtf8Char | patches/mui_terminal_adapter_ruby_on_bare_metal.rb:230-245 | A character of the announced length, or what came before the byte that broke it off, which is consumed. |
| Keys.KeyReader.HandleInputByte | patches/mui_terminal_adapter_ruby_on_bare_metal.rb:131-177 | The dispatch on the first byte. |
| Keys.KeyReader.GetKey | patches/mui_terminal_adapter_ruby_on_bare_metal.rb:90-94 | One call, or nil at the end of input. |
| Keys.KeyReader.ReadKeys | patches/mui_terminal_adapter_ruby_on_bare_metal.rb:90-245 | Repeated calls return the list of keys whose encodings were sent. |
| KeyInput.TakeReadyNeverWaits | kernel/uefi_console.c:146-148 | After the first key a read polls only while keys arrive: every poll but the last finds a key. |
| KeyInput.ReadDelivers | kernel/uefi_console.c:142-150 | A read delivers between 1 and len bytes, the oldest keystrokes first. |
| KeyInput.ReadTakesAllReady | kernel/uefi_console.c:142-150 | A read that returns less than it was asked for has found no further key. |
| KeyInput.FirstInFirstOut | kernel/uefi_console.c:118-150 | Over any mixture of calls, bytes delivered and keys still waiting are the keystrokes in order of arrival, none lost, none twice. |
| KeyInput.Keyboard.DataReadyCall | kernel/uefi_console.c:118-126 | The call fills the look-ahead slot at most once. |
| KeyInput.Keyboard.WaitForKey | kernel/uefi_console.c:129-134 | The polling loop consumes exactly the answers up to the first key, and stores that key. |
| KeyInput.Keyboard.GetcCall | kernel/uefi_console.c:128-140 | The pending key, or the first one to arrive, translated. |
| KeyInput.Keyboard.ReadCall | kernel/uefi_console.c:142-150 | The loop computes the specified read. |
| Boot.FirstHalfGigabyte | boot/boot.S:62-73 | Only addresses below 512 MB select the entries that are filled. |
| Boot.WalkIsIdentity | boot/boot.S:53-73 | The four-level walk maps every address below 512 MB to itself, present and writable, and no other canonical address. |
| Boot.ArenaIsMapped | compat/ruby_on_bare_metal_syscall.c:22-27 | Every address of the mmap arena is mapped to the same RAM address. |
| Boot.ClearBss | boot/boot.S:45-51 | Every doubleword of the BSS is zero, no other is changed. |
| Boot.FillDirectory | boot/boot.S:62-73 | The register loop writes 256 entries, with carry into the upper half, and nothing else. |
| Boot.BuildTables | boot/boot.S:45-73 | Clearing and filling leave exactly the three tables of the identity mapping, and nothing outside of the BSS changes. |

## Left out

- Raycast.CastRay: the geometry is that of the ray with components below 1e-9 taken for zero, as the code takes them; it is not stated when both are, or when a ray parallel to an axis starts at a distance strictly between 0 and 6.4e-20 from its next line, which the code may cross. Floating-point infinity is a value of its own.
- Heap.Allocator.BumpAlloc: requires an admissible request and a power-of-two alignment; on other requests the C code writes outside of the heap, and Heap.IntendedExactlyWhenAdmissible says which they are.
- Heap.Allocator.Run: sizes are below half of the address space, and clients store only into payloads they were given.
- Arena.StepKeepsValid: lengths are small enough not to wrap, and a growing mremap copies from memory handed out before.
- LineEditor.Shell.ReadLine: input is 7-bit and the line is not wrapped at the edge of the screen; bytes from 0x80 on are single characters to the code and parts of one to a terminal.
- LineEditor.Shell.MainLoop: what commands and evaluated expressions do is a parameter; they do not change the history.
- Loader.Kernel.Eval: a file is the list of its load calls; the store does not change during a load, and the original require and require_relative find nothing more.
- Loader.Kernel.Load: the marks are exact when no name used stands for two stored files.
- Console.Driver.ParseByte: numbers stay below 2^31 and a rendition has at most eight parameters, the bounds within which the C code is defined; a console device is attached.
- Adapter.TerminalAdapter.Draw: coordinates stay below 2^31 - 1 and text is printable ASCII; 256-colour output, whose parameters the console reads as other codes, and the alternate screen are left out.
- Keys.DecodingInvertsEncoding: a bare ESC is not among the keys, because the byte after it is stored and never delivered.
- KeyInput.Keyboard.GetcCall: the device answers with a key or with not ready, and a key arrives when one is waited for.
- Files.Descriptors.SysRead: what the serial line delivers on descriptor 0 is a parameter.
- Glob.Glob: patterns contain no regular-expression syntax but the dot and the two wildcards.
- Boot.BuildTables: the rest of the switch to 64-bit mode, control registers, descriptor tables and the far jump, is hardware state.
- Port I/O, timers, serial output, panic and the UEFI loader: hardware effects.
- CRuby, musl, mui, the pthread stubs and the system calls that return constants: nothing of this repository to prove.
- kernel/memory.c: a simpler bump allocator without headers, it would only add easy members.
- Shading, frame text and floating-point rounding of the demo, and sine and cosine beyond their bounds.
