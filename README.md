# elf-test signature bounds, modelled in Dafny

The elf-test runner takes a RISC-V compliance-test ELF binary and runs it on
the OpenVM SDK. Before it runs the binary, it looks up the "signature" region,
the memory range where the test writes its results. That region is bounded by
the symbols `begin_signature` and `end_signature`. This project models the lookup
(`find_signature_bounds`) and the decisions `main` makes around it. It then
proves what the lookup returns and how `main` reacts.

- `wrappers.dfy` (module `Wrappers`): `Option`.
- `elf_symbols.dfy` (module `ElfSymbols`): the parsed symbol table as a
  sequence of entries. Each entry has a name, which may fail to decode, and a
  64-bit address. The file also defines the reference function `LastAddress`:
  the address, truncated to 32 bits, of the last entry with a given name. The
  lemmas cover scanning a concatenation, ignored entries, keeping only
  the sentinel entries, and the high address bits.
- `signature_bounds.dfy` (module `SignatureBounds`): `FindSignatureBounds` is
  the `for` loop over the symbols. It updates two optional addresses and ends
  with the `begin < end` check. It is proved equal to the specification
  `Bounds`, and the lemmas state what `Bounds` means.
- `elf_test_main.dfy` (module `ElfTestMain`): collecting the arguments, the
  argument check, the region size `end - begin`, the choice between executing
  with and without signature capture, and `RunElfTest`, which combines them up
  to the point where `main` hands over to the decoder. Reading a file is a
  parameter `read` from path to parsed contents: `None` means the read failed.

When a sentinel name occurs more than once, the code assigns on every match,
so the **last** occurrence wins. ELF files are not expected to repeat these
names, so one might expect the first occurrence to win; the code keeps the
last, and so does the model. `DuplicateBeginLastWins` gives a table where the
two readings differ.

Three edge cases of `main` are modelled as written:
- `env::args()` panics while collecting if an argument is not valid Unicode,
  before the argument count is checked (`NonUnicodeArgument`).
- If the argument vector is empty, `args[0]` in the usage message panics
  instead of exiting with code 1 (`EmptyArgv`).
- `end - begin` is a checked `u32` subtraction. An overflow would panic
  (`SizeOverflow`), but `RunElfTest`'s contract proves that this never happens.

## Model

| member | source | states |
|---|---|---|
| ElfSymbols.Truncate | elf-test/src/main.rs:23-25 | `address as u32` leaves addresses below 2^32 unchanged and otherwise differs from the address by a multiple of 2^32 |
| ElfSymbols.LastAddress | elf-test/src/main.rs:20-26 | a found address is the truncated address of an entry whose name decodes to the wanted name and after which no entry has that name |
| ElfSymbols.LastAddressAbsent | elf-test/src/main.rs:17-26 | nothing is recorded for a name exactly when no entry's name decodes to it |
| ElfSymbols.LastAddressIsLastEntry | elf-test/src/main.rs:20-26 | the last entry with the name determines the recorded address: the later assignment overwrites the earlier ones |
| ElfSymbols.LastAddressAppend | elf-test/src/main.rs:20-26 | scanning s then t records t's hit if t has one, otherwise s's, so later entries override earlier ones |
| ElfSymbols.IgnoredEntry | elf-test/src/main.rs:21-26 | inserting an entry with another or an undecodable name anywhere leaves the recorded address unchanged |
| ElfSymbols.SentinelEntries | elf-test/src/main.rs:22-26 | every entry of the result is named `begin_signature` or `end_signature` and comes from the table, every such entry of the table appears in it, and it is never longer than the table |
| ElfSymbols.SentinelEntriesMultiplicity | elf-test/src/main.rs:22-26 | each sentinel entry is kept exactly as often as it occurs in the table, and no other entry is kept |
| ElfSymbols.SentinelEntriesAppend | elf-test/src/main.rs:20-26 | filtering distributes over concatenation, so the sentinel entries keep their table order; with the multiplicity lemma this fixes the result to the in-order sentinel subsequence |
| ElfSymbols.SentinelEntriesSuffice | elf-test/src/main.rs:21-26 | for either sentinel name, scanning only the sentinel entries records the same address as scanning the whole table |
| ElfSymbols.LastAddressIgnoresHighBits | elf-test/src/main.rs:23-25 | two tables with equal names and equal low 32 address bits record the same address |
| SignatureBounds.Bounds | elf-test/src/main.rs:15-33 | the reference outcome: None for an unparsable file; a returned region has begin < end and holds the last-occurrence addresses of `begin_signature` and `end_signature` |
| SignatureBounds.FindSignatureBounds | elf-test/src/main.rs:12-34 | the loop over the symbols returns exactly `Bounds`: None for an unparsable file, otherwise the last-occurrence addresses of both sentinels when both exist and begin < end, else None |
| SignatureBounds.BoundsCharacterized | elf-test/src/main.rs:15-33 | a region (b, e) is returned if and only if the file parsed, b and e are the truncated addresses of the last `begin_signature` and last `end_signature` entries, and b < e |
| SignatureBounds.BoundsOrdered | elf-test/src/main.rs:30-32 | every returned region has begin < end |
| SignatureBounds.MalformedHasNoBounds | elf-test/src/main.rs:15 | an ELF file that fails to parse yields None |
| SignatureBounds.MissingSentinelHasNoBounds | elf-test/src/main.rs:17-32 | a table in which either sentinel never occurs yields None |
| SignatureBounds.IrrelevantEntryIgnored | elf-test/src/main.rs:20-28 | inserting or removing an entry whose name is neither sentinel, or does not decode, leaves the result unchanged |
| SignatureBounds.OnlySentinelsMatter | elf-test/src/main.rs:20-28 | the result depends only on the sentinel entries in table order |
| SignatureBounds.BoundsIgnoreHighBits | elf-test/src/main.rs:23-31 | the result, including the begin < end decision, depends only on the low 32 bits of each address |
| SignatureBounds.DuplicateBeginLastWins | elf-test/src/main.rs:20-32 | with begin at 0x10 and end at 0x40 the region is (0x10, 0x40); a later `begin_signature` at 0x50 replaces the first one and the result becomes None |
| SignatureBounds.TruncatedBeforeComparing | elf-test/src/main.rs:23-31 | begin at 0x1_0000_0010 and end at 0x20 give the region (0x10, 0x20): the comparison is made after truncation |
| ElfTestMain.CollectArgs | elf-test/src/main.rs:37 | the arguments are collected exactly when every one is valid Unicode, and then each collected string is the text of the argument at the same position |
| ElfTestMain.CollectOsArgs | elf-test/src/main.rs:37 | collecting arguments that are all valid Unicode returns them unchanged |
| ElfTestMain.ParseArgs | elf-test/src/main.rs:38-44 | the run proceeds exactly when there are at least two arguments, and an empty argument vector is told apart; the ELF path is argument 1, and the signature path is present exactly when argument 2 exists and is then argument 2 |
| ElfTestMain.ParseArgsRecovers | elf-test/src/main.rs:43-44 | the ELF path is argument 1 and the signature path is argument 2 when present; later arguments are ignored |
| ElfTestMain.CaptureChoice | elf-test/src/main.rs:85-97 | execution with capture is chosen exactly when a signature path was given, and captures to that path |
| ElfTestMain.CaptureIffThirdArgument | elf-test/src/main.rs:85-97 | execution captures the signature, to argument 2, exactly when argument 2 exists |
| ElfTestMain.SignatureSize | elf-test/src/main.rs:54 | `end - begin` on u32 succeeds exactly when begin <= end, and then begin + size == end |
| ElfTestMain.FoundRegionHasPositiveSize | elf-test/src/main.rs:51-54 | for every region the scan returns, `end - begin` does not overflow, is positive, and begin + size == end |
| ElfTestMain.SixtyFourByteRegion | elf-test/src/main.rs:51-54 | signature symbols at 0x1000 and 0x1040 give a 64-byte region |
| ElfTestMain.RunElfTest | elf-test/src/main.rs:36-62 | `main` up to the decoder: it never panics on the size subtraction; when it hands over, it passes on the data read from the file named by argument 1, and the region the scan found in that data, with a positive size that takes begin to end |
| ElfTestMain.NonUnicodeArgumentPanics | elf-test/src/main.rs:37 | an argument that is not valid Unicode makes `main` panic before anything else, whatever the file holds |
| ElfTestMain.ShortArgsStop | elf-test/src/main.rs:38-41 | with one (valid) argument the program exits with code 1; with none it panics while printing the usage message; nothing is read |
| ElfTestMain.MissingRegionAborts | elf-test/src/main.rs:48-52 | when the scan finds no region in the file named by argument 1, the program panics before decoding or executing anything |
| ElfTestMain.HandsOverIffRegionFound | elf-test/src/main.rs:36-97 | `main` reaches the decode/transpile/execute stage if and only if every argument is valid Unicode, there are at least two, the file named by argument 1 is read and a region is found in it; it then passes on the data read, that region, its exact positive size, and capture to argument 2 exactly when it exists |

## Left out

- Parsing the ELF bytes (`object::File::parse`) and decoding symbol names are external crates. The model takes as input the parse outcome and, for each entry, either a decoded name or a decode failure.
- The ELF decoder (`Elf::decode` with base 0x80000000), the transpiler with its RV32I, RV32M and IO extensions, `VmExe::from_elf`, the VM configuration and SDK execution are external crates whose code is not part of this model. `HandOver` records what `main` passes on to them: the data read (for `Elf::decode`), the region and its size, and the capture choice. Their failures, returned through `?`, are not modelled.
- Setting `RISC0_SIG_BEGIN_ADDR` and `RISC0_SIG_SIZE` in the process environment is not modelled. Their values are the region's begin and size, which `HandOver` carries.
- Reading the file is a parameter `read` from path to parsed contents: `None` stands for a failed `fs::read`. The bytes themselves are not modelled, only their parse outcome. Printing to stdout and stderr is not modelled.
- The size `end - begin` follows the overflow check of a debug build. A release build would wrap instead. No returned region can reach that case.
- transpile_elf.rs is not part of this model. It checks the argument count, appends `.vmexe` to the path, and calls the same external decoder, transpiler and writer.
