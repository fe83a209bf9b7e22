# Verified model of the kernel's page tables, device tree reader and formatter

This project models three parts of the kernel and proves what they are for. `dfyconfig.toml` names its files for
`dafny verify dfyconfig.toml`.

**Page tables over the page allocator** (`src/mmu.c`, `src/pages.c`, `include/mmu.h`). `KernelMemory.Machine` is the
kernel's state: one flat memory of 64-bit words, the head of the free list and the MMU bit. The free list is threaded
through the free pages themselves, and the page tables are pages the allocator handed out. Ghost fields name the free
pages, the held pages, the tables by their place and the active root; `Valid` ties them to the words in memory and, with
the MMU on, makes the active root show physical memory in its upper half. `Keeps` is the frame of every mapping: only
words of tables below its root change, old tables hang where they hung, and upper halves of roots stay. `PageTables` states the
theory on index triples, so it holds for any way to cut indices out of an address; `PageIndices` says what the code's own
masks make of an address; `Sv39` is the hardware walk of the RISC-V Privileged Architecture 20211203, sections 4.3.2
and 4.4; `KernelPageTable` reads an address space as a finite map and verifies the table the kernel starts with and the
start itself; `KernelRuns` executes any legal sequence of requests.

**Flattened device tree reader** (`src/drivers/devicetree.c`). `FdtFormat` has an abstract tree, the predicate that a
tree lies at an offset of a blob, and a flattening function (Devicetree Specification v0.4, sections 5.2 to 5.6).
`FdtCursor`, `FdtIterators`, `FdtTraversal`, `FdtNames` and `FdtLookup` verify the cursor loops against the tree. The
readers keep no stack; their proofs carry one as a ghost.

**Formatting engine** (`include/nanoprintf.h`, in the header's default configuration at lines 113-123). `FormatSpec` is
the parser of format specifications and `FormatGrammar` the language it accepts, stated without its stages, with a printer
as its partner; `Digits` the integer digits; `FloatDigits` and `FloatBuffer` the binary-to-decimal converter,
`FloatMeaning` the shape of its numbers, and `FloatScaling`, `FloatSmall`, `FloatLarge` and `FloatAccuracy` their distance
from the double; `Conversions` the fields, `FieldLaws` what the parts of a specification and the arguments decide about
them, `ReadBack` a scanner that reads printed integers back, and `Printf` the two entry points. The kernel itself is built
with most of these options off (`src/console.c:7-13`), so the results about width, precision and floats concern the header
rather than the kernel binary.

Conventions. A machine word is a natural number below 2^64; every mask of the sources is a run of adjacent bits, so
`&`, `|`, `<<` and `>>` appear as remainders, sums and quotients. Where C wraps or truncates (unsigned shifts of page
table entries, `short` and `char` casts, negation of the most negative integer, the 32-bit mantissa of the float
converter) the model writes it out. A handle is an offset into the blob or an address; NULL is `None`. A panic is a
precondition: the free list must not run empty.

## Findings

- **Index masks.** `PTE_MASK` has five bits instead of nine and the leaf index is cut with a 12-bit mask. The indices are
  Sv39's exactly on the domain `PageIndices.InDomain` (below 2^32, bits 21-23 and 26-29 zero), where the kernel is linked
  (`PageIndices.IndicesAreSv39`). Where bits 26-29 are not zero, pages 64 MiB apart share an entry
  (`PageIndices.CollisionsExactly`, `PageIndices.CollisionExample`).
- **Aliases.** With the MMU on, `alloc_page` returns the page's address with bit 38 set, because `virt2phys` keeps that
  bit. The pointer to a new table leads the hardware to it if and only if the MMU was off at its allocation
  (`Sv39.AliasMisleadsHardware`, `Sv39.AliasExample`); below a root built with the MMU off, `mmu_map` keeps hardware and
  `mmu_entry` on one path if and only if the MMU is off or no table was missing (`KernelMemory.HardwarePath`).
- **Names.** `fdt_name_iter` refuses names of 32 characters and accepts an `@` with nothing behind it, unlike the comment
  above it, and agrees with it everywhere else (`FdtNames.DocumentedExactly`, `FdtNames.DocumentedExamples`).
- **Paths.** `fdt_validate_path` accepts a slash behind the last name, unlike the comment above it, and agrees with it
  everywhere else (`FdtNames.TrailingSlashExactly`, `FdtNames.TrailingSlashExample`).
- **Precision of characters.** A precision above 1 pads `%c` and `%%` with zeros (`Printf.PrecisionPadsCharacters`,
  `Printf.PaddedCharacter`).
- **Precision `.-n`.** It is no precision, and strings, floats and pointers ignore its digits; but integers are padded to
  n digits (`Printf.DashPrecision`, `Printf.DashExample`).
- **`%.0f`.** Its result is the magnitude rounded half up except within 2^-33 below one half or below one
  (`FloatMeaning.PrecisionZeroExactly`): a 32-bit sum wraps, and the largest double below 1 prints as `0`
  (`FloatMeaning.JustBelowOne`).

## Model

| member | source | states |
|---|---|---|
| KernelMemory.Machine.InitPageAlloc | src/pages.c:16-27 | the free list holds exactly the whole aligned pages of the region, each once, and no other memory changes |
| KernelMemory.Machine.AllocPage | src/pages.c:32-50 | the head of the list changes hands; it was not held before; a cleared page is all zero; only that page's words change; list, pool and tables stay sound |
| KernelMemory.Machine.FreePage | src/pages.c:53-57 | a held page that is no table comes back to the front of the list; one word changes; everything stays sound |
| FreeList.ChainIsUnique | src/pages.c:11-13 | a free list in memory stands for one sequence of pages only, so it is finite and determined by its head |
| KernelRuns.EveryRunKeepsPool | src/pages.c:16-57 | over every run of allocations, legal frees, new roots and mappings, free and held pages partition the same region, the list has no duplicates, tables stay where they are, and no table page is free |
| KernelRuns.HeldUntilFreed | src/pages.c:32-57 | until it is freed, a page handed out is at no point of any run on the free list or a page table, so it is never handed out twice |
| KernelRuns.Run | src/mmu.c:29-130 | executes any legal run on memory: it ends in the free list, held pages and tables the requests amount to; each address space is the map its own mappings make of it, in order; no word of a page held throughout changes |
| PhysicalMemory.ReturnedAlias | include/mmu.h:21-23 | what `alloc_page` returns for a page: the page itself exactly when the MMU is off, its bit-38 alias otherwise |
| PageIndices.IndicesAreSv39 | src/mmu.c:34-36 | below 2^32 both readings of the overflowing mask agree; the indices are the Sv39 fields if and only if the address is in the domain, and the leaf index stays in its table if and only if bits 21-23 are zero |
| PageIndices.IndicesInjective | src/mmu.c:34-54 | on the domain two addresses have the same indices if and only if they lie in the same page |
| PageIndices.CollisionsExactly | src/mmu.c:6-7 | off the domain, exactly when two addresses share an entry although their pages differ |
| PageIndices.CollisionExample | src/mmu.c:6-7 | two pages that share an entry |
| PageTables.WalkFollowsForest | src/mmu.c:29-55 | in a forest of tables the walk ends at the slot of the lowest table if there is one, and nowhere otherwise |
| PageTables.LinkTable | src/mmu.c:39-46 | hanging a cleared page below an absent entry keeps every table at one place and shares no page between two |
| PageTables.LinkKeepsEntries | src/mmu.c:39-46 | the zero fill of a new table and the pointer to it change no existing translation |
| PageTables.ForestSwitchedOn | src/mmu.c:87-92 | tables built with the MMU off stay walkable by `mmu_entry` when it is switched on |
| FreeList.ChainSwitchedOn | src/mmu.c:87-92 | a free list built with the MMU off visits the same pages when it is switched on |
| KernelMemory.Machine.SetMmu | src/mmu.c:87-92 | making a root active that shows physical memory in its upper half keeps free list, pool and page tables sound, so allocation and mapping may go on |
| KernelMemory.Machine.HardwareReaches | src/mmu.c:112-118 | with the MMU on, the hardware takes every pointer `make_accessible` returns to the physical address the model reads and writes |
| KernelMemory.Machine.MmuEntry | src/mmu.c:29-55 | returns the address of the entry of `v`, or NULL where a table is missing and none may be allocated; the missing tables, and only those, come off the front of the free list; no translation changes, only words of tables below this root change, old links and upper halves stay; without `alloc` nothing changes |
| KernelMemory.Machine.MmuMap | src/mmu.c:80-84 | afterwards the indices of `v` lead to the new leaf below this root, and all other indices, below all roots, lead where they did; only words of tables below this root change, so pages that callers hold and upper halves of roots do not; the hardware goes the same way if and only if the MMU is off or no table was missing |
| PageTables.LeafBits | src/mmu.c:80-84 | bit by bit, for every address and every flags: bit 0 of the stored entry is set, bits 1 to 7 are those of the flags, bits 8 and 9 are clear, and the page number stands above them |
| KernelMemory.Machine.MmuWalk | src/mmu.c:123-130 | returns the accessible address that the entry found gives, NULL if there is none or it is not valid, and changes nothing |
| PageTables.LinkKeeps | src/mmu.c:39-46 | hanging a table writes only its page and one entry, which gets the address `alloc_page` returned; every other link and every upper half stays |
| KernelMemory.DataUntouched | src/mmu.c:29-55 | whatever tables a mapping allocates, no word of a page held by a caller changes, and the page stays held |
| KernelMemory.HardwarePath | src/mmu.c:42-44 | below a root whose tables hang below their own addresses, the hardware goes through the tables `mmu_entry` goes through after a mapping if and only if the MMU is off or no table had to be allocated |
| KernelMemory.TableLinked | src/mmu.c:42-43 | allocation, clearing and linking of a table together keep free list, pool and forest sound and every translation |
| KernelPageTable.MapUpdatesSpace | src/mmu.c:80-84 | the page table refines a finite map: `mmu_map` is one update at the page of `v` and touches no other page and no other address space |
| KernelPageTable.WalkAfterMap | src/mmu.c:123-130 | after mapping `v` to `phys`, walking any address of v's page gives the page of `phys` at that address's offset, and any other address of the domain what it gave before |
| KernelPageTable.HardwareSeesMap | src/mmu.c:80-84 | below such a root the Sv39 walk of any address in the mapped page ends at the new leaf |
| KernelPageTable.IdentityMap | src/mmu.c:17-23 | exactly the pages that the range touches map to themselves with the flags, and all else in all address spaces is as before |
| KernelPageTable.MmuNewPageTable | src/mmu.c:59-76 | under the Sv39 walk every kernel address goes to itself, text with flag byte 0x29 (global, executable), rodata with 0x23 (global, readable), data with 0x27 (global, readable, writable); the rest of the low domain faults, every physical address below 2^38 is reached at its `phys2virt` with 0x27; it takes the root and the two tables from the front of the free list and nothing else, and no other address space and no word outside the new tables changes |
| KernelPageTable.Boot | src/kernel.c:30-37 | after the kernel's start exactly three pages of the region (one if its sections are empty) are held, as page tables, and all others are free; the hardware runs the kernel where it was and reaches every free page through the pointer the allocator uses; no word outside the region has changed |
| Sv39.WalkAgrees | src/mmu.c:25-55 | the hardware and `mmu_entry` end at the same entry for every address of the domain below a root whose tables hang below their own addresses |
| Sv39.HighHalf | src/mmu.c:67-73 | the gigapage entries take `phys2virt(p)` to p for every p below 2^38, readable, writable and global |
| Sv39.AliasMisleadsHardware | src/mmu.c:42-44 | the pointer made from what `alloc_page` returns for a page leads `mmu_entry` to the page always, and the hardware if and only if the MMU is off |
| Sv39.AliasExample | src/mmu.c:42-44 | a page for which the hardware looks 256 GiB too high |
| FdtFormat.FlattenRoundTrip | src/drivers/devicetree.c:33-43 | wherever the flattened bytes of a tree lie, that tree and no other lies there, whatever bytes its names and values hold |
| FdtFormat.FlattenedBlob | src/drivers/devicetree.c:74-88 | a header, NOPs, a flattened tree, NOPs and the end token make a blob of that tree |
| FdtFormat.FlattenedExample | src/drivers/devicetree.c:33-43 | the bytes of one tree with a NOP, a property and a child, each token and its padding spelled out |
| FdtCursor.SkipName | src/drivers/devicetree.c:105-109 | stops at the first word after the name and its padding |
| FdtCursor.SkipProperty | src/drivers/devicetree.c:112-117 | stops at the first word after the value and its padding |
| FdtCursor.SkipNode | src/drivers/devicetree.c:159-188 | for a subtree of any depth stops exactly after that node's own end token, whatever token-like bytes lie inside |
| FdtIterators.RootNode | src/drivers/devicetree.c:76-88 | skips leading NOPs and finds the root |
| FdtIterators.NodeIter | src/drivers/devicetree.c:128-155 | goes from each node to its successor in preorder and from the last to NULL |
| FdtIterators.ChildIter | src/drivers/devicetree.c:200-254 | after i direct children yields the next one in definition order, NULL after the last; never a grandchild or a sibling of the parent |
| FdtIterators.PropIter | src/drivers/devicetree.c:279-333 | after i own properties yields the next own one, also behind child nodes, and none of a descendant |
| FdtIterators.LocateNode | src/drivers/devicetree.c:128-155 | what follows a node in the blob, read through any number of enclosing nodes, is what follows it in preorder |
| FdtTraversal.AllNodes | src/drivers/devicetree.c:119-127 | the documented loop visits exactly the preorder of the tree |
| FdtTraversal.AllChildren | src/drivers/devicetree.c:190-199 | the documented loop visits exactly the direct children |
| FdtTraversal.AllProps | src/drivers/devicetree.c:269-278 | the documented loop visits exactly the own properties |
| FdtTraversal.PreorderAscends | src/drivers/devicetree.c:119-127 | offsets grow along the preorder and stay inside the subtree, so no node comes twice |
| FdtTraversal.Dump | src/drivers/devicetree.c:530-580 | the recursion visits the list `DumpOf`, which the next four rows pin: opens, properties, nesting |
| FdtTraversal.DumpOpensPreorder | src/drivers/devicetree.c:529-580 | the recursive traversal opens exactly the nodes the flat iterator yields, in the same order |
| FdtTraversal.DumpListsProperties | src/drivers/devicetree.c:530-580 | the properties the dump lists are, in order, the own properties of every node of the preorder, one node after the other |
| FdtTraversal.DumpReadsBack | src/drivers/devicetree.c:530-580 | read back by a parser of nested opens and closes, the dump is the tree: behind the open of a node stand its own properties, then the dumps of its children, then its own close |
| FdtTraversal.OutlineShows | src/drivers/devicetree.c:545-577 | what is read back shows exactly the properties of `fdt_prop_iter` and the children of `fdt_child_iter`, in order |
| FdtNames.NameIter | src/drivers/devicetree.c:341-383 | returns the length of the path component with its slash if the component is a valid name, and 0 if it is not |
| FdtNames.DocumentedExactly | src/drivers/devicetree.c:335-383 | code and comment agree on a component if and only if it is neither an otherwise valid name of 32 characters nor an otherwise valid shorter one that ends in its `@` |
| FdtNames.DocumentedExamples | src/drivers/devicetree.c:335-383 | a component of either kind |
| FdtNames.ValidatePath | src/drivers/devicetree.c:386-407 | accepts exactly a slash followed by valid components, with or without a trailing slash |
| FdtNames.TrailingSlashExactly | src/drivers/devicetree.c:385-407 | code and comment agree on a path if and only if it is not a documented path, other than the root's, with one slash more at its end |
| FdtNames.TrailingSlashExample | src/drivers/devicetree.c:385-407 | such a path |
| FdtNames.StepsPartition | src/drivers/devicetree.c:400-403 | the lengths the loop advances by partition the path after its first slash, one part a component |
| FdtNames.NameEqual | src/drivers/devicetree.c:410-430 | equal base names, and equal unit addresses if the path component has one |
| FdtNames.EqualUnits | src/drivers/devicetree.c:417-429 | for names with one `@` that comparison of unit addresses is equality |
| FdtLookup.NodePath | src/drivers/devicetree.c:435-465 | for a valid path the node reached by taking, at each component, the first child in definition order that answers to it; NULL if a layer has none or the path is invalid; it terminates |
| FdtLookup.SearchIter | src/drivers/devicetree.c:480-496 | the next node in preorder that answers to the name, from NULL the first other than the root |
| FdtLookup.NextNamedIsFirst | src/drivers/devicetree.c:489-493 | that node is the head of the filtered preorder: none before it answers |
| FdtLookup.SearchAll | src/drivers/devicetree.c:467-496 | repeated search yields exactly the preorder of non-root nodes filtered by name, in order, then NULL |
| FdtLookup.NodeProp | src/drivers/devicetree.c:500-514 | the first own property whose name in the strings block equals the query, NULL if there is none |
| FormatSpec.SpecBuffer.ParseFormatSpec | include/nanoprintf.h:392-553 | fills the fields of `ParseSpec`, which the next rows pin, and returns the length of the specification, 0 if it is none; never reads past the NUL |
| FormatGrammar.GrammarExactly | include/nanoprintf.h:392-553 | at a `%` the parser finds a specification if and only if a text of the grammar follows (any string of flags, an optional `*` or numeral, an optional point with `*`, digits or none and perhaps a `-`, an optional length modifier, a conversion letter); it takes exactly that text, and each part sets its field |
| FormatGrammar.Spelling | include/nanoprintf.h:401-498 | order and repetition of flags do not matter, `d` and `i` are the same, and the parts determine all fields |
| FormatGrammar.NothingElse | include/nanoprintf.h:457-550 | behind a whole length modifier anything but a conversion letter, as in `%llx`, makes no specification |
| FormatGrammar.ParsePrinted | include/nanoprintf.h:392-553 | parsing a printed specification, whatever surrounds it, takes exactly its characters and gives all its fields back |
| FormatGrammar.PrintParsed | include/nanoprintf.h:392-553 | printing what was parsed and parsing again is the identity, for everything the parser accepts |
| Digits.DigitsRoundTrip | include/nanoprintf.h:555-565 | the digits evaluate in the base back to the number, and no leading digit is zero but for zero itself |
| Digits.DigitsFit | include/nanoprintf.h:180-192 | any 64-bit number in base 8 or more takes at most 22 digits, so octal and its 0 fit 23 bytes |
| Digits.UtoaRev | include/nanoprintf.h:555-565 | writes those digits at the start of the buffer and nothing behind them |
| FloatBuffer.FtoaRev | include/nanoprintf.h:635-784 | for every double and every precision writes only inside the 64-byte buffer, and leaves the number or word of `FloatDigits.Convert`, which the next rows pin, with its length or negated length |
| FloatAccuracy.Accuracy | include/nanoprintf.h:666-776 | every number printed is near the magnitude of the double: within half a unit of the last place and 2^-30 from 1 to 2^32, half a unit and 10 - exponent parts in 858993458 below 1 (so subnormals print as zero), exponent - 29 parts in 2^30 from 2^32 on; if and only if the 32-bit sum of a `%.0f` does not wrap |
| FloatScaling.TurnsKeep | include/nanoprintf.h:732-747 | the loop that scales a fraction below exponent 0 keeps its value, as mantissa, pending bit, decimal place and exponent make it up together, up to one part in 858993458 a turn, wherever it ends |
| FloatScaling.LastTurns | include/nanoprintf.h:732-747 | from exponent 0 on the turns and the final addition of the pending bit change the fraction by at most eight units of 2^-33 |
| FloatScaling.FracDigitsValue | include/nanoprintf.h:754-763 | the digits printed and the rest left for rounding make up the scaled fraction exactly |
| FloatLarge.IntTurnsKeep | include/nanoprintf.h:683-695 | the loop that scales the integer part keeps mantissa, pending bit and decimal zeros together what the magnitude was, up to one part in 2^30 a turn |
| FloatAccuracy.TooLong | include/nanoprintf.h:646-705 | a finite double prints as a word only if the precision is too large or its integer part has more digits than the buffer has room for in front of a carry |
| FloatDigits.FracScaleFits | include/nanoprintf.h:732-747 | however the fraction starts, after scaling four integer bits hold its first digit: it is at most 9 |
| FloatMeaning.ConvertShape | include/nanoprintf.h:635-784 | every number printed is decimal digits with at most one '.', behind exactly `prec` digits, at least one integer digit, inside the buffer |
| FloatMeaning.RoundUpAddsUnit | include/nanoprintf.h:769-776 | the rounding loop adds exactly one unit at its starting digit, across runs of 9 and the '.', which stays in place |
| FloatMeaning.RoundUpFails | include/nanoprintf.h:769-776 | rounding gives up if and only if only 9s and the '.' fill the buffer to its end |
| FloatMeaning.SmallValue | include/nanoprintf.h:666-776 | below 2^32 the integer part printed is the exact floor of the magnitude; the number printed is that, a fraction, and at most one unit from rounding, and lies between floor and floor plus one |
| FloatMeaning.PrecisionZeroExactly | include/nanoprintf.h:716-765 | `%.0f` is the magnitude rounded half up if and only if the top 33 bits of its fraction are not all ones below one half or below one |
| FloatMeaning.JustBelowOne | include/nanoprintf.h:747-765 | the largest double below 1 prints as 0: the half-up reading fails there |
| Conversions.WidthLaw | include/nanoprintf.h:1119-1191 | every field is the width or, if larger, sign, prefix, zeros and body; with the `0` flag and no `-`, but for a zero with an explicit precision of 0, it is padded with zeros behind sign and prefix, otherwise with spaces on the side `-` says |
| FieldLaws.Settles | include/nanoprintf.h:867-925 | which arguments are width, precision and value; what negative ones mean; the default precisions; that an explicit precision switches the `0` flag of an integer off |
| FieldLaws.PaddedOutput | include/nanoprintf.h:867-1191 | a specification alone in a format, however it is spelled, prints a field of its width: spaces behind for `-` or a negative star width, zeros behind sign and prefix for `0` unless an integer has a precision, a float prints a word or a zero has precision 0, otherwise spaces in front |
| FieldLaws.CastLaw | include/nanoprintf.h:963-1066 | `h` and `hh` print the value that 16 and 8 bits, signed or unsigned, keep of the argument; `l` and no modifier print it as it is |
| FieldLaws.LeadLaw | include/nanoprintf.h:963-1105 | what stands before the digits: `-` for negative integers and floats with the sign bit, else the `+` or space asked for; `0x` or `0X` for an alternative hexadecimal other than zero; nothing otherwise |
| FieldLaws.NumeralsCase | include/nanoprintf.h:555-565 | a capital conversion prints capital letters only, any other small ones only |
| FieldLaws.TextLaw | include/nanoprintf.h:950-962 | a string is printed whole or up to its precision, a null pointer as nothing |
| FieldLaws.WordLaw | include/nanoprintf.h:643-784 | infinities print as inf, not-a-numbers as nan, finite numbers too long as err, in the case of the conversion, with no zeros of a precision |
| FieldLaws.FloatNear | include/nanoprintf.h:1087-1112 | the body a float conversion prints stands for a number near the argument, in the sense of `FloatAccuracy.Accuracy` |
| FieldLaws.ZeroExample | include/nanoprintf.h:1119-1129 | `%05d` of 42 prints 00042 |
| FieldLaws.StarExample | include/nanoprintf.h:867-883 | `%*.*d` of -5, 4 and 42 prints 0042 and a space |
| FieldLaws.HexExample | include/nanoprintf.h:1006-1066 | `%#X` of 171 prints 0XAB |
| ReadBack.IntegerReadsBack | include/nanoprintf.h:963-1066 | whatever flags, width and precision say, the field of an integer scans back as the argument, the most negative one included |
| ReadBack.DigitCount | include/nanoprintf.h:963-1146 | an integer has at least as many digits as the precision; no leading zero of its own but the one 0 of octal form; none at all exactly for a zero with precision zero, which octal form prints as one 0 |
| ReadBack.FormatReadsBack | include/nanoprintf.h:854-1195 | a printed integer specification, run as a format with its star arguments, leaves text that scans back as the argument |
| ReadBack.FloatPoint | include/nanoprintf.h:884-900 | a float printed as a number has exactly `prec` digits behind its point, six by default, and no point where there are none unless the alternative form asks for it |
| Printf.PrecisionPadsCharacters | include/nanoprintf.h:1134-1146 | `%c` and `%%` put one character if and only if the precision is at most 1, and zeros in front of it otherwise |
| Printf.PaddedCharacter | include/nanoprintf.h:1134-1146 | `%.3c` of a character prints two zeros before it |
| Printf.DashPrecision | include/nanoprintf.h:884-906 | the digits of `.-n` are no precision for strings, floats and pointers, but pad integers, which differ from unpadded ones if and only if n exceeds their digits |
| Printf.DashExample | include/nanoprintf.h:884-906 | `%.-5d` of 42 prints 00042 |
| Printf.PutField | include/nanoprintf.h:1119-1191 | the characters put, in the code's order of sign, "0x", padding, zeros and reversed payload, are the field |
| Printf.Convert | include/nanoprintf.h:940-1117 | buffer, sign, prefix and changed specification after the conversion switch are those of the converted argument |
| Printf.VPrintf | include/nanoprintf.h:854-1195 | exactly the output of the format goes to the sink, and the result is its length |
| Printf.CountIsSum | include/nanoprintf.h:862-1195 | the count is the sum, over the whole format, of one for each plain character and the larger of width and field content for each conversion |
| Printf.PrintedSpecOutput | include/nanoprintf.h:862-866 | inside any format a printed specification yields its field, and the rest of the format continues with the arguments left |
| Printf.SpecOutput | include/nanoprintf.h:862-866 | so does any text of the grammar, by what its parts mean |
| Printf.LonePercent | include/nanoprintf.h:862-865 | a `%` that no text of the grammar follows prints itself |
| Printf.LetterI | include/nanoprintf.h:498-499 | `%i` of 42 prints 42 |
| Printf.PlainOutput | include/nanoprintf.h:862-865 | a format without '%' prints itself |
| Printf.Sink.PutC | include/nanoprintf.h:827-844 | counts the character, and stores it behind what is there unless the buffer is full or missing; the rest of the buffer keeps its old contents |
| Printf.VSnprintf | include/nanoprintf.h:1201-1222 | refines the unbounded printer (section 7.21.6.5 of C11): the buffer holds the first min(n, size - 1) characters, a NUL, and behind it its old contents; the full length is returned, also for a null buffer or size 0 |

## Left out

- KernelMemory.Machine.InitPageAlloc: requires at least one whole page in the region, because the code computes `count - 1` on an unsigned number; the region lies below 2^38.
- KernelMemory.Machine.MmuEntry: takes addresses whose leaf index stays inside the table (below 2^32, bits 21-23 zero); beyond, the code reads behind the table. Superpage leaves in the lower half, which the code never makes, are excluded by `Valid`.
- KernelPageTable.MmuNewPageTable: the kernel's sections lie in one 2 MiB region of the domain and on page boundaries, as `kernel.ld` puts them, and the MMU is off.
- KernelRuns.Run: the requests are calls of the kernel; stores of callers into their own pages are not among them, and a new address space is its root alone.
- KernelMemory.Machine.MmuWalk: the code keeps only the low 12 bits of the address, so it does not translate through the gigapages; claims about the upper half are about the Sv39 walk.
- FdtLookup.NodePath: a null `tree` argument, for which the functions return NULL at once, is not modelled.
- FdtNames.NameEqual: compares a node's unit address up to a second `@`, as the code does; well-formed names have one.
- FdtTraversal.Dump: keeps the order of visits; the text layout, and the start at the root for an invalid node, are left out.
- FloatAccuracy.Accuracy: bounds the error; the exact digits beyond it, which depend on the 32-bit mantissa, are those of `FloatDigits.Convert`.
- FloatAccuracy.TooLong: one direction; a number one digit short of the buffer fits unless its rounding carries into a new digit.
- FdtTraversal.DumpReadsBack: the parser it reads the visits with belongs to the statement, not to the kernel.
- Printf.VPrintf: width, precision and count are unbounded integers; in C they overflow above INT_MAX, and so does the negation of a star width INT_MIN.
- Printf.Convert: `va_list` mechanics and the cast of a double to its bits; arguments are a typed list, doubles bit patterns, and `long double` is converted by the caller. Conversions the default configuration switches off (binary, write-back, large modifiers) are out.
- Set-up of `satp`, TLB fences, accessed and dirty bits and permission faults: one boolean and the active root stand for the MMU.
- Malformed or truncated blobs: the readers do not check sizes; `fdt_validate` and the memory reservation count only read header words. Tokens are read big-endian; the byte-swap macros are not modelled.
- Concurrency: the allocator has no synchronisation; one sequential actor is modelled.
- Console, SBI calls, logging, assembly and the interrupt handler: input and output, register saving, and a handler that always panics.
