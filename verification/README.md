# The DWARF reader, modelled and proved in Dafny

libdwarf reads debugging information: trees of debugging information entries (DIEs)
in compilation units, call-frame programs that tell how to unwind a stack, location
expressions, and the LEB128 numbers everything is written in. This project models
the parts of `libdwarf/` with the most state and proves what they are for.

| file | what it models |
|---|---|
| `Common.dfy`, `Words.dfy` | 64-bit arithmetic, result types, fixed-width little-endian numbers |
| `Leb.dfy` | the LEB128 skipper, the two decoders with their unrolled first bytes, the two encoders writing into a buffer |
| `IntBlock.dfy`, `Discr.dfy` | two-pass readers of LEB128 sequences: integer blocks and discriminant lists |
| `DieWalk.dfy` | next DIE, sibling, child, sibling validation on a flat preorder byte stream |
| `CuList.dfy` | the lazily grown linked list of unit contexts with its cursor, and the three operations that grow it |
| `FrameVm.dfy` | call-frame instructions: decoding, the effect of each, execution with and without a pc searched for |
| `FrameCode.dfy` | the instruction encoding of section 7.24 of DWARF 5 and its round trip through the decoder |
| `FrameRules.dfy` | what a rule means to a consumer, and which instructions make the rule DWARF promises |
| `FrameRows.dfy` | the row table of section 6.4.1 of DWARF 5, search and stepping in it, remember/restore bracketing |
| `FrameExpand.dfy` | instruction listing, what a listed record means, replay |
| `FrameExec.dfy` | the executor as it runs: a register array edited in place and a linked stack of saved rows |
| `FrameMemo.dfy` | register lookup at a pc with the initial row kept per CIE and the last row kept per FDE |
| `FdeList.dfy` | the scan of a frame section into CIEs and FDEs, and the binary search by pc |
| `FrameSection.dfy` | frame sections as producers write them, and their round trip through that scan |
| `LocExpr.dfy` | the location-operation reader |
| `LocNames.dfy` | the operations by name, as section 7.7.1 of DWARF 5 encodes them, and their round trip through the reader |
| `Harmless.dfy` | the ring of harmless error messages |

Code that changes things step by step is a method or a class proved against a
specification function (`Leb.DecodeLeb128` against `Leb.ReadU`,
`FrameExec.ExecFrameInstr` against `FrameVm.Exec`, `CuList.InfoReading.NextCuHeader`
against `CuList.NextHeader`, and so on); the theorems are about those functions.
Pointers into a section are offsets, and the bytes up to an end pointer are a
sequence. The 64-bit wrap-around of C's unsigned arithmetic is written out.

## Where code, documentation and the standard disagree

The code is followed in each case.

- `dwarf_decode_leb128` accepts no number of eleven or more bytes, zero padding
  included, although its comment (libdwarf/dwarf_leb.c:72-77) expects padding to be
  skipped; the signed decoder does accept padding up to 24 bytes
  (`Leb.ReadersAgree`, `Leb.PaddedZeroRefused`).
- The length of an integer block goes through an `int`: the round trip holds exactly
  below 2^31 bytes (`IntBlock.RoundTrip`, `IntBlock.TooManyZeros`).
- A `DW_AT_sibling` that names its own DIE passes the test for pointing backwards. A
  call of `dwarf_siblingof_b` that comes to such a DIE below depth zero does not
  return, and no other call fails to (`DieWalk.SiblingLoopsIff`,
  `DieWalk.SelfSiblingLoops`).
- Locations of rows ascend, and stepping from row to row comes by all of them, exactly
  when no advance wraps at 64 bits and no `DW_CFA_set_loc` goes back to 0, where the
  order test is switched off (`FrameRows.TableAscendsIff`, `FrameRows.StepThroughAll`).
  A search finds the last row at or below its pc, for every pc, exactly when no move
  from beyond the initial location does so (`FrameRows.SearchIsLastIff`,
  `FrameRows.RowsCanGoBack`).
- `DW_CFA_val_offset_sf` changes register 0 whatever register it names, and
  `DW_CFA_val_offset` is listed with a signed operand left over from before
  (`FrameExpand.ValOffsetSfMisdirected`, `FrameExpand.RecordMeans`).
- Expression rules keep the register number of the rule before. Read as
  libdwarf/libdwarf.h:289-358 describes, register number first, a register that was
  at "same value" or "undefined" still is (`FrameRules.MakesTheRule`,
  `FrameRules.ExpressionUnread`).
- When the instructions of a CIE fail, its initial table stays behind with default
  rules: the first lookup reports the error, later ones answer
  (`FrameMemo.AnswersFreshIff`, `FrameMemo.BrokenExample`).
- When FDEs overlap, the binary search finds a pc exactly if one of the FDEs it looks
  at on its way covers it (`FdeList.SearchFindsIff`, `FdeList.OverlapMisses`).
- The id field of an FDE is sign-extended (libdwarf/dwarf_frame2.c:1322-1327), so a
  32-bit `.debug_frame` section whose FDE points to a CIE at 2^31 or beyond is refused;
  every other written section is listed (`FrameSection.SectionReadsBack`,
  `FrameSection.FarCie`).
- The end of an FDE is a 64-bit sum: one that reaches the end of the address space
  covers nothing (`FdeList.CoversIff`).
- `DW_OP_GNU_variable_value` does not advance the offset over its operand, and the
  operand of `DW_OP_GNU_encoded_addr` is read at its length byte
  (`LocExpr.VariableValueStays`, `LocExpr.EncodedAddrShifted`).

## Model

| member | source | states |
|---|---|---|
| Leb.SkipLeb128 | libdwarf/dwarf_leb.c:85-114 | the skipper returns the length of the number if it ends within 24 bytes and the data, and otherwise an error |
| Leb.DecodeLeb128 | libdwarf/dwarf_leb.c:117-221 | unrolled first bytes and general loop together read exactly the numbers that end within ten bytes, reduced to 64 bits, with their length |
| Leb.DecodeSignedLeb128 | libdwarf/dwarf_leb.c:225-327 | the signed decoder equals its specification on every byte string, padded tails beyond ten bytes included |
| Leb.EncodeLeb128 | libdwarf/dwarf_leb.c:335-358 | the bytes of the encoding are written in place and nothing behind them is touched; too little space is an error with the front part written |
| Leb.EncodeSignedLeb128 | libdwarf/dwarf_leb.c:359-391 | the same for signed values |
| Leb.RoundTripU | libdwarf/dwarf_leb.c:117-221 | every 64-bit unsigned value encodes to at most ten bytes and decodes from them, followed by anything, to the same value and length |
| Leb.RoundTripS | libdwarf/dwarf_leb.c:225-327 | the same for every 64-bit signed value, extremes included |
| Leb.OneByte | libdwarf/dwarf_leb.c:136-141 | the one-byte shortcut of the decoder is the general reading |
| Leb.TwoBytes | libdwarf/dwarf_leb.c:142-156 | so is the two-byte shortcut |
| Leb.UnsignedExactWhenItFits | libdwarf/dwarf_leb.c:117-221 | an encoding of at most ten bytes, padded or not, is read as the number it denotes if and only if that number fits 64 bits |
| Leb.SignedExactWhenItFits | libdwarf/dwarf_leb.c:225-327 | the same for the signed decoder and signed numbers |
| Leb.SignExtension | libdwarf/dwarf_leb.c:305-321 | up to nine bytes, or-ing in the bits above the data gives the two's complement reading |
| Leb.LongNumber | libdwarf/dwarf_leb.c:247-321 | what the signed decoder makes of numbers of ten to 24 bytes: bits beyond 64 are lost, the sign bit of the last byte decides bit 63 |
| Leb.LongValue | libdwarf/dwarf_leb.c:247-321 | the same as numbers: 64 bits are kept, and the sign bit of the last byte makes the number negative whatever bit 63 was |
| Leb.Unreadable | libdwarf/dwarf_leb.c:247-304 | where the signed decoder fails: end of data, 24 bytes, or a tail byte that is neither padding nor a terminator |
| Leb.ReadersAgree | libdwarf/dwarf_leb.c:85-327 | unsigned decoding succeeds iff the skipped length is 1 to 10; whenever a decoder succeeds the skipper gives the same length |
| Leb.AcceptedIff | libdwarf/dwarf_leb.c:85-327 | which byte strings each of the three readers accepts, byte by byte: lengths up to 24, 10, and 24 with the padding allowed beyond ten |
| Leb.ReadsOn | libdwarf/dwarf_leb.c:117-327 | what is decoded does not depend on what follows |
| Leb.PaddedZeroRefused | libdwarf/dwarf_leb.c:170-196 | zero with ten bytes of padding denotes 0; the unsigned decoder refuses it, the signed one reads it, the skipper takes eleven bytes |
| Leb.SameBits | libdwarf/dwarf_leb.c:117-327 | within nine bytes both decoders see the same bits and differ by the weight of the sign bit |
| Leb.EncUShortest | libdwarf/dwarf_leb.c:335-358 | no shorter byte string denotes the value, and no other one of that length does |
| IntBlock.UncompressIntegerBlock | libdwarf/dwarf_form.c:160-238 | counting pass and filling pass produce exactly the expansion, and the second pass never fails |
| IntBlock.ExpandCompress | libdwarf/dwarf_form.c:177-237 | concatenated signed encodings of any list of 64-bit values expand to that list, whatever follows |
| IntBlock.ExpandPrefix | libdwarf/dwarf_form.c:177-237 | whatever length is claimed, only the prefix of the list with exactly that length can come back |
| IntBlock.RoundTrip | libdwarf/dwarf_form.c:160-238 | the whole call gives the list back if and only if the block is shorter than 2^31 bytes |
| IntBlock.TooManyZeros | libdwarf/dwarf_form.c:160-238 | 2^31 zeros make a block of 2^31 bytes whose expansion is an error |
| Discr.CountEntries | libdwarf/dwarf_dsc.c:62-170 | the counting pass gives the number of entries, or an error exactly when the block does not parse |
| Discr.GetDscLebEntries | libdwarf/dwarf_dsc.c:62-170 | the filling pass records every entry of one reading and leaves the fields of the other reading alone, also when it fails |
| Discr.BothReadings | libdwarf/dwarf_dsc.c:62-170 | on blocks with descriptors 0 or 1 and LEBs of at most nine bytes the signed and unsigned readings both succeed and agree on entries and types |
| Discr.AgreeableOne | libdwarf/dwarf_dsc.c:88-155 | entry by entry the two readings take the same bytes |
| Discr.ListReadBack | libdwarf/dwarf_dsc.c:88-155 | every list of labels and ranges, encoded as section 7.20 of DWARF 5 says, parses to these labels, low and high bounds, signed or unsigned |
| Discr.DiscrList | libdwarf/dwarf_dsc.c:172-237 | no entry for an empty block, error iff the block does not parse, otherwise a head to load either reading from |
| Discr.DscHead.EntryU | libdwarf/dwarf_dsc.c:243-281 | low and high values are those of the unsigned reading whatever was loaded before; on agreeable blocks it always succeeds |
| Discr.DscHead.EntryS | libdwarf/dwarf_dsc.c:285-323 | the same for the signed reading |
| DieWalk.DieReader.NextDieInfoPtr | libdwarf/dwarf_die_deliv.c:2079-2311 | the step from a DIE, past its attributes or along DW_AT_sibling, with its order and range tests |
| DieWalk.DieReader.SiblingOf | libdwarf/dwarf_die_deliv.c:2430-2573 | the loop with its single depth counter finds the next DIE at depth zero, no entry or error, as the recursive search does |
| DieWalk.DieReader.SkipToNonNull | libdwarf/dwarf_die_deliv.c:2683-2739 | the last-DIE pointer ends at the next byte that is not zero, or at the end of the unit |
| DieWalk.DieReader.ChildOf | libdwarf/dwarf_die_deliv.c:2645-2782 | the child found and the last-DIE pointer left behind |
| DieWalk.DieReader.ValidateDieSibling | libdwarf/dwarf_die_deliv.c:1965-1987 | accepted exactly if the last dwarf_child stopped at the sibling; otherwise where it stopped |
| DieWalk.SiblingInOneStep | libdwarf/dwarf_die_deliv.c:2079-2643 | on any bytes, dwarf_siblingof_b for a DIE with DW_AT_sibling or without children: an error if it cannot be read or leads backwards or out of the unit, otherwise what stands where it leads |
| DieWalk.ChildIs | libdwarf/dwarf_die_deliv.c:2645-2782 | on any bytes, exactly when dwarf_child fails, what it finds otherwise, and where the last-DIE pointer is left |
| DieWalk.OverSubtree | libdwarf/dwarf_die_deliv.c:2450-2561 | walking over a laid-out subtree comes out just past it at the same depth, with DW_AT_sibling on any of its DIEs followed or not |
| DieWalk.SiblingIsNext | libdwarf/dwarf_die_deliv.c:2372-2643 | on a laid-out tree dwarf_siblingof_b gives the DIE just past the subtree or no entry, and the DW_AT_sibling shortcut changes nothing |
| DieWalk.ChildIsFirst | libdwarf/dwarf_die_deliv.c:2645-2782 | dwarf_child gives exactly the first child; no entry for a flagged but empty child list too |
| DieWalk.VisitRebuilds | libdwarf/dwarf_die_deliv.c:2372-2782 | a walk by child and sibling calls rebuilds every laid-out tree |
| DieWalk.EmittedLays | libdwarf/dwarf_die_deliv.c:2450-2573 | the bytes a producer writes for a tree are a layout of it wherever they stand in a unit, wherever that starts |
| DieWalk.EmitThenVisit | libdwarf/dwarf_die_deliv.c:2372-2782 | writing any finite tree anywhere in a section, behind any unit header and before anything, and walking it gives the same tree |
| DieWalk.TraversalValidates | libdwarf/dwarf_die_deliv.c:1965-1987 | after a preorder traversal of a subtree dwarf_validate_die_sibling accepts its next sibling |
| DieWalk.SelfSibling | libdwarf/dwarf_die_deliv.c:2173-2244 | a DIE naming itself as sibling is never left below depth zero, and is what is returned at depth zero |
| DieWalk.SelfSiblingLoops | libdwarf/dwarf_die_deliv.c:2430-2573 | a unit of four bytes on whose first DIE dwarf_siblingof_b does not return |
| DieWalk.LoopsIff | libdwarf/dwarf_die_deliv.c:2450-2561 | the search from any DIE and depth fails to end if and only if it comes, below depth zero, to a DIE that names itself |
| DieWalk.SiblingLoopsIff | libdwarf/dwarf_die_deliv.c:2372-2643 | the same for a call of dwarf_siblingof_b |
| DieWalk.AllEndIff | libdwarf/dwarf_die_deliv.c:2450-2561 | every search in a unit ends if and only if no DIE of the unit names itself |
| CuList.InfoReading.InsertIntoCuContextList | libdwarf/dwarf_die_deliv.c:1386-1446 | at the head, the tail or in between, the list stays linked and ordered and gains exactly the new context in its place |
| CuList.InfoReading.FindCuContext | libdwarf/dwarf_die_deliv.c:124-165 | whatever the cursor is, the answer is that of a plain scan of the list |
| CuList.InfoReading.CreateRecord | libdwarf/dwarf_die_deliv.c:1460-1500 | a made context is appended and nothing else changes; a failure leaves the list as it was |
| CuList.MakeCuIs | libdwarf/dwarf_die_deliv.c:413-457 | a unit is made exactly when there is a header with a length that is not zero, the unit ends at or below the section size and the rest of its header is in order; a zero length is no entry, anything else an error |
| CuList.CreateIs | libdwarf/dwarf_die_deliv.c:1460-1500 | likewise for making a context, with where the last offset stands afterwards |
| CuList.NotLoaded | libdwarf/dwarf_die_deliv.c:1556-1768 | a section that is missing or cannot be loaded gives that outcome to all three operations and leaves the list alone |
| CuList.ExactFit | libdwarf/dwarf_die_deliv.c:446-453 | a unit that ends exactly at the end of its section is delivered |
| CuList.InfoReading.NextCuHeader | libdwarf/dwarf_die_deliv.c:1556-1768 | new list, cursor and result of one marching call, in every case |
| CuList.InfoReading.OffDieContext | libdwarf/dwarf_die_deliv.c:2833-2856 | the context for an offset, found or made with all contexts before it; the list only grows |
| CuList.InfoReading.FindGivenSig | libdwarf/dwarf_find_sigref.c:56-155 | the type unit with a signature, found or reached by extending the list |
| CuList.FindDieGivenSig8 | libdwarf/dwarf_find_sigref.c:163-190 | both sections are looked through in order, then the unit of the type DIE is looked up, with both lists kept valid |
| CuList.ScanUnique | libdwarf/dwarf_die_deliv.c:124-165 | at most one listed unit contains an offset, and the scan finds it |
| CuList.TilesAscend | libdwarf/dwarf_die_deliv.c:1386-1446 | units that tile a prefix are in strictly ascending order |
| CuList.CreateInv | libdwarf/dwarf_die_deliv.c:1460-1500 | making a context keeps the invariant, also when finishing it fails after the last offset has moved |
| CuList.StepInv | libdwarf/dwarf_die_deliv.c:1556-1768 | every one of the three operations, failing or not, keeps the invariant, only extends the lists, and only marching moves the cursor |
| CuList.RunInv | libdwarf/dwarf_die_deliv.c:1386-1768 | so does every interleaving of them |
| CuList.RunFromStart | libdwarf/dwarf_die_deliv.c:1386-1768 | from an empty start each list is ascending, tiles a prefix of its section from 0 without gaps, ends at or below the last offset, and the cursor is null or listed |
| CuList.NextMarches | libdwarf/dwarf_die_deliv.c:1671-1711 | on a well-formed section one marching call gives the unit at the cursor position, or no entry and a restart |
| CuList.CursorMarches | libdwarf/dwarf_die_deliv.c:1671-1711 | with lookups interleaved in any way the marching calls give the march through the section |
| CuList.MarchFromStart | libdwarf/dwarf_die_deliv.c:1671-1711 | from a fresh start, with any lookups in between, the marching calls return every unit once in order, then no entry, and again |
| CuList.MarchTurns | libdwarf/dwarf_die_deliv.c:1671-1711 | a full turn of that march is every unit once in order, no entry, then the first again |
| CuList.SigHitIsListed | libdwarf/dwarf_find_sigref.c:94-151 | a signature hit is a listed type unit with that signature, and going on to its type DIE makes no further context |
| CuList.OffDieContains | libdwarf/dwarf_die_deliv.c:2833-2856 | on any section, a unit found for an offset contains it |
| CuList.OffDieFinds | libdwarf/dwarf_die_deliv.c:2833-2856 | on a well-formed section looking up an offset gives the unit that contains it however much is listed, and is an error iff there is none |
| CuList.SigFinds | libdwarf/dwarf_find_sigref.c:94-151 | on a well-formed section the signature search gives the first unit with the signature; without one, no entry if the units fill the section and an error if some bytes are left |
| CuList.Sig8Finds | libdwarf/dwarf_find_sigref.c:163-190 | on two well-formed sections the search over both gives the first unit with the signature, .debug_info first |
| CuList.Sig8Lists | libdwarf/dwarf_find_sigref.c:163-190 | on any sections, outcome and both lists afterwards: the second section is searched only without a hit or an error in the first |
| CuList.StopsAtBadUnit | libdwarf/dwarf_die_deliv.c:2833-2856 | where the list ends at a unit that cannot be made, looking up an offset beyond it and marching on give that outcome and leave the list as it is |
| CuList.LookupsFromStart | libdwarf/dwarf_die_deliv.c:1386-1768 | both hold after any calls from a fresh start |
| FrameVm.ExecIsRun | libdwarf/dwarf_frame.c:421-1443 | executing a stream to its end is running its decoded instructions |
| FrameVm.ExecDecodes | libdwarf/dwarf_frame.c:421-1443 | an execution to the end succeeds only if the whole stream decodes |
| FrameVm.StopHidesTheRest | libdwarf/dwarf_frame.c:421-482 | what lies behind the move a search stops at does not matter, even if it cannot be decoded |
| FrameVm.ProgramTiles | libdwarf/dwarf_frame.c:421-443 | the decoded instructions cover the stream byte for byte |
| FrameCode.OperandsReadBack | libdwarf/dwarf_frame.c:454-1391 | operands of every layout are read back from their encoding, expression bytes located behind their length |
| FrameCode.OtherOpcodes | libdwarf/dwarf_frame.c:434-1411 | which opcodes do nothing, and which bytes are errors |
| FrameCode.DecodesBack | libdwarf/dwarf_frame.c:434-1412 | every encodable instruction is decoded to itself and ends where its encoding ends |
| FrameCode.ProgramRoundTrip | libdwarf/dwarf_frame.c:421-1426 | every list of instructions, encoded anywhere in a section, decodes to that list |
| FrameRules.MakesTheRule | libdwarf/dwarf_frame.c:483-1345 | read as libdwarf.h documents, an instruction gives its register the rule of section 6.4.2.3 of DWARF 5, offsets times the data alignment factor (1 without an augmentation), exactly under a stated condition, and changes nothing else |
| FrameRules.MakesTheCfa | libdwarf/dwarf_frame.c:893-1042 | the CFA instructions leave the rule of section 6.4.2.2 of DWARF 5 and touch no register rule |
| FrameRules.StoresTheRule | libdwarf/dwarf_frame.c:483-1345 | the stored rule field by field, offsets modulo 2^64 |
| FrameRules.StoresTheCfa | libdwarf/dwarf_frame.c:893-1042 | the CFA rule field by field after every instruction but the pop, whatever it was before |
| FrameRules.MovesTheLocation | libdwarf/dwarf_frame.c:460-565 | an advance adds its operand times the code alignment factor (1 without an augmentation) modulo 2^64, set_loc gives the location; no rule changes |
| FrameRules.IdleSteps | libdwarf/dwarf_frame.c:1362-1391 | instructions that only inform change nothing |
| FrameRules.StartsDefault | libdwarf/dwarf_frame.c:366-408 | without an initial row every register and the CFA start with the initial rule, with one from that row |
| FrameRules.ExpressionUnread | libdwarf/libdwarf.h:289-358 | a register at its initial placeholder rule is still read as that after DW_CFA_expression |
| FrameRows.TableIffRuns | libdwarf/dwarf_frame.c:421-1443 | a program has a row table iff it runs without error, and the last row is the final state |
| FrameRows.SearchFinds | libdwarf/dwarf_frame.c:421-482 | executing with a search pc delivers the row in force at pc of the full table, whether rows follow, and where the next one begins |
| FrameRows.TableAscendsIff | libdwarf/dwarf_frame.c:460-695 | the rows are in ascending order if and only if no advance wraps and no set_loc goes back to 0 |
| FrameRows.RowsCanGoBack | libdwarf/dwarf_frame.c:528-565 | a stream of an advance and set_loc 0 that runs and has rows at 16, 17 and 0; at 16 the first is found, not the last at or below 16 |
| FrameRows.FoundLastIff | libdwarf/dwarf_frame.c:421-482 | all searches find the last row at or below their pc if and only if the table never goes back from beyond its first location |
| FrameRows.TableAscendsFromIff | libdwarf/dwarf_frame.c:460-695 | a table does not go back from beyond lo if and only if no move from beyond lo wraps or goes to 0 |
| FrameRows.SearchIsLastIff | libdwarf/dwarf_frame.c:421-695 | all searches in a program find the last row at or below their pc if and only if no move from beyond the initial location wraps or goes back to 0 |
| FrameRows.NextLeastIff | libdwarf/dwarf_frame.c:1429-1463 | the next location reported is the least beyond pc, for every pc, if and only if every location beyond the first is met for the first time from below |
| FrameRows.StopIsLast | libdwarf/dwarf_frame.c:1429-1463 | more rows are reported iff one lies beyond pc, on every table; on one that does not go back from beyond its first location the rows up to the one found are those at or below pc, and the next location is the least beyond |
| FrameRows.SameRowUpToNext | libdwarf/dwarf_frame.c:1429-1463 | on every table, two pcs get the same row iff the second is below the next location reported at the first |
| FrameRows.StepThroughLists | libdwarf/dwarf_frame.c:421-482 | executing for a pc and going on at the reported next location ends and lists, on every table and from every pc, each row whose successor lies beyond everything before it, and the last |
| FrameRows.ListedIsLastIff | libdwarf/dwarf_frame.c:1429-1463 | these are the last rows at each location, or as many, if and only if the table ascends |
| FrameRows.StepThroughAll | libdwarf/dwarf_frame.c:421-695 | started at the initial location this lists the row of every location, in order, if and only if no move wraps or goes back to 0 |
| FrameRows.ProgramAddresses | libdwarf/dwarf_frame.c:528-565 | the addresses of decoded set_loc instructions fit 64 bits |
| FrameRows.StackDepth | libdwarf/dwarf_frame.c:855-891 | the stack depth is always remembers minus restores |
| FrameRows.BaseUntouched | libdwarf/dwarf_frame.c:855-891 | a program that does not pop below its base leaves the rows below alone |
| FrameRows.Bracket | libdwarf/dwarf_frame.c:855-891 | remember, any such balanced block, restore: all register rules, the CFA rule and the stack are as before, and only the location has advanced as the block advances it |
| FrameExpand.ExpandIffExec | libdwarf/dwarf_frame.c:421-1419 | in one setting and from one state, listing succeeds exactly when executing does |
| FrameExpand.SucceedIff | libdwarf/dwarf_frame.c:421-1419 | each succeeds exactly on decodable streams whose instructions are allowed at their location and stack depth; no rule matters |
| FrameExpand.StepIff | libdwarf/dwarf_frame.c:454-1391 | instruction by instruction: which are allowed at a location and a stack depth, and the location and depth they lead to |
| FrameExpand.ListedExecutesIff | libdwarf/dwarf_frame.c:2431-2483 | a stream that can be listed, from location 0 say, executes in another setting and from another location iff it uses factors only with an augmentation, restores only with an initial row, and sets locations in order from there |
| FrameExpand.RecordMeans | libdwarf/dwarf_frame.c:444-1419 | a record means the instruction it was made from, except for DW_CFA_val_offset, where it does so iff the left-over signed operand is the same number |
| FrameExpand.RecordFactors | libdwarf/dwarf_frame.c:444-1419 | the alignment factors a record shows are those of the CIE, for the instructions that use them |
| FrameExpand.UnusedFields | libdwarf/dwarf_frame.c:444-1419 | fields of a record that its instruction has no use for are zero |
| FrameExpand.LeftOver | libdwarf/dwarf_frame.c:434-1419 | the variable for signed operands holds the signed operand read last |
| FrameExpand.ListMeansIff | libdwarf/dwarf_frame.c:434-1419 | every record of a list means its instruction if and only if each DW_CFA_val_offset finds its own operand left over in the signed variable |
| FrameExpand.ExpandDescribes | libdwarf/dwarf_frame.c:2431-2483 | record by record the list describes the decoded stream |
| FrameExpand.OffsetsCover | libdwarf/dwarf_frame.c:421-452 | offsets start at 0, increase strictly, and each record begins where the one before ends, to the end of the stream |
| FrameExpand.ReplayIsExecution | libdwarf/dwarf_frame.c:2431-2483 | replaying the records on a plain machine, in any setting and state, gives what executing the bytes gives there, if each DW_CFA_val_offset is reported right and DW_CFA_val_offset_sf does not occur |
| FrameExpand.ValOffsetMisreported | libdwarf/dwarf_frame.c:1243-1248 | DW_CFA_val_offset 3, 5 as first instruction is listed with operand 0 |
| FrameExpand.ValOffsetSfMisdirected | libdwarf/dwarf_frame.c:1252-1294 | DW_CFA_val_offset_sf changes the rule of register 0 and leaves the named register as it was |
| FrameExec.DecodeInstr | libdwarf/dwarf_frame.c:434-1412 | the decoder reads exactly the specified instruction, or fails |
| FrameExec.Machine.constructor | libdwarf/dwarf_frame.c:366-408 | the machine starts from the row of the CIE, or from initialized rules |
| FrameExec.Machine.Remember | libdwarf/dwarf_frame.c:855-874 | a copy of the current row goes on the stack, in objects of its own |
| FrameExec.Machine.RestoreTop | libdwarf/dwarf_frame.c:875-891 | the top row is copied back and dropped; an empty stack is an error that changes nothing |
| FrameExec.Machine.SetReg | libdwarf/dwarf_frame.c:498-502 | an edit of the register table in place reaches neither the CFA rule nor any saved row |
| FrameExec.Machine.Apply | libdwarf/dwarf_frame.c:454-1391 | every instruction except the moves changes the machine as specified, or fails without changing it |
| FrameExec.Machine.Move | libdwarf/dwarf_frame.c:460-482 | a move that would pass the pc searched for is not made and its target is reported |
| FrameExec.ExecFrameInstr | libdwarf/dwarf_frame.c:244-1534 | the whole function: success, row, further rows and next location are those of the specification, the records those of the listing; the caller's table is written only on success and only in the columns both have |
| FrameMemo.FdeState.RowAt | libdwarf/dwarf_frame.c:1937-2038 | the range test, the initial row built on demand, and the row of the FDE |
| FrameMemo.CieState.BuildInitial | libdwarf/dwarf_frame.c:1969-2008 | the initial table afterwards: none for a bad range, default rules after a failure, else the result of the CIE's instructions |
| FrameMemo.FdeState.RegisterAt | libdwarf/dwarf_frame.c:2161-2241 | answer, memo and initial row after one lookup, hit or miss |
| FrameMemo.RunKeeps | libdwarf/dwarf_frame.c:1937-2241 | over every run on any FDEs a valid memo holds the row for its pc, and a built initial row is never altered |
| FrameMemo.AnswersFreshIff | libdwarf/dwarf_frame.c:2161-2241 | a lookup answers as a fresh execution would, except exactly when the CIE's instructions fail, this was found out before, and the FDE executes over default rules; the next row is reported exactly on a miss |
| FrameMemo.RunAnswersFresh | libdwarf/dwarf_frame.c:2161-2241 | without failing CIEs every answer of every run is that of a fresh execution |
| FrameMemo.BuiltIff | libdwarf/dwarf_frame.c:1960-2008 | the initial row of a CIE is there iff its instructions lie in the section and some lookup so far had a column in the table and a pc in range |
| FrameMemo.AnswerIsTableRow | libdwarf/dwarf_frame.c:1937-2241 | in every reachable state a lookup answers from the row in force at its pc in the FDE's row table |
| FrameMemo.InitialIsMade | libdwarf/dwarf_frame.c:1969-2008 | after any lookups that needed it, the initial row of a CIE is what its decoded instructions make of the default row |
| FrameMemo.AnswersFromMade | libdwarf/dwarf_frame.c:1937-2241 | after any lookups, a lookup in the range of an FDE whose CIE and FDE instructions run answers rule, location and next location of the row in force in the table started from that row |
| FrameMemo.OutsideFails | libdwarf/dwarf_frame.c:1961-1966 | after any lookups, a pc outside of the FDE's range, a 64-bit sum, is an error |
| FrameMemo.SetsUpRule | libdwarf/dwarf_frame.c:1988-2001 | a CIE with DW_CFA_undefined 0 and an FDE without instructions: register 0 is undefined there |
| FrameMemo.ReachableAnswers | libdwarf/dwarf_frame.c:1937-2241 | after any lookups from the start the next one answers as a fresh execution would, except iff its CIE fails, an earlier lookup needed it and the FDE executes over default rules; and from the table row in force if there is a table |
| FrameMemo.BrowseLists | libdwarf/dwarf_frame.c:1937-2241 | looking up a register and going on at the reported next location lists, on every table and from every pc in range, the rows below the end of the FDE that such a search comes by, and stops there |
| FrameMemo.BrowseAll | libdwarf/dwarf_frame.c:1937-2241 | started at the first location after any lookups, this lists every location of the table below the end of the range, in order, iff the table ascends that far; after a hit on the first lookup it stops with one row |
| FrameMemo.BrokenCieAnswersLater | libdwarf/dwarf_frame.c:1980-2008 | with a failing CIE the same lookup fails once and then answers with a default rule |
| FrameMemo.BrokenExample | libdwarf/dwarf_frame.c:1980-2008 | a one-byte CIE and an empty FDE where that happens |
| FdeList.ReadPrefix | libdwarf/dwarf_frame2.c:1272-1357 | an accepted prefix starts at the position asked for and its entry ends inside the section, beyond its start |
| FdeList.Chain.ChainUp | libdwarf/dwarf_frame2.c:161-184 | the new link goes to the end and becomes the current one; the others stay linked |
| FdeList.Chain.ToArray | libdwarf/dwarf_frame2.c:581-600 | walking the chain fills the array with the links in order |
| FdeList.FindExistingCie | libdwarf/dwarf_frame2.c:1391-1411 | trying the current CIE first gives what the search from the head gives |
| FdeList.EnsureCie | libdwarf/dwarf_frame2.c:426-453 | a CIE at a position is reused, or made and appended with the next number |
| FdeList.TakeEntry | libdwarf/dwarf_frame2.c:418-553 | one entry of the scan: lists, position and outcome as specified |
| FdeList.GetFdeList | libdwarf/dwarf_frame2.c:330-629 | the two arrays hold the CIEs and FDEs of the specified lists; error and no entry exactly as specified |
| FdeList.TakeIs | libdwarf/dwarf_frame2.c:418-553 | taking an entry in succeeds exactly when the entry is in order, and keeps the lists what they should be |
| FdeList.ScanIs | libdwarf/dwarf_frame2.c:387-553 | the scan succeeds exactly when all entries can be read and are in order, and then adds them all |
| FdeList.ListingIs | libdwarf/dwarf_frame2.c:362-628 | success, error and no entry of the whole function; on success one CIE per position mentioned, in order of first mention, and one FDE per FDE entry in order, also for FDEs before their CIE; the orphan error cannot occur |
| FdeList.MentionedOnce | libdwarf/dwarf_frame2.c:426-507 | the list of positions mentioned has every one of them, and none twice |
| FdeList.CiesShared | libdwarf/dwarf_frame2.c:387-600 | no two CIEs start at the same place, each is numbered by its place, and each FDE has the CIE its pointer names with that number |
| FdeList.EntriesTile | libdwarf/dwarf_frame2.c:387-553 | the entries lie one behind the other from the start to the end of the section or a zero length |
| FrameSection.SectionReadsBack | libdwarf/dwarf_frame2.c:306-629 | a section written entry by entry in either width, each FDE with the offset of its CIE or the distance back to it, is listed if and only if every CIE is within reach of a signed field and what follows the ids is acceptable; the lists are exactly the written CIEs and FDEs, each FDE with its own CIE, also when that comes later |
| FrameSection.CutIsError | libdwarf/dwarf_frame2.c:1272-1357 | a section cut off anywhere inside an entry is an error |
| FrameSection.EhFrame | libdwarf/dwarf_frame2.c:306-325 | the bytes of an .eh_frame section whose FDE at 24 has 28 in its id field at 28, and its CIE at 0 |
| FrameSection.FarCie | libdwarf/dwarf_frame2.c:1322-1327 | a 32-bit .debug_frame section that is refused because its CIE lies at 2^31 |
| FdeList.FdeAtPc | libdwarf/dwarf_frame.c:2386-2420 | the loop over low and high is the halving search |
| FdeList.SearchFindsIff | libdwarf/dwarf_frame.c:2386-2420 | on sorted FDEs, overlapping or not, the search succeeds if and only if one of the FDEs it looks at on its way to the last one beginning at or below pc covers pc; which ones these are depends on that place alone |
| FdeList.LastIsNotMissed | libdwarf/dwarf_frame.c:2386-2420 | on sorted FDEs, overlapping or not, the last one beginning at or below pc is never passed over if it covers pc |
| FdeList.SearchIsExact | libdwarf/dwarf_frame.c:2386-2420 | on sorted FDEs that do not overlap the search finds an FDE iff one covers pc, and it is the only one |
| FdeList.CoversIff | libdwarf/dwarf_frame.c:2386-2420 | an FDE covers start to start plus range, and nothing if that sum reaches 2^64 |
| FdeList.PcIsFound | libdwarf/dwarf_frame.c:2386-2420 | on sorted FDEs that end in the address space and do not overlap, a pc is found iff it is in some range, and with that FDE |
| FdeList.OverlapMisses | libdwarf/dwarf_frame.c:2386-2420 | three overlapping FDEs where a covered pc is not found, and two of them where it is |
| FdeList.SortedListing | libdwarf/dwarf_frame2.c:143-157 | after any sort by initial location the FDEs are the listed ones, and a pc is found iff a listed FDE covers it |
| LocExpr.ReadLocExprOp | libdwarf/dwarf_locationop_read.c:121-829 | the reader delivers operation, operands and next offset as specified for every opcode |
| LocExpr.ReadOp | libdwarf/dwarf_locationop_read.c:151-828 | no entry exactly at the end of the block; a success moves strictly forward and stays in the block |
| LocExpr.OpRoundTrip | libdwarf/dwarf_locationop_read.c:151-828 | every operation except the two below is read back from its encoding with its operands, and the next offset is right behind it |
| LocExpr.ExpressionRoundTrip | libdwarf/dwarf_locationop_read.c:121-829 | every list of such operations, followed by anything, is read back operation by operation with numbers and offsets, up to the no-entry at its end |
| LocNames.NamedRoundTrip | libdwarf/dwarf_locationop_read.c:151-828 | every operation by its name (fbreg, bregN and bregx with signed offsets, bra and skip with signed 16-bit ones, constants of each width and sign, and so on), encoded as section 7.7.1 of DWARF 5 says, is read back with its operands |
| LocNames.NamedExpression | libdwarf/dwarf_locationop_read.c:121-829 | so is every list of them, operation by operation |
| LocNames.UnknownOpcode | libdwarf/dwarf_locationop_read.c:781-801 | every other opcode byte is an error |
| LocExpr.VariableValueStays | libdwarf/dwarf_locationop_read.c:766-780 | DW_OP_GNU_variable_value delivers its operand, but the next operation is taken to begin at it |
| LocExpr.EncodedAddrShifted | libdwarf/dwarf_locationop_read.c:63-110 | DW_OP_GNU_encoded_addr, for every length byte it accepts, delivers the address if and only if every byte of the address equals the length byte |
| LocExpr.EncodedAddrAccepted | libdwarf/dwarf_locationop_read.c:63-110 | the length bytes accepted are 1, 2, 4, 8, and 0 for an address size among these, with that many bytes there |
| LocExpr.ReadEncodedAddress | libdwarf/dwarf_locationop_read.c:63-110 | the switch over the length byte reads what is specified |
| Harmless.KeepsTheLast | libdwarf/dwarf_harmless.c:139-160 | inserting messages one by one is appending all, clipped to their slot, and keeping the last N, with all of them counted modulo 2^32 |
| Harmless.RunRefines | libdwarf/dwarf_harmless.c:83-202 | after every sequence of insertions, drains and resizings, fewer than 2^32, the ring holds the newest messages since the last drain, at least one if there are any, and counts them all |
| Harmless.ResizeKeeps | libdwarf/dwarf_harmless.c:172-202 | resizing keeps the newest messages and the total count |
| Harmless.WindowInsert | libdwarf/dwarf_harmless.c:139-160 | writing a slot and moving the indices on appends to the circle and drops the oldest when it is full |
| Harmless.Ring.Insert | libdwarf/dwarf_harmless.c:139-160 | the insertion in place refines "append, keep the last N" |
| Harmless.Ring.GetList | libdwarf/dwarf_harmless.c:83-122 | the messages come oldest first, as many as fit before a null, and the ring is empty afterwards |
| Harmless.Ring.SetSize | libdwarf/dwarf_harmless.c:172-202 | the new ring holds the newest messages and the old count; returns the old size |
| Words.FixedRoundTrip | libdwarf/dwarf_util.h:216-238 | a number of up to eight bytes is read back from its little-endian bytes |
| Words.FixedSignedRoundTrip | libdwarf/libdwarf_private.h:99-106 | a signed number is read back as its 64-bit pattern by reading and sign extension |

## Left out

- Leb.DecodeLeb128: the length written through the pointer on a failing call.
- DieWalk.DieReader.SiblingOf: requires that the search ends, because the C loop does not return otherwise; DIE attributes and abbreviation lookup are a table from offset to size, child flag and sibling offset.
- CuList.InfoReading.OffDieContext: the DIE that dwarf_offdie_b reads once it has the context (abbreviation code and abbreviation), which changes none of the lists.
- CuList.FindDieGivenSig8: likewise ends at the unit of the type DIE.
- CuList.InfoReading.CreateRecord: reading a unit header from bytes, split-DWARF and tied-object merging are given tables; sums of section offsets are taken not to wrap.
- FrameExpand.ReplayIsExecution: streams with DW_CFA_val_offset_sf, whose record names a register the code does not change.
- FrameExec.ExecFrameInstr: `ru_args_size` and the letters in `fi_fields`; register operands of 2^32 and more of the expression instructions, which the C code uses as array index, count as errors; "or" of disjoint bits is written as addition.
- FrameMemo.FdeState.RegisterAt: a table size that changes between calls; values already written through `has_more_rows` by a call that then fails.
- FdeList.GetFdeList: what follows the CIE id (augmentation strings, encoded pointers) is given by position; `qsort` is not modelled beyond "the same FDEs in order".
- LocExpr.ReadLocExprOp: the size byte of DW_OP_const_type and the length byte of DW_OP_GNU_encoded_addr are read in C before any bounds test; here a missing byte is the error that the later test reports.
- Harmless.Ring.SetSize: a size of 2^32 - 1, for which the C addition wraps; sharing of string memory with the caller.
- Pointer sums past the end of the address space; big-endian objects and the zero length of 64-bit IRIX.
- Allocation failure, null-argument tests, error codes and texts, deallocation.
- Section loading, decompression, relocation, line tables, names, groups, index sections: I/O or members weaker than these.
- `dwarf_get_fde_info_for_all_regs3` and `dwarf_get_fde_info_for_cfa_reg3_b`: the same lookup with other fields copied out.
