# Verified models of the boot loader's command-line algorithms

This project models the parts of the boot loader that compute something and
need no hardware to be understood, and proves what they promise. The models
follow the C routines branch by branch, in 32-bit arithmetic where the code
depends on it. Routines that change state are methods on arrays or on classes
with the same fields; each is proved against a specification function, and
the laws are lemmas about those functions for all inputs, all runs and all
layouts. `dafny verify dfyconfig.toml` checks everything.

| files | what they model |
|---|---|
| CString, Numerals, Words, Arithmetic, BitFields, Sequences, Options | C strings and `simple_strtoul`, numbers as they are written, big-endian words, products and quotients, bit fields, the newest elements of a sequence, optional values |
| MtdGrammar, MtdDefinitions, MtdParser, MtdSort, MtdRoundTrip, MtdReach, MtdNames, MtdAlignment, MtdPlacement, MtdEdit, MtdPartId, MtdTable, MtdSelectionLost, MtdCommands, MtdReload | the MTD partition table: grammar, parser, printer, the sorted lists, the selected partition, the commands, saving and reloading |
| MtdCal | the second reader of the same partition lists |
| Environment, Setenv, EnvStore | the environment as an ordered map, its commands name by name, and the one array with NUL separators |
| Kermit, KermitDelivery, KermitReplies, KermitDamage, KermitReceiver, KermitSession | Kermit packets, exactly-once delivery, replies, damaged and unfinished packets, the receiver over its input, whole downloads |
| SRecord, SRecordFile, SRecordTransfer, SRecordSerial | Motorola S-records of all types, upload and download |
| MemoryTest | the strided memory test on memories that may be faulty |
| FlashRanges, FlashSafety, FlashExact, FlashAddress, FlashArguments | which flash sectors an address range stands for |
| BootRecord, BootRecordTags, BootRecordWrite, BootRecordStore | boot description records in flash |
| Floppy, FloppyProtocol, FloppyDrive | block numbers, commands, retries and data of the floppy read |
| Bedbug, BedbugAssembler, BedbugOperands, BedbugLines, BedbugSpecial, BedbugTools, BedbugLookup, BedbugStepper, BedbugBranches, BedbugTable, BedbugFollow | typed lines, operand fields, special registers, opcode lookup, branch targets, the opcode table and where each instruction leads, for PowerPC |
| LogRing, LogLines, LogBuffer | the tagged log stream and its ring |
| Eeprom, CircBuf | chunked EEPROM access, the ring buffer |

Where a promise of the code or its comments does not hold, the code is
modelled as it is, the lemma states exactly when the promise is kept, and
what happens otherwise:

- Saved partition tables are not read back if a partition is smaller than
  4096 bytes or has the size that stands for "the rest"
  (`MtdRoundTrip.TableRoundTrip`), which accepted texts can lead to
  (`MtdReach.SmallRestIsLost`), and partitions with one offset come back in
  reverse order (`MtdReach.ReloadIsStable`, `MtdReach.EqualOffsetsSwap`). A
  text of 512 to 520 characters is saved, and refused at the next start
  (`MtdReload.Restart`, `MtdReload.SavedAndRefused`).
- The selection is lost when an insertion moves partition number 255, and
  when a later partition with the offset of the selected one is deleted
  (`MtdTable.SelectionFollowsInsert`, `MtdTable.SelectionFollowsDelete`;
  instances in `MtdSelectionLost`).
- The second reader of a partition list does not wrap sizes that the first
  one wraps (`MtdCal.CalOffsetAgrees`, `MtdCal.SizeOverflows`).
- A variable name with `=` in it gets around the write-once check
  (`Environment.WriteOnceStep`, `Environment.EqualsOverwrites`).
- A damaged Kermit header in front of a new packet undoes the packet before
  it (`KermitDelivery.EarlyHeaderFault`, `KermitDelivery.PacketIsLost`);
  some prefix characters that the receiver takes cannot be sent themselves
  (`Kermit.IllegalQuote`).
- Sector plans can leave the range when a bank at the top of the address
  space comes before one at address zero (`FlashSafety.SafeLayout`,
  `FlashSafety.UpperTakesLower`).
- A boot record that was just written can complete the frame of a longer
  record that the other place of its block claims, and be overtaken by it
  (`BootRecordWrite.WrittenIsFound`, `BootRecordWrite.RecordIsOvertaken`).
- The disassembler shows special purpose registers under names that the
  assembler does not take (`BedbugSpecial.NameIsTaken`).
- An S-record download reports the size 2 for an empty upload, and mostly a
  wrong one for a range that wraps (`SRecordTransfer.SizeIsLength`,
  `SRecordTransfer.WrappedUpload`), `log show` prints nothing of a full
  ring (`LogBuffer.Buffer.Show`), and an EEPROM range that ends beyond 32
  bits is ignored with success (`Eeprom.Device.EepromWrite`).

## Model

| member | source | states |
|---|---|---|
| CString.SimpleStrtoul | src/lib_generic/vsprintf.c:34-59 | the number and the end position are those of the digit run behind the radix prefix: "0x" selects 16, a leading zero 8 when no radix is given, arithmetic is modulo 2^32 |
| CString.StrtoulOfDec | src/lib_generic/vsprintf.c:34-59 | a printed decimal number is read back by radix 0 with the right end, whatever follows it other than a digit or an x |
| Numerals.HexadecimalRead | src/lib_generic/vsprintf.c:34-59 | "0x" and hexadecimal digits of either case, any number of them, are read with their value modulo 2^32 and the right end, whatever the radix of the caller is |
| Numerals.OctalRead | src/lib_generic/vsprintf.c:34-59 | digits behind a leading zero are read as octal ones where the caller gives no radix |
| Numerals.DigitsRead | src/lib_generic/vsprintf.c:34-59 | digits in the radix of the caller, with zeros in front or without them |
| Numerals.DecimalRead | src/lib_generic/vsprintf.c:34-59 | without a radix, digits that do not start with a zero are decimal, with any number of digits |
| Numerals.ReadIsCNumber | src/lib_generic/vsprintf.c:34-59 | what is read without a radix is a number in C notation, with its value modulo 2^32, if it is anything at all |
| MtdRoundTrip.TableRoundTrip | src/common/cmd_jffs2.c:1107-1224 | for every valid table with strictly ascending offsets, parsing the printed text rebuilds the same devices, sizes, offsets (omitted ones included), user names and flags, if and only if no partition is below 4096 bytes and none of size 0xFFFFFFFF stands in front of another one; otherwise the parser rejects the text |
| MtdRoundTrip.ReloadOfTable | src/common/cmd_jffs2.c:1107-1224 | without any condition on the order: what is read back are the printed definitions with their names renewed, sorted again, or nothing when a size is illegible or sorting fails |
| MtdRoundTrip.DevicesRoundTrip | src/common/cmd_jffs2.c:1390-1437 | the same for the devices from any position of the list on, behind the devices already read |
| MtdRoundTrip.PartsRoundTrip | src/common/cmd_jffs2.c:919-940 | the partition list of one device, read from any position on, restores each omitted offset from the end of the previous partition |
| MtdRoundTrip.PartRoundTrip | src/common/cmd_jffs2.c:602-710 | one printed definition is read back with size, explicit offset, user name and ro flag, and reading stops at its separator; a size below the minimum is rejected |
| MtdRoundTrip.MemsizeRoundTrip | src/common/cmd_jffs2.c:188-245 | memsize_parse undoes memsize_format for every 32-bit size, in front of any delimiter |
| MtdSort.SortKeeps | src/common/cmd_jffs2.c:517-571 | an ordered list of different partitions is kept by adding its partitions again if and only if all offsets differ |
| MtdReach.DevicesAreGood | src/common/cmd_jffs2.c:1390-1437 | every table that the parser accepts has validated partitions in ascending order, user names without a closing parenthesis, known ids, and each device once |
| MtdSort.SortPermutes | src/common/cmd_jffs2.c:517-571 | sorting a parsed list loses and duplicates nothing, orders it by offset, and leaves at most one partition at zero |
| MtdSort.SortReverses | src/common/cmd_jffs2.c:517-571 | adding the partitions of an ordered list again turns every run of equal offsets around, and fails exactly for two partitions at zero |
| MtdReach.ReloadIsStable | src/common/cmd_jffs2.c:1234-1245 | for every text, the table it yields, saved and reloaded, comes back with its runs of equal offsets turned around and its generated names renewed, or not at all if a size is illegible; for partitions that stay pairwise different the order is therefore kept if and only if all offsets differ |
| MtdReach.GoodReloads | src/common/cmd_jffs2.c:1234-1245 | the same for every table in the state that the parser establishes, however it came about |
| MtdEdit.EditedTableReloads | src/common/cmd_jffs2.c:1234-1245 | a table read from any text and then edited by any run of "mtdparts add" and "mtdparts del" comes back from its own text in the same way |
| MtdEdit.EditsKeepGood | src/common/cmd_jffs2.c:2047-2109 | every run of added definitions and deleted partitions keeps what the parser establishes: validated partitions in order, one at zero at most, legal names, known ids, each device once |
| MtdReach.EqualOffsetsSwap | src/common/cmd_jffs2.c:551-565 | a text with two partitions at one offset, whose table changes their places each time it is saved and reloaded |
| MtdReach.SmallRestIsLost | src/common/cmd_jffs2.c:619-631 | the text "mtdparts=n:4k,-" on a device of 6 KB is accepted, and its table is lost when it is saved and reloaded, because the filled-in size of the rest is below the minimum |
| MtdParser.MemsizeParseAt | src/common/cmd_jffs2.c:198-218 | computes the number with its g, m or k shifts modulo 2^32 and the position behind the suffix |
| MtdParser.PartParse | src/common/cmd_jffs2.c:602-710 | the walk over one definition returns what the grammar says: size, offset, name or generated name, ro flag, position, or failure |
| MtdDefinitions.DefinitionIsRead | src/common/cmd_jffs2.c:602-710 | every typed definition, with or without offset, name and ro flag, with numbers in C notation and units in small or capital letters, is read as such: size and offset in bytes modulo 2^32; it is refused exactly if the size is below 4096, or stands for the rest in front of another definition |
| MtdDefinitions.AmountIsRead | src/common/cmd_jffs2.c:198-218 | a typed number with its unit, in front of anything that does not go on with it |
| MtdNames.AutoNameIs | src/common/cmd_jffs2.c:697 | a partition without a name is named by "0x", its size, "@0x" and its offset, in eight small hexadecimal digits each |
| MtdParser.PartValidate | src/common/cmd_jffs2.c:322-436 | fills in the remaining size and accepts exactly partitions inside the device, of nonzero 32-bit extent, on NOR sector or NAND erase block boundaries |
| MtdAlignment.SectorsStayWhole | src/common/cmd_jffs2.c:322-359 | on NOR flash with ascending sectors the accepted partitions are exactly those that lie on the chip, are not empty and have every sector as a whole or not at all |
| MtdAlignment.BlocksStayWhole | src/common/cmd_jffs2.c:370-436 | on NAND flash, exactly those that have every erase block as a whole or not at all |
| MtdParser.PartsParse | src/common/cmd_jffs2.c:919-947 | the definition loop of device_parse with its running offset yields the partition list of the grammar, or fails where the grammar does |
| MtdParser.GenerateMtdparts | src/common/cmd_jffs2.c:1107-1224 | succeeds if and only if the text without its nine-character prefix fits buflen - 1, and then produces exactly the text of the table |
| MtdTable.FindPlace | src/common/cmd_jffs2.c:540-565 | the search loop finds the place in front of the first entry that does not start earlier, and fails exactly for a second partition at offset zero |
| MtdTable.Table.PartSortAdd | src/common/cmd_jffs2.c:517-571 | the list gets the partition at its place, the 16-bit count grows, the selection number is adjusted as stated by the two lemmas about insertion, and nothing changes on failure |
| MtdTable.Table.PartAdd | src/common/cmd_jffs2.c:580-591 | keeps the table valid and the selected partition selected, exactly unless the selection has number 255 and is moved up; fails exactly for unacceptable partitions |
| MtdTable.Table.PartDel | src/common/cmd_jffs2.c:446-486 | deleting another partition keeps the selection exactly unless a later partition with the offset of the selected one goes; a device loses its last partition together with its entry |
| MtdTable.Table.DeviceDel | src/common/cmd_jffs2.c:788-810 | the device goes, all others stay in order; if it was selected, the first partition of the first remaining device is |
| MtdTable.Table.DeviceAdd | src/common/cmd_jffs2.c:840-856 | the device comes last, the selection stays, or becomes its first partition when the list was empty |
| MtdTable.Table.IndexPartitions | src/common/cmd_jffs2.c:252-285 | mtddevnum becomes the number of partitions on all earlier devices plus the selected number, modulo 2^16, and mtddevname the selected name |
| MtdTable.Table.DeviceParse | src/common/cmd_jffs2.c:867-992 | agrees with the grammar on success, result and position, and leaves the selection alone |
| MtdTable.Table.ParseMtdparts | src/common/cmd_jffs2.c:1390-1437 | rebuilds the device list exactly as the grammar reads the text, with an empty list on any error |
| MtdTable.Table.ChangePart | src/common/cmd_jffs2.c:1992-1998 | selects the partition that the identifier names, exactly if the text is an identifier and the table has that partition |
| MtdTable.Table.FindDevAndPart | src/common/cmd_jffs2.c:1309-1349 | the device and number that an identifier names, or nothing for a malformed text, an unknown device or a number beyond its list |
| MtdTable.SavedPlace | src/common/cmd_jffs2.c:289-312 | the identifier that current_save writes for a partition of a valid table names that partition |
| MtdPartId.PartIdRoundTrip | src/common/cmd_jffs2.c:1309-1349 | type, device number and partition number are read back from the text that current_save writes |
| MtdPartId.IdentifierIsRead | src/common/cmd_jffs2.c:1309-1329 | a type, a number in C notation, a comma and another number are read as an identifier, with both numbers modulo 256 |
| MtdPartId.ReadIsIdentifier | src/common/cmd_jffs2.c:1309-1329 | no other text is |
| MtdPartId.IdTextFits | src/common/cmd_jffs2.c:291-299 | the text of every 8-bit device and partition number fits the 16 bytes of current_save |
| MtdTable.Table.AddDefinition | src/common/cmd_jffs2.c:2079-2094 | succeeds exactly if the text is a definition whose device is new, or takes its first partition (acceptable there, and not a second one at zero); the table then has that device last, or that partition inserted, with all other lists unchanged; a failed command leaves all lists unchanged; a definition without "@" starts where the last partition of its device ended, modulo 2^32; a selection below number 255 is kept |
| MtdPlacement.DefaultPlace | src/common/cmd_jffs2.c:912-930 | a definition of one partition without an offset is read with the end of the last partition that its device has in the table, modulo 2^32, and with zero for a new device |
| MtdPlacement.DeviceFound | src/common/cmd_jffs2.c:818-830 | a device is found in the table by type and number, both of them |
| MtdEdit.AddGoesBehind | src/common/cmd_jffs2.c:912-930 | "mtdparts add" without an offset on a device of the table puts the new partition behind the last one and at the end of the list, and partitions that did not overlap still do not |
| MtdPlacement.BehindTheLast | src/common/cmd_jffs2.c:912-930 | an acceptable partition behind the last one is the last in order, and overlaps an old one exactly if that one reaches farther than the last one |
| MtdTable.Table.Merge | src/common/cmd_jffs2.c:2085-2094 | the same for a parsed device: it is added, or its first partition joins the device that is there already |
| MtdCommands.Commands.Init | src/common/cmd_jffs2.c:1556-1685 | mtdparts_init with any contents of the variables: an unset mtdparts drops a table that was stored in it, a text of 512 or more characters is refused and changes nothing, a text that differs from the last one is read, and the last one is not; the table always is one that the variable denotes; the partition that the variable "partition" names is selected if there is one, the first one after reading, and otherwise the selection stays |
| MtdCommands.Commands.Add | src/common/cmd_jffs2.c:2079-2102 | the devices are those of the edit; a definition that is not taken leaves variable and table alone, and otherwise the variable holds the new text, or nothing with an error if that does not fit; the table stays in the state that the parser establishes |
| MtdCommands.Commands.Del | src/common/cmd_jffs2.c:1357-1382 | an identifier without a partition changes nothing; otherwise that partition goes, with its device if it was the last one, and the variable holds the new text, or nothing; only deleting a later partition with the offset of the selected one can leave the table without a selection |
| MtdCommands.Commands.Save | src/common/cmd_jffs2.c:1234-1246 | variable and copy of it become the text of the table, or empty when the table is empty or the text without its prefix does not fit |
| MtdCommands.Commands.DelAll | src/common/cmd_jffs2.c:2027-2035 | no device, no selection and no variable are left |
| MtdCommands.Commands.ChangePart | src/common/cmd_jffs2.c:1979-2005 | chpart: succeeds exactly if mtdparts_init does and the identifier names a partition of the table that is there then; that partition is selected |
| MtdReload.Restart | src/common/cmd_jffs2.c:1556-1685 | the next start with the variables that the commands left succeeds exactly if the text is shorter than 512 characters and no size in it is illegible; the devices then come back with their runs of equal offsets turned around, and when all offsets differ, with every partition in its place and the same one selected |
| MtdReload.SavedAndRefused | src/common/cmd_jffs2.c:1614-1617 | there are tables whose text is saved without an error and is refused at the next start as too long |
| MtdTable.SelectionFollowsInsert | src/common/cmd_jffs2.c:551-564 | after an insertion the adjusted number denotes the selected partition if and only if it was below 255 or the new partition starts behind it |
| MtdTable.SelectionFollowsDelete | src/common/cmd_jffs2.c:456-471 | after deleting another entry the adjusted number denotes the selected partition if and only if the entry stood in front of it or has another offset |
| MtdSelectionLost.LaterTwinDeleted | src/common/cmd_jffs2.c:456-471 | deleting the later one of two partitions with one offset turns number 0 of the selected one into 255, which denotes nothing |
| MtdSelectionLost.NumberWraps | src/common/cmd_jffs2.c:551-564 | a partition put in front of the selected number 255 turns it into 0, and the new partition is selected instead |
| MtdTable.InsertedOrdered | src/common/cmd_jffs2.c:540-571 | insertion keeps the list ordered by offset and free of duplicates |
| MtdCal.AthNandGetCalOffset | src/common/cmd_mii.c:620-658 | the loop over the boot arguments computes the offset in front of the first name with the calibration prefix, or the invalid value |
| MtdCal.CalOffsetAgrees | src/common/cmd_mii.c:620-658 | for the list between the colon and the next blank or the end of the boot arguments, with suffixed sizes, names, no "@" and no ";": the result is the offset that device_parse assigns to the first partition with the prefix, if and only if no size in front of it overflows 32 bits, and invalid if there is none |
| MtdCal.SizeOverflows | src/common/cmd_mii.c:632-658 | a list whose first size overflows: the loop finds a 33-bit offset where the partition parser has a 32-bit one |
| MtdCal.CalBefore | src/common/cmd_mii.c:632-658 | the loop does not look behind the end of the list, whatever follows it in the boot arguments |
| MtdCal.CalAgrees | src/common/cmd_jffs2.c:919-940 | the same from any entry of the list on, with the offset accumulated so far |
| Environment.SetKeepsOrder | src/common/cmd_nvedit.c:155-324 | setenv refines an ordered map: the old binding goes, all others keep their order, the new one comes last; on failure at most the named binding is gone |
| Environment.GetAfterSet | src/common/cmd_nvedit.c:486-506 | getenv after setenv gives the new value for the name and the old value for every other name |
| Environment.SetKeepsWellFormed | src/common/cmd_nvedit.c:155-324 | every edit keeps entries nonempty, with one name each, all names different, and free of stray NULs |
| Environment.RunKeepsWellFormed | src/common/cmd_nvedit.c:155-324 | the same for every run of commands |
| Environment.WriteOnceStep | src/common/cmd_nvedit.c:184-200 | a protected variable keeps its value if and only if the command is for another name, spells the name without "=", or writes the same value again |
| Environment.EqualsOverwrites | src/common/cmd_nvedit.c:184-200 | ethaddr keeps its value under "setenv ethaddr B" and loses it under "setenv ethaddr= B" |
| Environment.WriteOnceRun | src/common/cmd_nvedit.c:386-400 | once bound, serial# and ethaddr keep their value through every run of commands with "="-free names |
| Environment.SpelledWithEquals | src/common/cmd_nvedit.c:559-570 | a name with "=" in it passes every check that protects the binding it matches |
| Environment.SingleNuls | src/common/cmd_nvedit.c:265-271 | inside the encoded entries no NUL follows another one, so every scan for the double NUL stops at the end mark and not before |
| Setenv.OrdinaryCommand | src/common/cmd_nvedit.c:155-324 | a name without checks, or one that is not bound, is never refused: the old binding goes, and the new value comes last exactly if the encoding with it fits the environment; without a value the command succeeds |
| Setenv.SerialNumber | src/common/cmd_nvedit.c:187-200 | a bound serial# is changed only where overwriting is configured |
| Setenv.EthernetAddress | src/common/cmd_nvedit.c:187-200 | a bound ethaddr is changed only where overwriting is configured, or while it has the configured default |
| Setenv.ConsoleName | src/common/cmd_nvedit.c:202-225 | a bound stdin, stdout or stderr is changed exactly if there is a value and the console code accepts it |
| Setenv.BaudRate | src/common/cmd_nvedit.c:227-240 | a bound baudrate is changed exactly if the rate table accepts the value, also by a deletion |
| Setenv.ChangeIsSeen | src/common/cmd_nvedit.c:155-324 | a command that is not refused succeeds exactly if it is a deletion or the encoding fits; getenv then gives the words joined by blanks, or nothing after a deletion and for lack of room, and the old value for every other name |
| Setenv.NewIsJoined | src/common/cmd_nvedit.c:313-321 | the entry of a name without "=" is the name and the words joined by single blanks |
| EnvStore.EnvMatch | src/common/cmd_nvedit.c:559-570 | returns the position of the value if and only if the name up to its first "=" is the name of the entry |
| EnvStore.FindVar | src/common/cmd_nvedit.c:173-179 | the search stops at the first entry with that name, or at the end mark |
| EnvStore.GetEnv | src/common/cmd_nvedit.c:486-506 | the result points to the NUL-terminated value of the name, and is NULL if and only if there is none |
| EnvStore.ShiftDown | src/common/cmd_nvedit.c:265-272 | the compacting loop moves everything up to the first double NUL down over the entry and changes nothing behind the old end |
| EnvStore.DeleteVar | src/common/cmd_nvedit.c:258-273 | the array then encodes the list without the entry, also when it was the last or the only one |
| EnvStore.FindEnd | src/common/cmd_nvedit.c:296-299 | the position behind the last entry |
| EnvStore.NeededLength | src/common/cmd_nvedit.c:304-308 | the length compared with the room is that of the new entry with both NULs |
| EnvStore.AppendVar | src/common/cmd_nvedit.c:313-324 | exactly the new entry and two NULs are written, everything else stays, nothing behind the array is touched |
| EnvStore.DoSetenv | src/common/cmd_nvedit.c:155-324 | return code and contents are those of the ordered map, whose commands the laws of Setenv describe: refused, deleted, deleted for lack of room, or replaced |
| KermitDelivery.ExactlyOnce | src/common/cmd_load.c:799-975 | over every trace in groups by sequence number, with any number of duplicates and damaged arrivals in each, memory holds the decoded data of every packet once |
| KermitDelivery.FileArrives | src/common/cmd_load.c:799-975 | a session whose data packets spell the prefixed file, cut anywhere, leaves exactly the file in memory; the prefix is the one that the sender put into its parameters, or "#" if it sent fewer than six |
| KermitDelivery.FileReceived | src/common/cmd_load.c:799-975 | the same for the bytes on the line, with noise between the packets |
| KermitSession.FileDownloaded | src/common/cmd_load.c:799-975 | packets of a sender that prefixes a file in its own way and cuts it anywhere, as bytes with length, type and check, with repetitions, damaged arrivals and noise between them: the receiver finishes with exactly the file, whatever follows the BREAK packet; the prefix is the one that the sender put into its parameters, or "#" if it sent fewer than six |
| KermitSession.CleanDownload | src/common/cmd_load.c:799-975 | the same for a sender that sends each packet once, with parts of any lengths up to 220 |
| KermitSession.Download | src/common/cmd_load.c:530-557 | loadb over that line finishes, reports the length of the file as the size, and memory holds the file |
| KermitDelivery.EarlyHeaderFault | src/common/cmd_load.c:866-894 | a fault in length or sequence byte in front of a new packet undoes exactly the packet acknowledged before it, contrary to the hope in the comment at lines 879-885 |
| KermitDelivery.PacketIsLost | src/common/cmd_load.c:866-894 | a trace of one data packet and such a fault, after which the byte of the packet is gone from memory although it was acknowledged |
| KermitDelivery.StreamRun | src/common/cmd_load.c:833-975 | the bytes of a stream have the effect of the arrivals that they carry |
| KermitDelivery.PacketScans | src/common/cmd_load.c:863-955 | a packet with length, sequence number, type, data and type 1 block check is read as itself |
| KermitDelivery.LongPacketScans | src/common/cmd_load.c:905-928 | a packet of extended length with its header check is read as itself, too |
| KermitDelivery.AllRepliesPass | src/common/cmd_load.c:568-621 | on every input, every ACK, NACK and parameter reply passes the length and block check of this receiver |
| Kermit.AskedIsTaken | src/common/cmd_load.c:716-762 | line end, padding count and character and the prefix are taken from the parameters that ask for them, with the defaults for those that are missing |
| KermitReplies.EveryArrivalIsAnswered | src/common/cmd_load.c:799-975 | over every run with a sender that keeps to its line: each arrival gets one reply in order, ACK with its number for an intact packet (with parameters for send-init) and NACK for anything else, in as much padding and with the line end that the sender asked for |
| KermitReplies.ReplyAsksForDefaults | src/common/cmd_load.c:764-795 | the parameters in the reply ask, read as a sender would read them, for no padding, CR and "#" |
| KermitReplies.ReplyFields | src/common/cmd_load.c:764-795 | the reply has a field for each one that was sent, up to ten, and three more behind the tenth, with these values: packets of 94 characters, no eighth-bit prefix, type 1 checks, no repeat counts, and long packets |
| KermitDamage.CheckIsOfBits | src/common/cmd_load.c:578-586 | the block check is the sum with its bits 6 and 7 added, six bits of it, as a character |
| KermitDamage.DamageIsNoticed | src/common/cmd_load.c:863-955 | a short packet in which one bit behind the length byte has changed is never taken for a packet |
| KermitDamage.LongDamageIsNoticed | src/common/cmd_load.c:863-955 | the same for every packet of extended length |
| KermitDamage.ScanIsEarliest | src/common/cmd_load.c:863-955 | the verdict on a packet comes with its last byte: with one byte less the receiver still waits, for all inputs |
| KermitDamage.PendingIsPart | src/common/cmd_load.c:863-955 | while a packet comes in, its number has made a checkpoint and its data are absorbed as far as they have come |
| KermitDamage.LongPendingIsPart | src/common/cmd_load.c:863-955 | the same for packets of extended length |
| Kermit.EncodeRoundTrip | src/common/cmd_load.c:689-704 | control-prefix decoding inverts the encoding for every byte string, eighth bits included, for every legal prefix character |
| Kermit.DecodeSplit | src/common/cmd_load.c:673-704 | the encoded text may be cut anywhere, also between a prefix and its character |
| Kermit.ByteRoundTrip | src/common/cmd_load.c:568-576 | a byte survives prefixing if and only if it is a control character, is not the prefix, or the prefix is left alone by ktrans |
| Kermit.IllegalQuote | src/common/cmd_load.c:758-761 | for a prefix character that ktrans changes, the prefix itself is not transmitted; the receiver takes any such character |
| Kermit.ScanLocal | src/common/cmd_load.c:863-955 | the verdict on a packet does not depend on what follows it |
| KermitReceiver.Receiver.KDataSave | src/common/cmd_load.c:679-683 | the checkpoint takes over escape flag and address |
| KermitReceiver.Receiver.KDataRestore | src/common/cmd_load.c:684-688 | escape flag and address go back to the checkpoint; bytes below the saved address are as they were then |
| KermitReceiver.Receiver.KDataChar | src/common/cmd_load.c:689-704 | one character is decoded: prefix, prefixed or plain |
| KermitReceiver.Receiver.GetPacket | src/common/cmd_load.c:863-955 | verdict, consumed bytes and the effect on memory are those of the scanned packet, including damaged ones |
| KermitReceiver.Receiver.Answer | src/common/cmd_load.c:955-971 | rollback and NACK, or the right acknowledgement and the end of the transmission |
| KermitReceiver.Receiver.KRecv | src/common/cmd_load.c:799-975 | outcome, memory, line parameters and all replies are those of the receiver specification on the same bytes, also while it waits for more; the size is the number of bytes delivered |
| SRecord.RecordDecodes | src/common/s_record.c:30-170 | a written S3 record is decoded to its address and data |
| SRecord.RecordIsWellFormed | src/common/cmd_load.c:324-371 | the record is "S3" and the digits of length, address, data and check byte, whose sum ends in 0xFF; with at most 16 data bytes it fits its 48-byte buffer, and no character in it ends or aborts a line |
| SRecordFile.LineDecodes | src/common/s_record.c:30-170 | a line of any of the types of Motorola's format, with any address and data, is decoded to type, address and data exactly if its bytes add up to 0xFF, and gives a checksum error otherwise |
| SRecordFile.BadDigit | src/common/s_record.c:30-170 | with any digit of such a line replaced by another character it is no record |
| SRecordFile.UnknownType | src/common/s_record.c:60-98 | every other type is refused as such, whatever stands behind it |
| SRecordFile.FrontIsSkipped | src/common/s_record.c:40-55 | what stands in front of the first S of a line makes no difference |
| SRecordTransfer.UploadDownload | src/common/cmd_load.c:329-382 | for every address, count and offset, wrapping included, downloading the upload brings the range, moved by the offset, into any memory and changes nothing else; the reported size is the count for nonempty ranges that do not wrap where they then stand, 2 for an empty one, and for wrapping ranges what the bounds of their records give |
| SRecordTransfer.UploadedCell | src/common/cmd_load.c:160-190 | cell by cell: the byte uploaded from address addr + i stands at addr + offset + i modulo 2^32 afterwards |
| SRecordTransfer.SizeIsLength | src/common/cmd_load.c:181-190 | when the reported size is the count, exactly: the range is not empty and does not go beyond the address space, or lies in one record across its end, or starts unaligned and is 16 bytes short of the address space |
| SRecordTransfer.WrappedUpload | src/common/cmd_load.c:181-190 | 32 bytes from 0xFFFFFFF0 on are reported as size 0 |
| SRecordTransfer.LoadRecords | src/common/cmd_load.c:141-213 | the data records tile the moved range in order from any record on, and give the lowest and highest address also where a record crosses the end of the address space |
| SRecordFile.FileIsLoaded | src/common/cmd_load.c:140-213 | a file of any records with an end record behind them, downloaded with any offset: every data record goes to its address plus the offset, header and count records change nothing, and the end record gives the entry address |
| SRecordSerial.SaveSerial | src/common/cmd_load.c:329-382 | the byte loop with its running checksum emits the header, the records of at most 16 bytes, and the end record |
| SRecordSerial.ReadRecord | src/common/cmd_load.c:216-253 | a line ends at CR, LF or 516 characters, NUL and ^C abort |
| SRecordFile.LineIsRead | src/common/cmd_load.c:216-253 | text up to CR or LF is one line, NUL and ^C abort, and a longer text is cut behind 516 characters |
| SRecordSerial.SrecDecode | src/common/s_record.c:30-170 | type, address, data and checksum verdict for every text, with the error for each malformed one |
| SRecordSerial.LoadSerial | src/common/cmd_load.c:140-213 | memory and outcome are those of the line-by-line specification, with lowest and highest address; what that does with uploads and other files, at every offset, is the subject of UploadDownload and FileIsLoaded |
| MemoryTest.TestAlgorithm | src/common/cmd_mem.c:1499-1629 | for sizes above one word the test fails if and only if two words of the range share a cell or a used cell has a bit stuck at 0 or 1; a test that passes leaves the initial fill |
| MemoryTest.Round | src/common/cmd_mem.c:1532-1619 | one stride alone already finds every such fault, raises no false alarm, accesses every word by two reads and two writes, and leaves memory as it was filled |
| MemoryTest.Sweep | src/common/cmd_mem.c:1533-1577 | the accesses of a complete inner sweep are one read and one write of every word, in an order without repetitions, each word is compared, and the inverse is stored |
| MemoryTest.Fill | src/common/cmd_mem.c:1528-1530 | every word holds what the first sweep expects, when no two share a cell |
| MemoryTest.FillIsNumber | src/common/cmd_mem.c:1514-1530 | that is, in 32 bits, the pattern as it was given, and its own address with pattern 2 |
| MemoryTest.VisitStep | src/common/cmd_mem.c:1539-1576 | one visit keeps the sweep invariant: passed words have cells of their own with the inverse in them |
| MemoryTest.PassOne | src/common/cmd_mem.c:1533-1535 | going on by one stride passes exactly one more word |
| MemoryTest.InverseDiffers | src/common/cmd_mem.c:1541-1545 | the inverse written for one word is never what is expected of another one, for all patterns |
| MemoryTest.ShowsBoth | src/common/cmd_mem.c:1576-1581 | a cell that has shown a word and its inverse has no stuck bit |
| FlashRanges.FillSectRanges | src/common/cmd_flash.c:197-277 | return code, selected sectors of every bank and sector count are those of the plan |
| FlashRanges.ScanSectors | src/common/cmd_flash.c:227-242 | the sector loop finds the sector that starts at the range start and the one that ends at its end |
| FlashSafety.PlanIsSafe | src/common/cmd_flash.c:197-277 | on success every selected sector lies inside the range, for all layouts in which no bank ending at 0xFFFFFFFF precedes one at address 0 |
| FlashSafety.SafeLayout | src/common/cmd_flash.c:261-262 | for banks that do not overlap, plans are safe for all ranges if and only if the layout is of that kind |
| FlashSafety.WrapSelectsOutside | src/common/cmd_flash.c:261-262 | in any other layout the wrapped address selects a bank outside the range |
| FlashSafety.UpperTakesLower | src/common/cmd_flash.c:261-262 | two banks, and a range for which the plan takes the lower one, too |
| FlashSafety.EndIsReached | src/common/cmd_flash.c:243-270 | on any layout, planning never passes over a known bank that has a sector ending at the last address: it fails, or some selection reaches that address |
| FlashExact.PlanIsExact | src/common/cmd_flash.c:197-277 | on back-to-back known banks planning succeeds if and only if the range starts and ends with a sector; the selection is then exactly the range and s_count the number of its sectors |
| FlashAddress.AddrSpec | src/common/cmd_flash.c:126-192 | both arguments must be numbers as a whole, which FlashArguments describes; with "+" the end is computed in 32 bits and moved to the end of its sector, or rejected |
| FlashArguments.PlainRange | src/common/cmd_flash.c:126-145 | "start end" is taken exactly if both texts are hexadecimal digits of either case with "0x" in front or without it, and then stands for exactly those two addresses modulo 2^32 |
| FlashArguments.NumberIsHexadecimal | src/common/cmd_flash.c:131-145 | a text, or the rest of one, counts as a number exactly if it is such a numeral |
| FlashArguments.EndIsPlanned | src/common/cmd_flash.c:108-145 | on back-to-back known banks "start end" plans exactly if the two are the start of a sector and the end of one, and then selects exactly the addresses in between |
| FlashAddress.RoundUp | src/common/cmd_flash.c:148-183 | the loops over banks and sectors find the first sector that holds the address and its end |
| FlashAddress.LengthIsPlanned | src/common/cmd_flash.c:114-117 | "start +length" from a sector start plans if and only if the range fits into flash without wrapping, and then the least range of whole sectors that includes it |
| FlashAddress.ZeroLength | src/common/cmd_flash.c:138-143 | a zero length behind a sector start never plans anything |
| FlashAddress.SectErase | src/common/cmd_flash.c:508-551 | the driver is called once for each selected bank in order until one call fails, the counted sectors are those of the calls made, and an empty or failed plan erases nothing |
| BootRecordWrite.WrittenIsFound | src/common/cmd_bdr.c:331-397 | after the record with the next number has been laid over the start or end of a 64 KB block, the search ends with that number if and only if it is valid and the other place of the block shows no higher one then, which can be told from the old flash and the record; the search then gives the record's address and arguments; the other place can overtake only if it claims a record reaching into the 1 KB of the new one |
| BootRecordWrite.RecordIsOvertaken | src/common/cmd_bdr.c:331-397 | there are a flash and a record with which that happens: the 1 KB written at the end of a block completes a longer record that its start claims, and the search ends with that one |
| BootRecordWrite.RecordTags | src/common/cmd_bdr.c:96-157 | parse_tag gives back address and 512-byte arguments of a written record, whatever stands behind its stop tag |
| BootRecordWrite.OtherSlots | src/common/cmd_bdr.c:165-267 | writing a record changes the sequence number of no other place, except one that reaches into it |
| BootRecord.HighestFound | src/common/cmd_bdr.c:288-292 | the search ends with the highest valid sequence number |
| BootRecord.SelectedSlot | src/common/cmd_bdr.c:209-212 | the first place with the highest number is the one whose address and arguments are kept |
| BootRecordStore.BootRecords.ParseTag | src/common/cmd_bdr.c:96-157 | the tag loop computes address and arguments from the tags up to the first bad or stop tag |
| BootRecordTags.TagsAreTaken | src/common/cmd_bdr.c:96-157 | for a record with any tags in any order, numbered and with a stop tag: every address tag and every argument tag of up to 129 words is taken, later ones replace earlier ones, and tags of other names are passed over |
| BootRecordTags.BadTagEnds | src/common/cmd_bdr.c:108-142 | a tag with a wrong number, without a count, an address of other than one word or more than 129 words of arguments ends the reading, and what was read stays |
| BootRecordStore.BootRecords.FindBdrStart | src/common/cmd_bdr.c:165-215 | sequence number of a record at the start of a block, 0 when header and trailer do not fit together, and the globals afterwards |
| BootRecordStore.BootRecords.FindBdrEnd | src/common/cmd_bdr.c:217-270 | the same for a record at the end of a block |
| BootRecordStore.BootRecords.FindBdr | src/common/cmd_bdr.c:277-310 | from any offset on, the globals are those of the search over the blocks, the last of which may reach beyond flash; it fails exactly without a record or with address 0 or 0xFFFFFFFF; offsets below the flash size get the flash base |
| BootRecordTags.BasedIsOr | src/common/cmd_bdr.c:302 | the boot address of an image in flash is or-ed with the flash base |
| BootRecordStore.BootRecords.WriteBdr | src/common/cmd_bdr.c:331-397 | success means that the record with the next number stands there; with a faithful driver nothing outside the 1 KB changes, and never anything outside the sector |
| BootRecordStore.BootRecords.WriteThenFind | src/common/cmd_bdr.c:277-397 | a record that was written at the start or end of a block is found by the next search with its number, address and arguments, if the number is valid and the other place of the block does not overtake it |
| BootRecord.SearchInFlash | src/common/cmd_bdr.c:288-292 | a search from a block boundary does not depend on what lies behind flash |
| FloppyDrive.Drive.ReadData | src/common/cmd_fdc.c:482-598 | the commands issued are those of the machine driven by the controller's answers, up to its end: SEEK and SENSE_INT in front of each track, READs, and after each fifth broken transfer RECALIBRATE, SENSE_INT, SEEK, SENSE_INT; TRUE if and only if no command timed out, no seek was found unfinished and fewer than 25 transfers broke off; the buffer then holds the requested blocks, block by block modulo 256 tracks, and as one stretch of the disk within them |
| FloppyDrive.Drive.ReadTracks | src/common/cmd_fdc.c:518-594 | the commands of the loop behind the first seek are those of the machine behind its first seek, up to its end |
| FloppyProtocol.Session.RunEnds | src/common/cmd_fdc.c:482-598 | over every run that follows the machine: at most 25 transfers break off, and it ends well exactly if no command failed and fewer than 25 did |
| FloppyProtocol.Session.Recalibrations | src/common/cmd_fdc.c:542-562 | each RECALIBRATE comes after five times as many broken transfers as there are recalibrations with it, and there are four at most |
| FloppyProtocol.Session.InFront | src/common/cmd_fdc.c:518-590 | in front of each READ stand the SEEK to its block and a SENSE_INT that found the seek ended, or the same READ, broken off |
| FloppyProtocol.Session.ReadIsSound | src/common/cmd_fdc.c:509-590 | every READ stays on the track of one head, and within 256 tracks inside the requested blocks |
| FloppyProtocol.Session.EndsWell | src/common/cmd_fdc.c:482-598 | with the blocks on the disk, answers without failures and with fewer than 25 aborts end well |
| FloppyProtocol.Session.AbortsOnly | src/common/cmd_fdc.c:527-568 | with all data on the disk, only aborts can break transfers off, and only time-outs and unfinished seeks can fail commands |
| FloppyProtocol.Session.BreaksOffAtAByte | src/common/cmd_fdc.c:527-540 | a READ that the controller takes breaks off exactly if one of its bytes is not handed over |
| Floppy.TruncatedNext | src/common/cmd_fdc.c:325 | blocks of one track follow each other also after truncation |
| Floppy.PlaceIsBlock | src/common/cmd_fdc.c:309-313 | track, head and sector stand for the block number, for every geometry |
| Floppy.TruncatedTrack | src/common/cmd_fdc.c:325 | with the 8-bit track register, a block beyond 256 tracks is read as its number modulo those tracks |
| FloppyDrive.Drive.Transfer | src/common/cmd_fdc.c:527-568 | bytes of the addressed sectors, in order; it breaks off exactly if the controller aborts inside the data or they do not lie on the disk |
| FloppyDrive.Drive.Retry | src/common/cmd_fdc.c:542-562 | up to four retries are read again without any other command; then RECALIBRATE, SENSE_INT, SEEK and SENSE_INT are issued, at most four times, and nothing more when the recalibrations are used up |
| BedbugBranches.AssembledBranch | src/common/bedbug.c:856-920 | for b, bl, ba, bla, bc, bcl, bca and bcla: an assembled branch is shown and followed to the same address, which is the typed one if and only if the distance is a number of words that fits the field; "next" of a call is the instruction behind it |
| BedbugBranches.BranchTable | src/include/bedbug/tables.h:85-102 | the eight table entries are well formed: disjoint operands, free fields, AA and LK fixed by the opcode |
| Bedbug.BranchReadBack | src/common/bedbug.c:866-879 | the field built from a distance is read back as the target if and only if the distance is word aligned and in range, for every field width up to 30 bits |
| BedbugTools.BranchIsShownAgain | src/common/bedbug.c:263-276 | the same through the numbers of the text and the address shown |
| BedbugAssembler.AssembledOperands | src/common/bedbug.c:375-402 | in every instruction packed from a well-formed table entry each operand is read back, silent ones as the opcode has them |
| BedbugAssembler.ValueOfText | src/common/bedbug.c:807-834 | each packed value is that of the operand's own word of the line |
| BedbugTools.AsmPpc | src/common/bedbug.c:755-843 | word reading, table lookup and the operand loop assemble what the specification says, with the error code for a bad opcode, a missing operand, or a bad register of any kind |
| BedbugLines.LineIsAssembled | src/common/bedbug.c:755-843 | a line of words with any blanks and commas between them: the name in letters of any case, and one word for each operand that is not silent, in order; it is assembled with the values of these words |
| BedbugLines.LineFails | src/common/bedbug.c:807-834 | the first operand without a good word gives the error: the number of operands for a missing word, otherwise that of the word |
| BedbugLines.NoOpcode | src/common/bedbug.c:774-800 | a line without words, and a name that the table does not have |
| BedbugLines.LowerIs | src/common/bedbug.c:1019-1031 | capital letters become small ones, and everything else stays |
| BedbugOperands.NumberIsRead | src/common/bedbug.c:992-1016 | decimal digits, and hexadecimal ones of both cases behind "0x" or "0X", with a minus sign or without, are read with their value as a signed long |
| BedbugOperands.RegisterIsTaken | src/common/bedbug.c:883-898 | "5", "r5", "R5", "%r5" and "%R5" are the same register; a number above 31 is the error of a bad register |
| BedbugOperands.PlainIsTaken | src/common/bedbug.c:915-919 | a number that fits the field is taken as it is, and a negative one as its complement |
| BedbugOperands.SpecialIsTaken | src/common/bedbug.c:528-561 | a special purpose register is taken by every ten-bit number but zero, with its halves swapped; zero, and a name that the table does not have, are the error of a bad register |
| BedbugOperands.TimeBaseIsTaken | src/common/bedbug.c:605-643 | a time base register is taken by 268, 269 or its name in letters of any case, and by nothing else |
| BedbugSpecial.FindSpr | src/common/bedbug.c:528-561 | the code of a special purpose register, from its number or from the first table entry with the name in lower case |
| BedbugSpecial.NameIsTaken | src/common/bedbug.c:528-561 | a name is taken if and only if its lower-case form stands in the table for a number that is not zero in ten bits; a table with capital letters in all names, as the one of tables.h, has none that is taken |
| BedbugSpecial.NumberIsShown | src/common/bedbug.c:492-561 | a register other than zero is taken by its number, and shown under its first name or its number |
| BedbugSpecial.NameIsFirst | src/common/bedbug.c:492-510 | the name shown is that of the first register with the number, and the number itself without one |
| BedbugSpecial.TbrIsTaken | src/common/bedbug.c:579-643 | the time base registers are shown under names by which they are taken |
| BedbugTools.NextWord | src/common/bedbug.c:955-979 | a word ends at a blank or comma, and one comma behind it is used up |
| BedbugTools.GetOperandValue | src/common/bedbug.c:375-402 | the first operand of that name, or failure |
| BedbugStepper.Condition | src/common/bedbug.c:1162-1216 | for all BO, BI, CTR and CR the branch is taken if and only if the PowerPC condition holds and the ignored bits of BO are zero |
| BedbugStepper.FindNextAddress | src/common/bedbug.c:1055-1236 | step and next for direct, CTR, LR and other instructions, with the opcode that the lookup by bits finds, and failure when it finds none; where every instruction word leads is the subject of BedbugFollow |
| BedbugLookup.FindOpcode | src/common/bedbug.c:419-442 | the loop computes the bisection |
| BedbugLookup.LookupIsMatch | src/common/bedbug.c:419-442 | in an ordered table whose masks take in the upper six bits and agree where those agree, the search ends with an entry if and only if the masked instruction is its opcode, for all instructions |
| BedbugLookup.AssembledIsFound | src/common/bedbug.c:419-442 | whatever is assembled with an entry whose mask leaves its operands out is found under that entry, in every table of that kind |
| BedbugBranches.BranchIsFound | src/include/bedbug/tables.h:85-102 | every assembled branch is found under its own entry |
| BedbugTable.TableIsGood | src/include/bedbug/tables.h:66-479 | all 206 entries of the opcode table: ascending codes, masks that take in the upper six bits and agree where those agree, operands that do not overlap each other, the opcode or the mask |
| BedbugTable.AssembledByTable | src/common/bedbug.c:755-843 | every line that is assembled with the table is found under the opcode that it names, and every operand is read back from it |
| BedbugTable.AssembledIsFollowed | src/common/bedbug.c:1055-1236 | every direct branch that is assembled with the table is found and followed to the address that is shown for it, which is the typed one if and only if the distance is a number of words that fits the field |
| BedbugFollow.IndirectIsFollowed | src/common/bedbug.c:1127-1154 | every word with the opcode of bclr or bclrl leads to LR, with that of bcctr or bcctrl to CTR, exactly if the condition of its BO and BI fields holds in a valid form, and behind itself otherwise; next of the link forms is the instruction behind |
| BedbugFollow.IndirectLine | src/common/bedbug.c:1127-1154 | an assembled line with one of these four names is followed to that register exactly if the condition of its typed operands holds in a valid form |
| BedbugFollow.DirectIsFollowed | src/common/bedbug.c:1096-1125 | every word with the opcode of a direct branch leads to four times its signed 14-bit or 24-bit distance, from the branch or from zero, always or under its condition |
| BedbugFollow.OthersGoOn | src/common/bedbug.c:1155-1159 | every other instruction of the 206 entries leads to the one behind it, for step and next |
| BedbugFollow.UnknownWords | src/common/bedbug.c:419-442 | nothing is known about a word exactly if no entry has its opcode under the mask |
| BedbugFollow.ConditionForms | src/common/bedbug.c:1161-1216 | the nine forms of the branch condition in terms of CTR and the condition bit, and the forms that are never taken |
| BedbugFollow.BitFromTheLeft | src/common/bedbug.c:1161-1216 | bit i of the condition register is the i-th one from the left |
| BitFields.FieldOr | src/common/bedbug.c:828 | a field of two words or'ed together is the or of their fields |
| BitFields.FieldOfShl | src/common/bedbug.c:919 | a value shifted into a field is read back there and nowhere else |
| LogBuffer.Buffer.Printk | src/common/cmd_log.c:215-263 | the ring then holds the last 16384 characters of the stream with the tagged message behind it; tagging in place overwrites only characters that are already logged |
| LogBuffer.Buffer.Store | src/common/cmd_log.c:244-250 | one character more, the oldest one gone when the ring was full, indices modulo 2^32 |
| LogBuffer.Buffer.TagLine | src/common/cmd_log.c:227-243 | a fresh line keeps its tag or gets the default one in the three characters in front of it; the level is the tag's |
| LogBuffer.Buffer.Show | src/common/cmd_log.c:179-184 | prints the ring, but nothing at all when it is full |
| LogRing.EveryLineIsTagged | src/common/cmd_log.c:227-243 | every line of the stream starts with a tag from 0 to 7 |
| LogLines.LinesAreLogged | src/common/cmd_log.c:223-244 | for every message, as lines with one of the eight tags or without a tag: each line is logged with its own tag, or with that of level 4, and the level behind the message is that of its unfinished line |
| LogRing.LineStep | src/common/cmd_log.c:244-257 | the stream of a line is its text with at most the default tag in front |
| LogRing.PiecesGiveTheSame | src/common/cmd_log.c:215-263 | a message logged in two calls gives the same stream if and only if the cut does not go through a tag at the start of a line |
| LogRing.PiecesLeaveTheSame | src/common/cmd_log.c:215-263 | such a message leaves the same stream and the same level |
| LogBuffer.Buffer.PrintPieces | src/common/cmd_log.c:215-263 | two calls with the parts of such a message leave the ring and the level of one call with the whole |
| Eeprom.Device.EepromWrite | src/common/cmd_eeprom.c:206-380 | on a device whose counter wraps inside a page, the range is cut into transfers at page ends and at the longest transfer; the return code is 0 if and only if all of them succeed, and then the write is flat; an end beyond 32 bits writes nothing, without a transfer, and reports success |
| Eeprom.Device.EepromRead | src/common/cmd_eeprom.c:132-195 | likewise on a counter that wraps inside 256 bytes: return code 0 if and only if all transfers succeed, and then the flat contents |
| Eeprom.WrittenIsFlat | src/common/cmd_eeprom.c:223-226 | a transfer that stays inside a page is a flat write |
| Eeprom.OffsetFromBlock | src/common/cmd_eeprom.c:269 | the page offset may be taken from the block offset if and only if pages divide 256 bytes |
| CircBuf.Buffer.Push | src/common/circbuf.c:81-110 | the buffer is a queue that keeps the newest totalsize bytes |
| CircBuf.Buffer.Pop | src/common/circbuf.c:54-79 | takes the oldest bytes in order, as many as there are at most |

## Left out

- MtdParser.GenerateMtdparts: the nine characters of the prefix are not charged to the room by the code, so success does not mean that the whole text fits `buflen`; the output is a sequence without a bound of its own.
- MtdTable.Table.PartDel: validity after the deletion is not promised when a later partition with the offset of the selected one goes, because the code then loses the selection.
- MtdTable.Table.ChangePart: a text with NULs; the `mtdparts_init` in front of it is in `MtdCommands.Commands.ChangePart`.
- MtdTable.Table.AddDefinition: the store through the NULL `ret` of `device_parse`; what surrounds it is in `MtdCommands.Commands.Add`.
- MtdCommands.Commands.Add: the definition text arrives composed and is shorter than 64 characters, so the length check, whose sum has 8 bits, is left out; the 16-bit partition count of a device does not run over.
- MtdCommands.Commands.Init: `mtdids` is parsed and does not change, the default variables are not used, and the variable "partition" has fewer than 16 characters, because the code copies longer ones without a terminator; the copy of the text has no bound of its own.
- MtdTable: device and partition lists are sequences of objects; links, `malloc` failure, the NAND cache and the name of a missing partition (a NULL dereference in `index_partitions`) are not.
- MtdCal.CalOffsetAgrees: the list has one device, explicit sizes with suffixes, and names without commas; outside that form the two readers differ in syntax; sums of 64 bits do not wrap in the model; the calibration prefix is a parameter because its definition is not part of this model.
- EnvStore.DoSetenv: the verdict of the console or the baud rate table about a new value is a parameter; checksum update, Ethernet and IP address side effects and the copy of the environment in flash are left out.
- EnvStore.GetEnv: the guard against an array without an end mark is left out, as the array invariant gives one.
- `getenv_r`: its terminator logic does not give a bounded string copy.
- KermitReceiver.Receiver.KRecv: the input is finite, and waiting for more is an outcome of its own; `os_data_count`, which nothing reads, and the serial line itself are left out.
- SRecordTransfer.UploadDownload: memory is the plain 32-bit address space; targets in flash go through the flash driver, which is not modelled. Console hangup and ^C during upload are left out.
- SRecordSerial.LoadSerial: a data record whose length byte is too small makes the code copy a negative number of bytes; the model ends there with the outcome `Crash`.
- MemoryTest.TestAlgorithm: the test stops at the first difference, as configured by `DISCARD_ERROR`; ^C, the error report and the random seed update are left out; faults are shared cells and stuck bits; sizes above 2^31 bytes, for which the stride overflows, are not covered.
- FlashRanges.FillSectRanges: sector starts ascend inside a bank and a bank ends at or below the last address, as the drivers set them up.
- FlashExact.PlanIsExact: all banks are detected and follow each other without gaps; for other layouts it is stated that plans are safe, and that none passes over the end of the range in silence (`FlashSafety.EndIsReached`).
- FlashAddress.SectErase: what the driver answers is a parameter.
- BootRecordStore.BootRecords.FindBdr: flash is a whole number of blocks; the subtraction of the flash base from an absolute address and the `bootcmd` text are not modelled.
- BootRecordStore.BootRecords.ParseTag: reading stops where the record ends; the code would go on reading its stack. An argument tag of 129 words overruns the 512-byte buffer by four bytes in the code and is cut in the model.
- BootRecordStore.BootRecords.WriteBdr: flash offsets count from the flash base; `ap93-hgw.h` with the flash geometry is not part of this model, so size and sector size are parameters.
- FloppyDrive.Drive.ReadData: the controller's answers are a parameter; polling time-outs inside a transfer, interrupts that never come, motor control and the result bytes of a failed transfer are left out.
- BedbugTools.AsmPpc: the length of the word buffer and operands without bits (a literal that no opcode uses) are left out.
- BedbugTable: the names of the special purpose registers are a parameter of the table, and what the disassembler prints for an offset in front of a register is left out.
- BedbugStepper.FindNextAddress: the instruction is given; reading it from memory is left out.
- LogBuffer.Buffer.Printk: what goes to the console at low levels is left out; a message has at most 1020 characters, as the work buffer demands.
- Eeprom.Device.EepromWrite: device selection bits, write enable, the block protection of one chip and delays are left out.
- CircBuf: a buffer of size zero, into whose data any push would write outside, is not modelled.
- Register dumps, thin drivers, IDE, SCSI and disk-on-chip commands, file systems, decompression, network loop, LEDs, watchdog and baud rate switching: device plumbing without an algorithm of this kind.
