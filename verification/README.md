# A verified model of the 3270 emulator's data paths

This project models, in Dafny 4.11, the parts of the x3270 suite where bytes from a host, a script or a file
become state, and proves that they do what they promise. `dafny verify dfyconfig.toml` checks everything.

What is modelled, and the main results:

* **The device buffer** (`Screen`, `WriteOrders`, `Commands`, `Device`). The orders of the 3270 data stream
  (section 4.3 of GA23-0059) as functions on cells, and the class `Device`, which updates an array of cells in place
  with the loops of the source and is proved to reach the state that those functions say. Over every run of Write,
  Erase/Write, Erase/Write Alternate and Erase All Unprotected commands, with any bytes, the cursor stays on the screen,
  attributes stay printable, `formatted` is true exactly when there is an attribute, and nothing is left beyond the
  active screen (`DeviceInvariant`, `WriteSafety`).
* **Orders over a range.** Where Program Tab goes and what it nulls, when a double-byte Repeat to Address covers just the
  cells up to its target, and when Erase Unprotected to Address erases exactly the unprotected cells on its way
  (`OrderMeaning`). What every order does to each cell, and when it is refused (`OrderEffects`), and what the commands
  do around the orders (`CommandEffects`).
* **Double-byte state.** The marks stored after a write agree with the left-looking scan used while writing
  (`DbcsMarks`), and in double-byte fields and behind character attributes it is said exactly where they do
  (`DbcsFields`, `DbcsAttributes`); which codes the pass changes (`DbcsCodes`); a second pass changes nothing, and it is said exactly when right and left halves make up valid
  characters (`DbcsStable`), on screens that any run of commands reaches (`AttributeCodes`).
* **Snapshot and Read Modified.** Replaying a snapshot stream gives back the screen, exactly when no cell has a
  background of its own that the stream cannot carry (`Snapshot`, `SnapshotReplay`); Read Modified sends exactly the
  cells of modified fields, each with its address (`ReadModified`, `ModifiedFields`).
* **IND$FILE transfer.** The CUT quadrant code is inverted however it is cut into frames, and the frames that the
  receiver refuses are named exactly (`CutCode`, `CutTransfer`, `CutReceive`); the DFT code for mixed single- and
  double-byte text is inverted however it is cut into records, and Get replies add up to the coded file for any
  buffer sizes (`DftCode`, `DftTransfer`). Where CRs are inserted is said exactly (`NewLines`), and so is what each
  frame and record holds (`FrameContents`).
* **JSON.** Parsing what the printer wrote gives back the tree, for both layouts and both ways to write characters
  beyond U+FFFF (`JsonText`, `JsonParse`, `JsonPrint`, `JsonRoundTrip`, `Utf8`; sections 4, 5 and 7 of RFC 8259);
  the strings that the parser accepts are characterised exactly (`JsonEscapes`), as is every other kind of element
  (`JsonGrammar`); text that is cut off is never accepted for an array, object or string (`JsonCutOff`); and the
  indented text is the one-line text laid out (`JsonLayout`).
* **Timers, script sockets, lists.** The timer queue over every run of add, remove and drain steps with callbacks that
  add and remove timers (`Timers`, `TimerQueue`); command framing independent of how input is chunked (`PeerScript`);
  ordered callbacks on circular linked lists (`Callbacks`); the recent-host list (`RecentHosts`); inserting and deleting
  in a field (`FieldEdit`); Base64 (`Base64`; section 4 of RFC 4648).

How it is modelled:

* Objects whose fields the source updates in place are classes (`Device`, `CutTransfer.Sender`, `CutReceive.Receiver`,
  `DftTransfer.Sender`, `DftTransfer.Receiver`, `JsonParse.Parser`, `TimerQueue.EventLoop`, `PeerScript.Peer`,
  `Callbacks.CallbackList`, `RecentHosts.HostList`). Their methods carry the loops of the source and are proved against
  functions on values; the theorems are about those functions.
* Bytes are integers below 256, and bit masks are written with `/` and `%`. The wrap variants of left and right
  double-byte halves are one state each. Code-page and multi-byte conversions, `strtod`, the clock, the contents of files
  and what callbacks do are parameters.
* What the code does is kept where it departs from what it is for. A field's foreground is sent as its background
  (`SnapshotReplay.ReplayFaithful`); Program Tab and characters stored over an attribute leave the attribute in force
  behind, so that an Erase Unprotected to Address right after them can take a field for another
  (`HostStreams.TabThenEraseMisses`); a CUT frame that converts to no bytes is taken for a failed write
  (`CutReceive.ProductiveIff`); the microseconds of a deadline may be a whole million, which lets a later timer
  overtake one that is due at the same instant (`Timers.TiesInOrder`); the JSON escape `\b` is rejected
  (`JsonEscapes.BackspaceEscapeRejected`); the controls U+0000, U+000E and U+008E do not survive a DFT transfer
  (`DftCode.ControlComesBack`); two-byte UTF-8 sequences may be longer than necessary (`Utf8.EncodeDecode`); an erase with
  control characters made visible leaves blanks beyond the screen (`DeviceInvariant.ErasedCleanIff`); an attribute
  written over a right half keeps the mark of that half (`HostStreams.FieldKeepsRightMark`); the control codes
  listed for double-byte characters are never accepted (`DbcsStable.ControlCodesNeverValid`); the cells of the
  double-byte field of location 0 get no marks (`DbcsFields.MarksInField`), nor does a double-byte cell directly behind
  an SI, and a scan from the last address of an unformatted screen does not leave it (`DbcsAttributes.MarksOfSet`); a NUL
  ends a JSON text (`JsonCutOff.NulEndsText`).

## Model

| member | source | states |
|---|---|---|
| `Screen.FindBackNearest` | Common/ctlr.c:434-462 | the backward search for an attribute finds the last one in the cells it inspects, and fails only if these have none |
| `Screen.FindBackComplete` | Common/ctlr.c:434-462 | a whole lap fails if and only if the screen has no attribute |
| `WriteOrders.AddressRoundTrip` | Common/ctlr.c:150-163 | decoding an encoded buffer address gives it back on screens of every supported size, in both address formats |
| `WriteOrders.Run` | Common/ctlr.c:1311-2149 | interpreting any bytes keeps the number of cells, and addresses stay on the screen unless the write aborts |
| `WriteSafety.RunSound` | Common/ctlr.c:1311-2149 | for every byte string, whether it succeeds or aborts, cells stay well formed (attributes zero or printable, colours and character sets in range) and cells beyond the screen are not touched |
| `WriteSafety.PostProcessSound` | Common/ctlr.c:2450-2598 | the double-byte pass keeps cells well formed and changes nothing but codes, character sets and marks of active cells |
| `DeviceInvariant.ErasedBlank` | Common/ctlr.c:545-587 | an erase to either size leaves a wholly null, unformatted screen with the cursor at 0, also when the screen grows |
| `DeviceInvariant.ErasedCleanIff` | Common/ctlr.c:545-587 | an erase leaves nothing beyond the screen if and only if control characters are not made visible, or the size stays and nothing was there before, or the new size fills the allocation |
| `DeviceInvariant.WrittenInvariant` | Common/ctlr.c:1311-2149 | a write of any bytes keeps the cursor on the screen, cells well formed, the formatted flag exact and cells beyond the screen null |
| `DeviceInvariant.EraseAllUnprotectedInvariant` | Common/ctlr.c:1257-1306 | Erase All Unprotected keeps all of this |
| `DeviceInvariant.ProcessedInvariant` | Common/ctlr.c:601-670 | so does every command, known or not |
| `DeviceInvariant.RunInvariant` | Common/ctlr.c:601-670 | and every run of commands |
| `DeviceInvariant.InitialInvariant` | Common/ctlr.c:2644-2668 | a cleared screen satisfies the invariant |
| `CommandEffects.CommandMeans` | Common/ctlr.c:601-670 | which code is which command: Write changes the screen as it is, the erase-writes first erase it to the default or the alternate size, reads and structured fields leave it alone, and other codes are unknown |
| `CommandEffects.EraseAllUnprotected` | Common/ctlr.c:1257-1306 | cell by cell: unprotected attributes lose their modified flags, the characters they govern become nulls, nothing else changes, and the cursor goes behind the unprotected attribute with the lowest address, or to 0; an unformatted screen is cleared |
| `CommandEffects.WriteBegins` | Common/ctlr.c:1360-1416 | the orders begin at the cursor with default attributes, and the reset bit of the write control character takes the modified flag of every attribute on the screen and nothing else |
| `CommandEffects.WriteComesTo` | Common/ctlr.c:2109-2149 | the orders and then the double-byte pass make the cells, the cursor moves only when an order asked for it, both have to succeed, and a write without a control character is rejected |
| `Device.Device.ProcessDs` | Common/ctlr.c:601-670 | the method on the array of cells reaches the state and gives the reply specified for the command |
| `Device.Device.Write` | Common/ctlr.c:1311-2149 | the in-place write reaches the state specified: orders, cursor, flags, and the double-byte pass afterwards |
| `Device.Device.Interpret` | Common/ctlr.c:1425-2115 | the loop over orders stops, and does to the cells and registers what the order functions say |
| `Device.Device.DoSF` | Common/ctlr.c:1430-1446 | Start Field as specified, on the array |
| `Device.Device.DoSBA` | Common/ctlr.c:1447-1465 | Set Buffer Address: the decoded address becomes current, or the write aborts because it is beyond the screen |
| `Device.Device.DoPT` | Common/ctlr.c:1477-1526 | Program Tab: the next unprotected field, nulling on the way when the last command was not an order |
| `Device.Device.DoRA` | Common/ctlr.c:1527-1641 | Repeat to Address, single- and double-byte: the cells from the buffer address to the target, going round the screen if need be |
| `Device.Device.DoEUA` | Common/ctlr.c:1642-1676 | Erase Unprotected to Address: exactly the unprotected cells on the way are nulled |
| `Device.Device.DoMF` | Common/ctlr.c:1703-1770 | Modify Field: the attribute pairs applied one by one |
| `Device.Device.DoSFE` | Common/ctlr.c:1771-1849 | Start Field Extended: the pairs gathered, then the field |
| `Device.Device.DoSA` | Common/ctlr.c:1850-1903 | Set Attribute: the defaults for later characters |
| `Device.Device.DoSI` | Common/ctlr.c:1952-1992 | Shift In: accepted just when the backward scan finds the SO it closes |
| `Device.Device.DoNull` | Common/ctlr.c:1993-2055 | a null, alone or as the first half of a double-byte control code |
| `Device.Device.DoChar` | Common/ctlr.c:2056-2110 | an ordinary character, or two in double-byte state |
| `Device.Device.LookLeftState` | Common/ctlr.c:2338-2411 | the two backward scans give the specified double-byte state and reason |
| `Device.Device.DbcsPostprocess` | Common/ctlr.c:2450-2598 | the pass over the array gives the specified cells and verdict |
| `Device.Device.Erase` | Common/ctlr.c:545-587 | the specified screen and size |
| `Device.Device.EraseAllUnprotected` | Common/ctlr.c:1257-1306 | the loop from field to field nulls exactly the unprotected cells, resets their modified flags, and puts the cursor behind the first unprotected attribute |
| `Device.Device.FindFieldAttribute` | Common/ctlr.c:434-462 | the loop finds the attribute specified |
| `Device.Device.NextUnprotectedAddr` | Common/ctlr.c:523-539 | the loop finds the address specified |
| `Device.Device.SetFormatted` | Common/ctlr.c:370-384 | the flag is true if and only if an active cell holds an attribute |
| `OrderEffects.StartField` | Common/ctlr.c:1430-1446 | in terms of cells, for the function that interprets one order: the printable form of the attribute with a null code and default attributes, every other cell unchanged, the address one further; refused just when the attribute is missing |
| `OrderEffects.SetBufferAddress` | Common/ctlr.c:1447-1465 | accepted just when both bytes are there and the address is on the screen; only the address changes |
| `OrderEffects.InsertCursor` | Common/ctlr.c:1466-1476 | the cursor will go to the buffer address, and no cell changes |
| `OrderEffects.RepeatToAddress` | Common/ctlr.c:1527-1641 | a single-byte repeat stores the order's character, or the one behind GE in the graphic set, in exactly the cells from the address up to the target, all of them if the two are the same, with the attributes in force, and stops at the target; it is refused just for a missing byte, an address off the screen or a right half |
| `OrderEffects.RepeatPairs` | Common/ctlr.c:1558-1637 | a double-byte repeat stores the two halves alternately; when each is stored where, also after a second lap on an odd screen, and when it is refused |
| `OrderEffects.ProgramTab` | Common/ctlr.c:1477-1526 | one step over an unprotected attribute; elsewhere to the target, with exactly the cells up to the next attribute nulled, after data alone |
| `OrderEffects.EraseUnprotected` | Common/ctlr.c:1642-1676 | which cells become nulls, and that they keep their attributes and all others keep everything; and when it is refused |
| `OrderEffects.GraphicEscape` | Common/ctlr.c:1677-1702 | the next byte goes to the cell at the address, in the graphic set |
| `OrderEffects.ModifyField` | Common/ctlr.c:1703-1770 | on an attribute the last pair of each type counts and the rest stays; elsewhere nothing changes; refused just when pairs are missing for an attribute |
| `OrderEffects.StartFieldExtended` | Common/ctlr.c:1771-1849 | an attribute with the values of the last pair of each type, and the defaults for types without one |
| `OrderEffects.SetAttribute` | Common/ctlr.c:1850-1903 | one attribute of later characters changes, or all go back to their defaults |
| `OrderEffects.FormatControl` | Common/ctlr.c:1904-1927 | the code is stored, and refused just in double-byte data |
| `OrderEffects.ShiftOut` | Common/ctlr.c:1928-1951 | stored, and refused just inside double-byte data that does not come from a character attribute |
| `OrderEffects.ShiftIn` | Common/ctlr.c:1952-1992 | stored just when the nearest shift code in front, no further back than the attribute, is an SO, and not over a right half or in a double-byte field |
| `OrderEffects.Null` | Common/ctlr.c:1993-2055 | a null in one cell, a control code in two, or a dead cell in front of a field; and when it is refused |
| `OrderEffects.Character` | Common/ctlr.c:2056-2110 | the character is in the cell, or both halves in two cells, with the attributes in force, all other cells unchanged; and when it is refused |
| `OrderEffects.UnsupportedOrder` | Common/ctlr.c:2056-2064 | every other code up to 3F changes no cell and is not refused |
| `OrderMeaning.NextUnprotectedNearest` | Common/ctlr.c:523-539 | the search gives the nearest first character of an unprotected field, round the screen if need be, and 0 when there is none |
| `OrderMeaning.TabTargetMeans` | Common/ctlr.c:1496-1503 | a tab goes forward to the next unprotected field and to 0 when none is ahead, but stays at the start of the only one |
| `OrderMeaning.TabNulls` | Common/ctlr.c:1477-1526 | a tab steps over an unprotected attribute; elsewhere it nulls just the cells up to the next attribute or its target, and only after data or after a nulling tab to address 0 |
| `OrderMeaning.DbcsFillMeans` | Common/ctlr.c:1558-1637 | a double-byte repeat covers exactly the cells up to its target if and only if the screen is even-sized or the target is ahead; otherwise it goes round twice and replaces the whole screen |
| `OrderMeaning.EraseUnprotectedExact` | Common/ctlr.c:1642-1676 | Erase Unprotected to Address erases exactly the unprotected cells on its way if and only if the attribute carried along is as protected as the one governing the buffer address, or the cells before the first attribute are erased already |
| `OrderMeaning.RunTracks` | Common/ctlr.c:1425-2115 | the attribute carried along stays right over every run without tabs in which only orders that look it up or set it touch attributes |
| `OrderMeaning.WriteStartTracks` | Common/ctlr.c:1406-1416 | every write starts with the right attribute |
| `OrderMeaning.TabTracksIff` | Common/ctlr.c:1477-1526 | after a tab to an unprotected field it is right if and only if the attribute in force before was unprotected |
| `OrderMeaning.OverwriteTracksIff` | Common/ctlr.c:2056-2110 | after a character over an attribute it is right if and only if it is as protected as the field in front |
| `HostStreams.TabThenEraseMisses` | Common/ctlr.c:1477-1676 | a stream that every terminal without double-byte support accepts from power-on: a tab from a protected field and an erase after it leave the letter in an unprotected field alone |
| `DbcsMarks.MarksAgree` | Common/ctlr.c:2338-2411 | on an even-sized screen with double-byte data only between SO and SI, after a pass without errors the left-looking scan gives for every ordinary cell the same left, right or none as the stored mark, also in fields that wrap |
| `DbcsMarks.FollowsAfter` | Common/ctlr.c:2450-2598 | after any number of iterations of an error-free pass, the flags and the current stretch follow the open SO and every cell passed bears its mark |
| `DbcsMarks.OpenShiftIsBack` | Common/ctlr.c:2380-2405 | the scan finds the SO that is open in front of a position |
| `DbcsFields.MarksInField` | Common/ctlr.c:2338-2598 | in double-byte fields mark and scan agree if and only if the field is not the one in which the pass begins, that of location 0, whose cells bear no marks although the scan tells left and right halves apart |
| `DbcsAttributes.MarksOfSet` | Common/ctlr.c:2366-2598 | for cells with the double-byte set outside such fields they agree if and only if the cell is not directly behind an SI, and not at the last address of an unformatted screen in a run that begins at an odd one, where the scan does not move |
| `DbcsCodes.CodesAfterPass` | Common/ctlr.c:2450-2598 | what a pass without errors does to the code of each character: halves of an invalid pair become blanks, a left half in front of a field becomes a null, and all others stay |
| `DbcsStable.SecondPassChangesNothing` | Common/ctlr.c:2450-2598 | after a pass without errors a second one has no errors and changes nothing |
| `DbcsStable.RightHalvesPairedIff` | Common/ctlr.c:2413-2598 | after a pass without errors every right half stands directly behind a left half and the two are a valid character, if and only if no SI is directly followed by two double-byte cells, and the attribute in front of location 0, which the pass does not visit, bears no old right-half mark |
| `DbcsStable.LeftHalvesPaired` | Common/ctlr.c:2450-2598 | after a pass without errors every left half stands in front of a right half, but for the last cell visited and an old mark of that attribute |
| `AttributeCodes.RunWellCoded` | Common/ctlr.c:2755-2765 | on even-sized screens every attribute holds a null, and there is none beyond the screen, over every run of commands |
| `AttributeCodes.WritePairs` | Common/ctlr.c:2450-2598 | a write that succeeds in any state that commands reach leaves all right halves paired under exactly the condition above |
| `HostStreams.FieldKeepsRightMark` | Common/ctlr.c:2450-2598 | two commands that every double-byte terminal accepts from power-on, after which an attribute bears the mark of the right half that it replaced |
| `DbcsStable.ControlCodesNeverValid` | Common/ctlr.c:2413-2442 | a pair is valid if and only if both halves are 40 to FE; the list of control codes in the source is never reached |
| `Snapshot.SnapBuffer` | Common/ctlr.c:1079-1190 | the loop over the array writes the specified stream |
| `SnapshotReplay.ReplayExact` | Common/ctlr.c:1079-1190 | replaying a snapshot on any state of the same terminal succeeds and gives back the size, the cursor, the formatted flag and every cell as the stream carries it |
| `SnapshotReplay.FaithfulIffSame` | Common/ctlr.c:1095-1130 | a cell comes back unchanged if and only if the stream carries all of it: for a field, highlighting below 8, no input control, and a background that is zero or the foreground |
| `SnapshotReplay.ReplayFaithful` | Common/ctlr.c:1079-1190 | the whole screen comes back if and only if every active cell is of that kind |
| `SnapshotReplay.BackgroundLost` | Common/ctlr.c:1114 | a field whose background differs from its foreground comes back with the foreground in its place |
| `SnapshotReplay.KeyboardRestored` | Common/ctlr.c:1092-1095 | the write control character of a snapshot restores the keyboard if and only if it was not locked |
| `ReadModified.ReadModified` | Common/ctlr.c:745-937 | the nested loops end, and give the reply whose meaning is the next row |
| `ModifiedFields.ReplyMeans` | Common/ctlr.c:745-937 | the AID and the cursor, or the AID alone for a PA key; then for each modified field in the order of addresses an SBA with the address of the cell behind its attribute and the non-null characters up to the next attribute, with the attributes asked for where they change, also round the end of the screen; unformatted, all non-null characters |
| `ReadModified.UnmodifiedFieldsHidden` | Common/ctlr.c:745-876 | the reply does not depend on what unmodified fields hold |
| `ReadModified.NothingAfterReset` | Common/ctlr.c:745-876 | once the modified flags are reset, a formatted screen sends no field data |
| `CutCode.CodePosition` | Common/ft_cut.c:155-176 | every code sent for a position in a quadrant is read back as that position |
| `CutCode.Covered` | Common/ft_cut.c:50-104 | every byte but zero has a place in some quadrant |
| `CutCode.ByteMeans` | Common/ft_cut.c:269-336 | the search for a quadrant never fails: every byte has a code of one or two characters that a receiver in the same quadrant takes for that byte |
| `CutCode.RoundTrip` | Common/ft_cut.c:134-385 | decoding an encoded string gives it back, or without its CRs and Ctrl-Zs, and leaves both ends in the same quadrant |
| `CutCode.EncodedAppend` | Common/ft_cut.c:307-385 | the code of a string is that of its parts, each begun in the quadrant in which the one before ended |
| `CutCode.DecodeAppend` | Common/ft_cut.c:134-263 | so is the meaning of a stretch of code, even when it is cut between a selector and its character |
| `CutCode.EncodedWell` | Common/ft_cut.c:269-385 | in an encoded stream a selector is followed by the code of a byte, and zero has one code |
| `CutCode.NothingDecoded` | Common/ft_cut.c:134-263 | a frame of an encoded stream converts to nothing if and only if it is empty or a selector alone |
| `CutCode.NeverEof` | Common/ft_cut.c:541-546 | no frame of an encoded stream looks like the end-of-file frame |
| `FrameContents.AlphaIs` | Common/ft_cut.c:56-57 | the characters for the 77 places of a quadrant are those of the alphabet of the source |
| `FrameContents.PlaceOf` | Common/ft_cut.c:59-104 | the place of each byte but zero is one at which the table of that quadrant has it |
| `FrameContents.SelectorOnlyIfNeeded` | Common/ft_cut.c:269-336 | a selector is sent if and only if the byte has no place in the quadrant in effect |
| `CutTransfer.ExpandedKept` | Common/ft_cut.c:713-745 | after the receiver drops CRs and Ctrl-Zs, the inserted CRs are gone and the characters of the file remain |
| `NewLines.CutInsertsCrs` | Common/ft_cut.c:713-745 | binary files are sent as they are, text character by character, and with CR processing a CR goes in front of exactly the LFs that have none |
| `FrameContents.DigitIs` | Common/ft_cut.c:105-106 | the digits of a length are those of the source |
| `CutTransfer.FramedLength` | Common/ft_cut.c:553-556 | the two length digits of a frame are read back as its length |
| `CutTransfer.RepliesComplete` | Common/ft_cut.c:497-575 | enough data requests bring over the whole coded file, and only the frame after it is taken for the end |
| `CutTransfer.ReplyLengths` | Common/ft_cut.c:497-575 | every frame fits the screen and says how long it is |
| `FrameContents.FramesHold` | Common/ft_cut.c:497-575 | which codes each frame holds: 1912 of them, the last with data the rest, and all after that the end of the file |
| `CutTransfer.Sender.StoreDownload` | Common/ft_cut.c:269-303 | the table searches give the specified code and quadrant |
| `CutTransfer.Sender.DownloadConvert` | Common/ft_cut.c:307-385 | the loop gives the specified codes, never none, and at most two for a byte |
| `CutTransfer.Sender.XlateGetc` | Common/ft_cut.c:684-762 | one code at a time, in the order of the coded file, with the rest of a character kept for later |
| `CutTransfer.Sender.DataRequest` | Common/ft_cut.c:497-575 | the frame holds the next codes, as many as fit; at the end it is the end-of-file frame |
| `CutReceive.Receiver.UploadConvert` | Common/ft_cut.c:134-263 | the loop with its retries gives the specified bytes and quadrant, or fails just when the text is wrong |
| `CutReceive.Receiver.CutData` | Common/ft_cut.c:599-655 | the specified outcome for a frame: too long, end of file, wrong, empty after conversion, or stored |
| `FrameContents.OutcomeIs` | Common/ft_cut.c:599-655 | what becomes of a frame with each kind of content, and what is stored |
| `CutReceive.PartsArrive` | Common/ft_cut.c:599-655 | cut into any frames that fit, a stream arrives decoded as a whole if and only if each frame converts to something |
| `CutReceive.ProductiveFrames` | Common/ft_cut.c:630-647 | for binary data this is so if and only if no frame is empty or a selector alone |
| `CutReceive.BinaryArrives` | Common/ft_cut.c:134-385 | a binary file arrives unchanged, wherever its code is cut, if and only if no frame is empty or a selector alone |
| `CutReceive.HollowDecodes` | Common/ft_cut.c:134-198 | with CRs and Ctrl-Zs dropped, a frame converts to nothing if and only if it holds only selectors and codes of CR and Ctrl-Z, and it leaves the quadrant of its last selector in effect |
| `CutReceive.ProductiveIff` | Common/ft_cut.c:630-647 | no frame is refused if and only if none is of that kind; without CR processing, none empty or a selector alone |
| `CutReceive.TextArrives` | Common/ft_cut.c:134-385 | a text file arrives as its characters, without CRs and Ctrl-Zs if these are processed, if and only if no frame is refused |
| `CutReceive.CutBehindSelector` | Common/ft_cut.c:630-647 | a file of one byte that does not arrive, because its code is cut behind the selector |
| `DftCode.DisplayableCodes` | Common/ft.c:101-136 | for EBCDIC codes 40 to FE the two tables are inverse, and no code is sent as a control or shift |
| `DftCode.ControlCodes` | Common/ft.c:101-136 | controls other than U+0000, U+000E and U+008E are sent as themselves |
| `DftCode.CharArrives` | Common/ft_dft.c:292-386 | the code of a character, framed for what was sent before it, is received as that character, with both ends agreeing on the shift |
| `DftCode.TextArrives` | Common/ft_dft.c:219-386 | mixed single- and double-byte text arrives exactly, or with CR processing without its CRs and Ctrl-Zs, and the receiver ends up unshifted |
| `DftCode.RecordsArrive` | Common/ft_dft.c:219-386 | so it does in records of any lengths, even cut between the halves of a character |
| `DftCode.PlainTextArrives` | Common/ft_dft.c:288-312 | without remapping, a file arrives without its CRs and Ctrl-Zs |
| `DftCode.ControlComesBack` | Common/ft_dft.c:523-537 | a control comes back if and only if it is not U+0000, U+000E or U+008E |
| `DftCode.ShiftOutLost` | Common/ft_dft.c:523-537 | a code page in which U+000E can be read and written, but does not come back |
| `DftTransfer.RepliesAddUp` | Common/ft_dft.c:566-669 | for any buffer sizes the data adds up to the start of the coded file, to all of it once the end is reported, which happens after enough requests and then for good |
| `DftTransfer.RepliesNumbered` | Common/ft_dft.c:624-655 | every piece of data carries the next record number, is not empty and fits its buffer |
| `FrameContents.RecordsFull` | Common/ft_dft.c:566-669 | every record but the last fills its buffer |
| `NewLines.DftInsertsCrs` | Common/ft_dft.c:502-517 | without remapping a CR goes in front of exactly the LFs that have none: every LF sent stands behind a CR, a file in which that is so is sent unchanged, one without CRs with CR LF for each LF |
| `NewLines.RemappedInsertsCrs` | Common/ft_dft.c:474-563 | remapped text with CR processing is sent as the text with these CRs is sent without, whatever the shift state |
| `DftTransfer.Sender.StoreInbyte` | Common/ft_dft.c:422-431 | a byte goes to the buffer while there is room, and to the cache after that |
| `DftTransfer.Sender.AsciiRead` | Common/ft_dft.c:439-563 | the bytes given out and those still to come make up the coded file; at most two are cached, and none at the end |
| `DftTransfer.Sender.GetRequest` | Common/ft_dft.c:566-669 | the reply holds the next bytes of the coded file, as many as the buffer takes, or says that there are none |
| `DftTransfer.Sender.GetRequests` | Common/ft_dft.c:566-669 | the replies to a run of requests are those that the theorems above speak of |
| `DftTransfer.Receiver.DataInsert` | Common/ft_dft.c:263-386 | the conversion loop appends the specified bytes and carries the double-byte state to the next record |
| `Utf8.DecodeEncode` | Common/utf8.c:102-260 | decoding the encoding of any 31-bit character gives it back with its length, whatever follows |
| `Utf8.EncodeDecode` | Common/utf8.c:157-260 | what is decoded encodes to the bytes consumed if and only if the lead byte is not C0 or C1 |
| `Utf8.OverlongAccepted` | Common/utf8.c:157-260 | two bytes that decode to the at sign, which is encoded as one |
| `JsonText.HexRoundTrip` | Common/json.c:251-262 | four hexadecimal digits printed for a 16-bit value are read back as that value |
| `JsonText.DigitsValue` | Common/json.c:919-926 | the decimal digits printed for a number have its value |
| `JsonParse.ValidString` | Common/json.c:200-324 | the loop with its pending lead surrogate gives the specified characters, or fails when they do |
| `JsonParse.Parser.ParseInternal` | Common/json.c:377-739 | the token state machine with its shared offset returns the element, stop character and position that the recursive descent specifies, or the same error |
| `JsonParse.JsonParse` | Common/json.c:749-820 | the value or error specified for a byte string |
| `JsonGrammar.OtherCharacter` | Common/json.c:484-644 | an element is said by how its text begins: white space is skipped, a character that begins no element stops the search |
| `JsonGrammar.Word` | Common/json.c:412-431 | a word is null, true or false, or a syntax error |
| `JsonGrammar.Number` | Common/json.c:118-190 | a number is a 64-bit integer if it is spelled as one, an overflow beyond, and what strtod says otherwise |
| `JsonGrammar.StringElement` | Common/json.c:677-711 | a string stands for what its escapes mean, or is a syntax error |
| `JsonGrammar.Array` | Common/json.c:592-625 | a bracket and an element are an array with that item, followed by the rest of the array or its end, or an error; missing items are left out |
| `JsonGrammar.Object` | Common/json.c:499-591 | likewise for an object, its names, colons and values |
| `JsonGrammar.WholeText` | Common/json.c:749-820 | a text is accepted if and only if its element reaches the end; a token behind it is extra text, one in its place a syntax error |
| `JsonCutOff.CutOffIncomplete` | Common/json.c:377-820 | what is left of an accepted text that is cut off is reported as incomplete, unless only white space is missing or the cut leaves a number or word at the end |
| `JsonCutOff.ClosedOnce` | Common/json.c:377-820 | an array, object or string is accepted only when it is closed: nothing but white space can follow an accepted one in an accepted text |
| `JsonCutOff.ExtraText` | Common/json.c:749-820 | behind one, any other character makes it extra text |
| `JsonCutOff.PrintedCutOff` | Common/json.c:749-995 | no proper prefix of the text printed for one, in either layout, is accepted, and the error is that it is incomplete unless the cut leaves a number or word at the end |
| `JsonCutOff.NulEndsText` | Common/json.c:377-820 | behind a NUL a text may go on in any way, and is accepted |
| `JsonPrint.ExpandString` | Common/json.c:845-900 | the specified escapes, character by character |
| `JsonPrint.WriteIndent` | Common/json.c:903-971 | the specified text in both layouts |
| `JsonLayout.ExpandedSafe` | Common/json.c:845-900 | a printed string holds no control characters, and with surrogates expanded nothing beyond U+FFFF |
| `JsonLayout.IndentedIsLaidOut` | Common/json.c:903-971 | the indented text is the one-line text with lines broken at brackets and commas, two blanks for each open bracket, and a blank behind each colon |
| `JsonRoundTrip.UnescapeTokens` | Common/json.c:200-324 | the characters that the parser collects for a printed string unescape to the string |
| `JsonRoundTrip.StringParses` | Common/json.c:845-900 | a printed string followed by anything parses to the string, and the rest is left |
| `JsonRoundTrip.IntParses` | Common/json.c:118-160 | so does a 64-bit integer followed by a delimiter |
| `JsonRoundTrip.PrintedParses` | Common/json.c:903-971 | the text printed for any value without doubles, followed by anything that may follow a value, parses to that value and stops where it ends |
| `JsonRoundTrip.ParsePrinted` | Common/json.c:749-995 | parsing the bytes printed for such a value gives it back, in one line or indented, with surrogates expanded or not |
| `JsonRoundTrip.IntegerComesBack` | Common/json.c:118-160 | an integer comes back if and only if it fits 64 bits and, at the extremes, errno holds no old range error |
| `JsonEscapes.UnescapeAccepts` | Common/json.c:200-324 | the characters collected between quotes are accepted if and only if every backslash is followed by one of the known escapes, or by u and four hexadecimal digits |
| `JsonEscapes.StringAccepted` | Common/json.c:678-711 | a quoted text is parsed as a string under exactly this condition, and is a syntax error otherwise |
| `JsonEscapes.BackspaceEscapeRejected` | Common/json.c:229-251 | every string that contains the escape \b is a syntax error |
| `Timers.DeadlineInstant` | Common/XtGlue.c:463-476 | a deadline is the right instant; its microseconds are a whole million just when the sum is |
| `Timers.ExpiredMeans` | Common/XtGlue.c:721-726 | a timer is expired if and only if its deadline has passed, or is now and not in normal form |
| `Timers.RunKeeps` | Common/XtGlue.c:456-531 | over every run the queue stays sorted with ties in insertion order, deadlines are those asked for, no timer fires early, and every timer waits, fired once, or was removed: exactly one of these |
| `Timers.FiredCount` | Common/XtGlue.c:922-936 | firing a timer lowers the number of expired ones whatever its callback adds, so a drain ends |
| `Timers.DrainedKeeps` | Common/XtGlue.c:922-936 | a drain keeps the invariant and leaves no expired timer behind |
| `Timers.DrainedInOrder` | Common/XtGlue.c:922-936 | a drain fires timers that were waiting when it began, in the order of the queue |
| `Timers.DrainedAll` | Common/XtGlue.c:922-936 | every timer expired when a drain begins has fired or been removed when it ends |
| `Timers.FiresInTime` | Common/XtGlue.c:463-476 | no timer fires earlier than its interval after it was added |
| `Timers.TiesInOrder` | Common/XtGlue.c:478-491 | timers due at the same instant wait in insertion order if and only if it is not the later one alone that has a whole million of microseconds |
| `Timers.MillionBreaksTie` | Common/XtGlue.c:470-473 | two timers for which this fails |
| `TimerQueue.EventLoop.AddTimeOut` | Common/XtGlue.c:456-507 | the list search and splice reach the specified state |
| `TimerQueue.EventLoop.RemoveTimeOut` | Common/XtGlue.c:509-531 | the timer is unlinked if it waits, and nothing changes if it is running or gone |
| `TimerQueue.EventLoop.Drain` | Common/XtGlue.c:922-936 | the loop with re-entrant callbacks ends in the specified state |
| `PeerScript.CommandsHandedOut` | Common/peerscript.c:269-383 | the commands handed out are the first commands of the bytes received without CRs, all of them when none is running; with their newlines and the bytes still buffered they add up to the bytes received |
| `PeerScript.ChunkingIrrelevant` | Common/peerscript.c:317-383 | two runs over the same bytes in different pieces hand out the same commands and buffer the same bytes |
| `PeerScript.CommandsOfLines` | Common/peerscript.c:269-309 | bytes received later do not change the commands found before |
| `PeerScript.FirstCommandMeans` | Common/peerscript.c:269-309 | the first command ends at the first newline in front of which nothing is held back |
| `PeerScript.HeldBack` | Common/peerscript.c:209-259 | a text is held back if and only if the peer is not interactive and the text, behind white space, begins with a brace, bracket or quote an incomplete JSON text |
| `PeerScript.CrDropped` | Common/peerscript.c:317-383 | each CR is dropped wherever it is, and nothing else |
| `PeerScript.RunKeeps` | Common/peerscript.c:317-506 | every step keeps the accounting of bytes, and finds no command before the offset of the incomplete JSON text |
| `PeerScript.Peer.DoPush` | Common/peerscript.c:209-259 | a text is handed out unless it begins like JSON and is incomplete, after white space, for a peer that is not interactive |
| `PeerScript.Peer.Take` | Common/peerscript.c:269-309 | the nested scans find the first command and shift it out of the buffer, or leave the offset behind the last incomplete line |
| `PeerScript.Peer.PeerInput` | Common/peerscript.c:317-383 | input is appended without CRs and stays disabled while a command runs, so that at most one is outstanding |
| `PeerScript.Peer.PeerDone` | Common/peerscript.c:474-506 | the next command is taken, or input is enabled again |
| `Base64.EncodedLength` | Common/base64.c:53-110 | four characters for every three bytes or part of them |
| `Base64.StandardLetter` | Common/base64.c:46 | the alphabet is that of the standard |
| `Base64.StandardText` | Common/base64.c:53-110 | each three bytes are four letters with six of their bits each, from the highest on |
| `Base64.StandardEnd` | Common/base64.c:53-110 | one or two bytes at the end are filled up with zero bits and padding |
| `Base64.RoundTrip` | Common/base64.c:53-165 | decoding an encoded string gives it back, with a NUL after it when one byte was left over |
| `Base64.StringRoundTrip` | Common/base64.c:53-165 | as C strings, decoding inverts encoding |
| `Base64.DecodeAccepts` | Common/base64.c:118-165 | decoding accepts exactly letters followed by at most two padding characters |
| `Base64.Base64Encode` | Common/base64.c:53-110 | the specified text and its NUL fit the buffer that is allocated |
| `Base64.Base64Decode` | Common/base64.c:118-165 | so do the specified bytes, and failure is reported just when decoding fails |
| `FieldEdit.InsPrep` | Common/kybd.c:1009-1107 | making room for one character moves nothing outside the field and loses, of the cells from the cursor on, only the first NUL, or without a NUL the last blank; it refuses just when there is neither |
| `FieldEdit.TypeChar` | Common/kybd.c:1157-1390 | the checks in their order; once accepted, the character is in the cell with the set asked for and no attributes of its own, in insert mode the cells up to the first NUL have moved right by one, the field is marked as modified, and nothing else changes |
| `FieldEdit.DoDelete` | Common/kybd.c:2116-2189 | cell by cell: the rest of the field moves left, a NUL fills its end, the field is marked as modified, and nothing else changes |
| `FieldEdit.SameField` | Common/kybd.c:1009-1041 | on a formatted screen deleting moves exactly the cells that inserting may use |
| `FieldEdit.TypingKeepsPlace` | Common/kybd.c:2116-2189 | typing moves no attribute: deleting afterwards finds the same field and the same last cell |
| `FieldEdit.TypeThenDelete` | Common/kybd.c:1009-1107 | with blank fill off, inserting a character and deleting it restores the characters of the screen if and only if, up to the last cell that deleting moves, only NULs follow the first NUL |
| `FieldEdit.TypeAndDelete` | Common/kybd.c:1157-1390 | the two keys one after the other on the array: what is accepted can be deleted, and the characters come back in exactly that case |
| `Callbacks.InsertBefore` | Common/llist.c:51-57 | the circle stays well formed in both directions, with the element in its place |
| `Callbacks.Unlink` | Common/llist.c:60-65 | the circle stays well formed without the element |
| `Callbacks.IsEmpty` | Common/llist.c:39-43 | true if and only if the head is alone |
| `Callbacks.RegistrationsOrdered` | Common/event.c:72-104 | after any registrations the list is sorted by order, with equal orders in registration order |
| `Callbacks.RegistrationsComplete` | Common/event.c:72-104 | and holds every callback once for each registration |
| `Callbacks.CallbackList.Register` | Common/event.c:72-97 | the loop finds the place and links the callback in, as specified |
| `Callbacks.CallbackList.Changed` | Common/event.c:106-129 | a state change calls every callback exactly once, in the order of the list |
| `RecentHosts.KeptKeeps` | Common/host.c:1020-1050 | what the filter keeps of a sorted array is newest first, has one entry for each name with its latest time, at most as many as the limit, and no dropped name is newer than a kept one |
| `RecentHosts.SortByTime` | Common/host.c:872-889 | the latest times come first and no host is lost or doubled |
| `RecentHosts.HostList.Filter` | Common/host.c:1020-1050 | the nested loops keep the specified entries |
| `RecentHosts.HostList.Relink` | Common/host.c:1052-1067 | forward and backward links agree, from the first host to the last |
| `RecentHosts.HostList.SaveRecent` | Common/host.c:909-1067 | the configured hosts stay in order; the recent hosts after them are those kept of the new one, the old ones and those of the file; the new host is among them unless as many as the limit are not older, and none is there that was not given |

## Left out

- Tracing, status line, selection, scrollback, blink, repaint, keyboard lock and bell: they change no modelled state.
- Sockets, processes, real files and the Windows branches; files are sequences and clocks are parameters.
- Structured fields, TELNET, NVT and SSCP-LU modes, and the modes sent with a snapshot.
- DeviceInvariant.ProcessedInvariant: Write Structured Field is taken to leave the device alone.
- DeviceInvariant.RunInvariant: likewise for runs of commands.
- Device.Device.ProcessDs: read commands and Write Structured Field have no effect in it; replies to reads are modelled on their own (`ReadModified`).
- ReadModified.ReadModified: the SSCP-LU branch is not modelled.
- Extended replies of Read Modified in structured fields, and input-field reply modes other than field and character.
- SnapshotReplay.ReplayExact: a snapshot is proved to come back for screens without double-byte sets, whose codes outside graphic escapes are not orders and whose SIs close an SO; other codes can get on the screen by Repeat to Address and are then taken for orders.
- WriteOrders.Run: write errors are one kind of failure, and the addresses of an abort are those of the source, but the trace of the failing order is not modelled.
- SnapshotReplay.ReplayFaithful: screens with double-byte character sets are not covered.
- DbcsMarks.MarksAgree: needs an even number of cells, as the source does.
- CutTransfer.Sender.DataRequest: the checksum and sequence number of a frame, and the cells of the screen on which it is laid out, are not modelled; nor are read errors.
- CutTransfer.Sender.DownloadConvert: the remapping branch is not modelled.
- CutTransfer.Sender.XlateGetc: the remapping branch is not modelled.
- CutReceive.Receiver.UploadConvert: the remapping branch is not modelled.
- CutCode.RoundTrip: the remapping of text in CUT mode is not modelled; the same conversion is modelled for DFT mode.
- CutTransfer.Sender.NextCodes: needs a multi-byte code whose characters have at most 15 bytes, which is what the buffers of the source hold.
- CutReceive.Receiver.CutData: after wrong text the quadrant is not specified, since the transfer is aborted; writes that fail for other reasons are not modelled.
- DftTransfer.Receiver.DataInsert: the size of the conversion buffer (four bytes for each received), message records, acknowledgements and failed writes are not modelled.
- DftTransfer.Sender.GetRequest: the reply is its record number and data; the header bytes, the saved copy and read errors are not modelled.
- DftCode.TextArrives: the conversions of the local code and the host code page are parameters that are supposed to be inverse on the characters of the text.
- JsonParse.Parser.ParseInternal: line and column numbers of errors and error texts are not modelled; strtod is a parameter.
- JsonRoundTrip.ParsePrinted: doubles are excluded, because they are printed with six digits.
- JsonPrint.ExpandString: strings are sequences of characters; bytes that are not UTF-8, which the source copies as they are, are not modelled, nor is the expansion into surrogates of characters above U+10FFFF, which are outside Unicode.
- Timers.RunKeeps: a callback does not run a drain of its own, and supposes a clock that does not run backwards from the drain to its callbacks.
- TimerQueue.EventLoop.RemoveTimeOut: removing a timer that is already freed has no effect in the model; callers must not do that.
- PeerScript.Peer.PeerDone: aborts, disabled peers and the end of input close the peer and are not modelled; nor is what a command is turned into.
- FieldEdit.InsPrep: more than one cell at a time and fields that wrap the screen are left out, because the source departs from its intent there.
- FieldEdit.TypeChar: typing over cells that hold SO or SI, in double-byte text or with blank fill, auto-skip and the cursor move are not modelled; the source treats such cells apart.
- FieldEdit.DoDelete: deleting cells that hold SO or SI, and double-byte characters, are not modelled; the source treats such cells apart.
- FieldEdit.TypeAndDelete: inherits these limits, and fields that wrap the screen are left out.
- Callbacks.CallbackList.Changed: callbacks that register others while they run are not modelled.
- RecentHosts.HostList.SaveRecent: reading and rewriting the file are left out; its lines are an input list. The sort has the contract of qsort and is not the library's algorithm.
- Base64.Base64Decode: characters above 127 in the text are not in the alphabet and are rejected like others; 32-bit overflow cannot occur and is not modelled.
- Options, resources, toggles, the transfer dialog, HTTP, printing, GUI and build tools.
