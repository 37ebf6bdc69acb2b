# A Dafny model of the computational core of Jacob1's Powder Toy mod

The Powder Toy is a falling-sand simulator written in C++. This project models the parts of it that compute something a reader can state and check. It leaves out the parts that draw, talk to the network or run physics in floating point.

Each core source file becomes one Dafny module:

- **Undo history.** `Hunks` covers the hunk vectors and single diffs of `SnapshotDelta.h`. `SnapshotDelta` builds a delta from two snapshots and applies it forwards and backwards. `SnapshotHistory` is the bounded undo/redo deque.
- **Save format.** `Save` models several things:
  - element and wall id conversions for old saves;
  - the format checks of `ParseSave`;
  - the byte layout of a particle's leading fields in OPS saves, written by `BuildSave` and read back by `ParseSaveOPS`;
  - the version rules;
  - the `operator<<` appends.
- **Particle table and walls.** `Simulation` covers element counts, type changes and kills, and the free-list rebuild. It also covers element names, wall placement, wall boxes and the flood fill.
- **Element data.**
  - `Anim` is the ANIM frame buffers.
  - `Pipe`, `PipeFlags` and `PipeTriggers` are PIPE's transfers, its flag bits and its trigger processing.
  - `Cray` is CRAY's wavelength colour.
- **Old interface code.**
  - `Interface` holds word positions, the swear filter, the save-info and search-result parsers, and the console history cap.
  - `LegacyConsole` holds the console argument parsers.
  - `Hud` holds the time string and the HUD layout choice.
  - `Powder` holds the wall and electricity maps, the brush flags and orbital packing.
  - `Sign` holds sign link markup and sign areas.
  - `MainState` holds stamp names, the stamp list and the thumbnail cache.
  - `Misc` holds the C string helpers.
  - `Format` holds case mapping, URL encoding, `CleanString`, BMP padding and CRC-32.
- **Images.** `Pixel` covers nearest-neighbour resampling, box downscaling and the PTi container around its compressor.
- **New interface code.**
  - `GameView` covers snapping, draw modes, zoom, coordinates and pause.
  - `ScrollWindow`, `Textbox` and `Window` are the corresponding `ui::` classes.
  - `Console` is the console window with its history.

Objects the C++ code updates in place are Dafny classes whose methods state their new state. Examples are the undo history, the simulation's particle arrays, the ANIM container, the windows and the console. Pure helpers are functions, and loops are methods with invariants. Each method is proved against a specification function, and the properties the code promises are proved about those functions as lemmas. Those properties include round trips (a delta forward and back, a particle's fields through the save encoder and decoder, PTi packing), bounds and preserved invariants.

Shared modules:

- `Wrappers` holds `Option` and `Result`.
- `Bits` holds unsigned bytes, powers of two and exclusive or on natural numbers.
- `CText` holds the C library conversions.
- `Geometry` holds points.
- `Defines`, `Walls` and `Parts` hold the constants and the particle record.

Some headers are not part of this model: `simulation/WallNumbers.h`, `simulation/ElementNumbers.h`, `simulation/Particle.h`, `simulation/Simulation.h`, `graphics/Pixel.h`, `common/Point.h`, `interface.h` and `hud.h`. Where the code depends on them, the value is either a constant matching the game's tables or a parameter. Each such case is listed below.

Integer widths matter in a few places:

- the 32-bit wrap of the save decoder's `int` fields;
- the unsigned CRC arithmetic;
- the PTi room computation;
- the stamp name counter.

In those places the width is written out. Everywhere else integers are unbounded.

## Model

| member | source | states |
|---|---|---|
| Format.ToLower | src/common/Format.cpp:16-20 | the result has the input's length; no character is upper case; each 'A'..'Z' becomes the matching 'a'..'z' (code plus 32) and every other character is kept |
| Format.ToUpper | src/common/Format.cpp:22-26 | the result has the input's length; no character is lower case; each 'a'..'z' becomes the matching 'A'..'Z' (code minus 32) and every other character is kept |
| Format.ToLowerIdempotent | src/common/Format.cpp:16-20 | lower-casing twice is lower-casing once |
| Format.ToUpperIdempotent | src/common/Format.cpp:22-26 | upper-casing twice is upper-casing once |
| Format.UpperOfLower | src/common/Format.cpp:16-26 | upper-casing the lower-cased text gives the upper-cased text: only the case is lost |
| Format.URLEncode | src/common/Format.cpp:28-55 | the loop produces the encoding of the bytes before the first NUL: letters and digits kept, every other byte as '%' and two upper-case hex digits |
| Format.URLRoundTrip | src/common/Format.cpp:37-50 | percent-decoding the encoding of a NUL-free byte string gives it back |
| Format.EncodedIsSafe | src/common/Format.cpp:37-50 | the encoding holds only ASCII letters, digits and '%' |
| Format.EncodedLength | src/common/Format.cpp:30-31 | the encoding takes at most three characters per byte, so the buffer of length*3+2 suffices |
| Format.EncodedStopsAtNul | src/common/Format.cpp:37 | nothing after the first NUL byte reaches the encoding |
| Format.DecodeByte | src/common/Format.cpp:39-49 | decoding undoes the encoding of any one byte |
| Format.HexRoundTrip | src/common/Format.cpp:46-47 | each hexadecimal digit written reads back as its value |
| Format.CleanString | src/common/Format.cpp:90-149 | the in-place erasing loop (with its skips of colour-code arguments) yields exactly Clean of the input under the four flags |
| Format.CleanShortens | src/common/Format.cpp:90-149 | cleaning never lengthens a string |
| Format.CleanWithColor | src/common/Format.cpp:94-145 | with the colour flag set, every character left is one the flags accept: no '\x01', '\x02', '\r' or colour codes; a space for '\n' with newlines; only digits with numeric; only ' '..'~' (or '\n') with ascii |
| Format.CleanKeepsPlain | src/common/Format.cpp:90-149 | a string of printable characters (digits only, with numeric) comes out unchanged, whatever the other flags |
| Format.BmpPaddingAligns | src/common/Format.cpp:164 | the BMP row padding is 0..3 bytes and width*3 + padding is a multiple of four for every width |
| Format.UpdateIsBitwise | src/common/Format.cpp:468-503 | the table-driven update equals the bit-at-a-time CRC with the reflected polynomial 0xEDB88320 |
| Format.TableIsEightSteps | src/common/Format.cpp:468-499 | one table lookup does the eight shift steps of a byte |
| Format.CrcStepsLinear | src/common/Format.cpp:474-480 | the CRC shift steps are linear over exclusive or |
| Format.CrcOfEmpty | src/common/Format.cpp:505-508 | with initial value and final xor 0xFFFFFFFF, the CRC of no bytes is 0 |
| Format.CrcFits | src/common/Format.cpp:491-508 | the CRC is a 32-bit value |
| Format.CrcTable.MakeCrcTable | src/common/Format.cpp:468-485 | fills the 256 entries with the eight-step remainders and marks the table computed |
| Format.CrcTable.Update | src/common/Format.cpp:491-503 | computes the table on first use, then returns the table-driven update over the bytes |
| Format.CrcTable.CalculateCRC | src/common/Format.cpp:505-508 | returns the CRC of the data: update from 0xFFFFFFFF, then xor with 0xFFFFFFFF |
| Hunks.MakeHunk | src/simulation/SnapshotDelta.h:89-102 | the hunk closed at i starts at offset, ends at i, and records the old and new item of every position in between |
| Hunks.FillHunkVectorPtr | src/simulation/SnapshotDelta.h:78-110 | keeps what out held and appends hunks that are non-empty runs of differing positions below size, in increasing order, neither overlapping nor touching (so each is maximal), covering every differing position |
| Hunks.FillHunkVector | src/simulation/SnapshotDelta.h:113-117 | the appended hunks describe the differences of the first min(old size, new size) items only |
| Hunks.ApplyHunkVectorPtr | src/simulation/SnapshotDelta.h:131-143 | the array afterwards is the old contents with every hunk written in, old or new side as useOld says |
| Hunks.ApplyHunkVector | src/simulation/SnapshotDelta.h:145-149 | the vector with the hunks applied, computed by ApplyHunkVectorPtr |
| Hunks.ApplyAt | src/simulation/SnapshotDelta.h:131-143 | applying separated hunks leaves every position outside them unchanged and sets each covered position to the value its hunk records |
| Hunks.HunkVectorRoundTrip | src/simulation/SnapshotDelta.h:78-110 | applying the new side to the old items gives the new items below size, and the old side to the new items gives the old ones; positions from size on are untouched (together with lines 131-143) |
| Hunks.HunkVectorRoundTripEqualSize | src/simulation/SnapshotDelta.h:78-110 | for streams of equal size the two directions restore the other stream exactly (together with lines 131-143) |
| Hunks.FillSingleDiff | src/simulation/SnapshotDelta.h:119-128 | the diff is valid exactly when the items differ (or it already was); it then records both items, and otherwise is left as it was |
| Hunks.ApplySingleDiff | src/simulation/SnapshotDelta.h:151-158 | an invalid diff leaves the item; a valid one gives the recorded old or new item |
| Hunks.SingleDiffRoundTrip | src/simulation/SnapshotDelta.h:119-158 | from a fresh diff, applying forward to the old item gives the new one and backward to the new item gives the old one |
| SnapshotDelta.SignsEqual | src/simulation/SnapshotDelta.cpp:76-93 | true exactly when the lists have the same length and equal position, justification and text at each index |
| SnapshotDelta.SameSignsIsEquality | src/simulation/SnapshotDelta.cpp:76-93 | on signs whose derived fields come from their text, the comparison is equality of the lists |
| SnapshotDelta.CommonWordsFit | src/simulation/SnapshotDelta.cpp:114-116 | the common particle words, min of the two particle counts times the words per particle, lie within both particle arrays |
| SnapshotDelta.FromSnapshots | src/simulation/SnapshotDelta.cpp:95-152 | every grid field holds its hunk vector, signs and authors their single diffs, the common particle words their hunk vector, the tails past them are copied to extraPartsOld and extraPartsNew, and both sides' element data containers are copied except at the slot skipped |
| SnapshotDelta.CopyElementData | src/simulation/SnapshotDelta.cpp:122-149 | the element data loop copies each side's container (or none) into elementDataOld and elementDataNew, and leaves the skipped slot without one |
| SnapshotDelta.Kept | src/simulation/SnapshotDelta.cpp:122-149 | the copied slots keep their containers, the slot skipped has none, and the length is PT_NUM as before |
| SnapshotDelta.Apply | src/simulation/SnapshotDelta.cpp:154-232 | the copy with every hunk vector and single diff applied, the particles resized to the common part plus the other side's tail, and the element data containers those the delta stored for the side wanted |
| SnapshotDelta.SetElementData | src/simulation/SnapshotDelta.cpp:179-189 | the element data loop leaves every slot holding the container the delta stored, or none where it stored none |
| SnapshotDelta.Forward | src/simulation/SnapshotDelta.cpp:154-192 | applies the new side, element data containers included, to the old snapshot |
| SnapshotDelta.Restore | src/simulation/SnapshotDelta.cpp:194-232 | applies the old side, element data containers included, to the new snapshot |
| SnapshotDelta.ParticlesRoundTrip | src/simulation/SnapshotDelta.cpp:114-120 | forward gives B's particle words (B's count and tail), restore gives A's (together with lines 173-177, 213-217) |
| SnapshotDelta.FieldRoundTrip | src/simulation/SnapshotDelta.cpp:99-112 | every grid field round-trips through its hunk vector in both directions (together with lines 158-171, 198-211) |
| SnapshotDelta.DeltaRoundTrip | src/simulation/SnapshotDelta.cpp:95-232 | for compatible snapshots A and B, Forward(A) of FromSnapshots(A, B) is B and Restore(B) is A, except that the skipped slot comes back without a container |
| SnapshotDelta.DeltaRoundTripExact | src/simulation/SnapshotDelta.cpp:95-232 | with no slot skipped, or an empty one, the round trip gives back B and A exactly |
| SnapshotDelta.StripNothing | src/simulation/SnapshotDelta.cpp:122-149 | skipping a slot that holds no container loses nothing |
| SnapshotDelta.AnimDataDropped | src/simulation/SnapshotDelta.cpp:122-129 | a delta taken while the simulation holds no ANIM particle loses ANIM's container: Forward does not give B back when B has one |
| SnapshotHistory.MakeDelta | src/simulation/SnapshotHistory.cpp:179 | the delta built between two compatible snapshots restores each from the other, up to ANIM's element data container |
| SnapshotHistory.AppliedIgnoresData | src/simulation/SnapshotDelta.cpp:179-189 | applying a delta gives the same snapshot from two snapshots that differ only in ANIM's container |
| SnapshotHistory.LinksStrip | src/simulation/SnapshotHistory.cpp:160-179 | a delta that links a snapshot to the next also links any snapshot differing from the first only in ANIM's container |
| SnapshotHistory.StripTwice | src/simulation/SnapshotDelta.cpp:122-129 | dropping the skipped slot (ANIM's or none) and then ANIM's is dropping ANIM's |
| SnapshotHistory.ChainPush | src/simulation/SnapshotHistory.cpp:171-184 | truncating after n entries, turning the n-th into a delta to the new snapshot and pushing it in full keeps the layout: deltas link consecutive states and only the last entry is full |
| SnapshotHistory.ChainDropFront | src/simulation/SnapshotHistory.cpp:188-192 | dropping the oldest entry keeps the layout |
| SnapshotHistory.PushSnapshot | src/simulation/SnapshotHistory.cpp:160-184 | the history after truncation and push describes the states before the position followed by the new snapshot |
| SnapshotHistory.PushOnto | src/simulation/SnapshotHistory.cpp:176-183 | below a kept entry holding the rebase snapshot, that entry becomes the delta to the new snapshot and the new snapshot is pushed; the history then describes the kept states followed by the new one |
| SnapshotHistory.SnapshotHistory.constructor | src/simulation/SnapshotHistory.cpp:142-146 | an empty history at position 0 with the default limit of 5 |
| SnapshotHistory.SnapshotHistory.SetUndoHistoryLimit | src/simulation/SnapshotHistory.h:28 | the limit becomes the requested one, capped at 200 |
| SnapshotHistory.SnapshotHistory.TakeSnapshot | src/simulation/SnapshotHistory.cpp:154-193 | every entry at or past the position is dropped, the new snapshot is pushed as the only full entry, and at the limit the oldest entry goes; the position points past the end |
| SnapshotHistory.SnapshotHistory.HistoryRestore | src/simulation/SnapshotHistory.cpp:196-220 | a no-op on an empty history or at position 0; otherwise the position moves back one, the state there is restored up to ANIM's container, and undoing from the top saves the current state as the final redo |
| SnapshotHistory.SnapshotHistory.HistoryForward | src/simulation/SnapshotHistory.cpp:222-245 | a no-op at the top; otherwise the position moves forward one and restores the next state up to ANIM's container, or on reaching the top exactly the state saved by the first undo |
| SnapshotHistory.ForwardFrom | src/simulation/SnapshotHistory.cpp:240-243 | moving forward through the delta between two states, from a snapshot equal to the first up to ANIM's container, gives the second up to that container |
| SnapshotHistory.UndoRedo | src/simulation/SnapshotHistory.cpp:202-233 | undoing from the top gives the newest snapshot up to ANIM's container, and redoing brings back exactly the state from just before the undo, at the same position |
| Misc.NulIndex | src/misc.cpp:678 | the index of the first NUL (the buffer's length when there is none): every byte before it is not NUL |
| Misc.MyStrdup | src/misc.cpp:70-80 | NULL exactly for NULL; otherwise a fresh buffer holding the C string and its terminator, equal to the original as a C string |
| Misc.StrList.Add | src/misc.cpp:82-88 | the new list is a copy of the string followed by the old list |
| Misc.StrList.Find | src/misc.cpp:90-97 | true exactly when an equal string is in the list |
| Misc.AddThenFind | src/misc.cpp:82-97 | after strlist_add, strlist_find finds the string |
| Misc.FindNul | src/misc.cpp:678-701 | the scanning loop stops at the first NUL |
| Misc.CopyCStr | src/misc.cpp:703-706 | writes the source's C string from the given index and leaves the rest of the buffer as it was |
| Misc.StrAppend | src/misc.cpp:696-708 | the destination's C string becomes the old one followed by the source's, and bytes after the new terminator are untouched |
| Misc.WriteEncoded | src/misc.cpp:680-692 | writes the URL encoding of the source up to its first NUL, and leaves the rest of the buffer as it was |
| Misc.PutEncoded | src/misc.cpp:682-691 | one round writes a letter or digit as itself and any other byte as '%' and two upper-case hex digits |
| Misc.StrCatUrl | src/misc.cpp:673-694 | the destination's C string becomes the old one followed by the URL encoding of the source, and bytes after the terminator are untouched |
| Misc.EncodedHasNoNul | src/misc.cpp:680-692 | the encoding holds no NUL, so it reads back whole as a C string |
| Misc.URLEncode | src/misc.cpp:854-883 | the result is the URL encoding of the source's bytes up to the first NUL, the same as Format::URLEncode |
| Misc.Membwand | src/misc.cpp:885-902 | dest[i] becomes dest[i] & src[i % srcsize] for every i below destsize, and nothing past destsize changes; the equal-size branch is the same mask |
| Misc.Masked | src/misc.cpp:885-902 | the mask keeps the length of dest |
| Misc.MaskedIdempotent | src/misc.cpp:885-902 | masking again with the same source changes nothing |
| Misc.MaskedByOnes | src/misc.cpp:885-902 | a source of all 0xFF bytes leaves dest unchanged |
| MainState.HexPadValue | src/main.cpp:250 | the zero-padded hexadecimal digits "%0wx" writes read back as the number |
| MainState.HexPadLength | src/main.cpp:250 | a number below 16^w takes exactly w digits |
| MainState.StampNamer.GenName | src/main.cpp:236-251 | a new second records it and restarts the counter at 0; the same second increments the counter modulo 2^32; the name is "%08x%02x" of the two |
| MainState.StampNamesDistinct | src/main.cpp:250 | different (second, counter) pairs give different names, since the 32-bit time takes exactly eight digits |
| MainState.StampNameLength | src/main.cpp:250 | while the counter stays below 256 the name has ten characters |
| MainState.StampList.Save | src/main.cpp:362-372 | the new stamp goes to the front carrying the thumbnail stamp_gen_thumb rendered for it (or none when rendering fails), the last one falls off, and the count grows up to STAMP_MAX |
| MainState.SaveThenLoad | src/main.cpp:362-465 | a stamp just saved with a thumbnail loads back from slot 0, returning the file's contents, and stays first |
| MainState.StampList.Load | src/main.cpp:441-465 | nothing is loaded for a stamp without thumbnail or name, or whose file cannot be read; otherwise the save is returned and with reorder the stamp moves to the front |
| MainState.MoveToFrontPermutes | src/main.cpp:456-463 | moving stamp i to the front permutes the list, puts stamp i first, keeps the others in relative order and leaves those after i in place |
| MainState.SlotOf | src/main.cpp:557-603 | the first slot holding the id, or -1 when no slot does |
| MainState.Promoted | src/main.cpp:606-609 | making a slot the youngest and aging every younger one keeps the ages of occupied slots distinct and non-negative |
| MainState.ThumbCache.Search | src/main.cpp:557-603 | the search loop finds the first slot holding the id |
| MainState.ThumbCache.Inval | src/main.cpp:554-568 | the id is in no slot afterwards; its slot, if any, is freed and every age above its age drops by one; an absent id changes nothing |
| MainState.ThumbCache.Find | src/main.cpp:598-614 | false exactly for an absent id, changing nothing; on a hit the entry's age becomes 0, younger entries age by one, and its bytes and size are returned |
| MainState.ThumbCache.Add | src/main.cpp:554-597 | the id is invalidated first; for a NULL thumbnail or size 0 the state is what that gives: the id's slot freed and every entry older than it one younger; otherwise the id holds the first size bytes at age 0 and every other slot keeps its contents, except the id's old slot, which is freed; when the id was absent every other slot ages by one, the new slot being the first free one or, when all were taken, the oldest entry's; when the id was cached, the new slot is the first free one at or before its old slot, and every other slot ages by one unless it was older than the id's old entry, when its age is unchanged |
| MainState.ThumbCache.Place | src/main.cpp:573-596 | the bytes go to a slot at age 0 and every other slot keeps its contents and ages by one; the slot is the first free one whenever one exists, and the oldest entry's when every slot is taken |
| MainState.ThumbCache.FreeSlot | src/main.cpp:573-588 | the first free slot, or, when every slot is taken, the slot with the largest age |
| MainState.ThumbCache.Age | src/main.cpp:590-591 | every entry ages by one |
| MainState.ThumbCache.Store | src/main.cpp:590-596 | the id goes into the free slot with its bytes and size at age 0; every other slot keeps its id, bytes and size and ages by one |
| MainState.AddThenFind | src/main.cpp:569-614 | adding a thumbnail and then looking it up returns its bytes and size |
| Sign.ScanDigits | src/game/Sign.cpp:82-84 | the scan ends at or after its start and within the text |
| Sign.ScanTo | src/game/Sign.cpp:96-98 | the scan ends at or after its start and within the text |
| Sign.SetText | src/game/Sign.cpp:66-117 | stores the text, keeps position and justification, and sets kind, display text and link text to the parse of the markup |
| Sign.LinkShape | src/game/Sign.cpp:66-117 | a normal sign displays its whole text; a save or thread link has a non-empty run of digits as link text and its text is "{c:" or "{t:", the digits, '\|', the display text and '}'; a spark is "{b\|" display "}"; a search link is three characters, the query, '\|', the display text and '}' |
| Sign.SaveLinkRoundTrip | src/game/Sign.cpp:78-109 | "{c:<digits>\|<display>}" (or "{t:") parses back into a save (thread) link with those digits and display text |
| Sign.SparkRoundTrip | src/game/Sign.cpp:91-109 | "{b\|<display>}" parses as a spark sign showing display |
| Sign.SearchLinkRoundTrip | src/game/Sign.cpp:95-109 | "{s:<query>\|<display>}" with no '\|' in the query after its first character parses back into a search link for the query |
| Sign.GetPos | src/game/Sign.cpp:213-220 | the box is 14 high and four wider than the text; it starts at the anchor for left justification, ends there for right, contains it when centred; it sits above the anchor unless within 18 pixels of the top |
| Sign.SignList.DeleteSignsInArea | src/game/Sign.cpp:20-31 | the backward erasing loop leaves exactly the signs whose anchor is outside the half-open area, in their original order |
| Sign.OutsideMembers | src/game/Sign.cpp:20-31 | a sign is kept exactly when it was in the list and not in the half-open rectangle [topLeft, bottomRight) (together with lines 222-225) |
| Sign.SignList.InsideSign | src/game/Sign.cpp:33-48 | the highest index whose box holds the mouse (and, unless allsigns, is a link), or -1 when there is none |
| LegacyConsole.CoordsRoundTrip | src/legacy_console.cpp:92 | "x,y" written in decimal scans back as (x, y) |
| LegacyConsole.ParseCoords | src/legacy_console.cpp:89-100 | succeeds exactly when two numbers scan and lie in 0 <= x < XRES, 0 <= y < YRES, and then writes them; otherwise leaves the outputs and reports "Invalid coordinates" |
| LegacyConsole.ParsePrintedCoords | src/legacy_console.cpp:89-100 | every on-screen point, written as "x,y", is accepted with its own coordinates |
| LegacyConsole.HexPrefix | src/legacy_console.cpp:161-172 | '#' and then "0x" select base 16, otherwise base 10, and the digits start within the text |
| LegacyConsole.ParseHex | src/legacy_console.cpp:159-195 | the loop accumulates the digits onto the caller's value (not reset), returning false with "Invalid number" or "Invalid hexadecimal number" at the first invalid digit |
| LegacyConsole.AccumulateIsPositional | src/legacy_console.cpp:173-193 | the parse succeeds exactly when every character is a digit of the base, and then gives val * base^n plus the positional value of the digits |
| LegacyConsole.HexCaseInsensitive | src/legacy_console.cpp:176-181 | hexadecimal digits are read the same in either case |
| LegacyConsole.FirstNamedIsFirst | src/legacy_console.cpp:57-65 | the name search finds an enabled element whose name matches case-insensitively exactly when there is one, and the first |
| LegacyConsole.ParseType | src/legacy_console.cpp:41-74 | succeeds exactly when the element lookup does, writing the element and clearing the error; otherwise leaves the element and reports "Particle type not recognized" |
| LegacyConsole.ReadAlias | src/legacy_console.cpp:43-56 | "EXPL" is refused exactly while locked; otherwise the number read is the alias's element, the empty element for "NONE", or atoi's value |
| LegacyConsole.TypeOfValid | src/legacy_console.cpp:41-74 | an accepted type is NONE or an enabled element, aliases included; a matching enabled name wins over a number; "EXPL" is refused while locked |
| Interface.Cspn | src/interface.cpp:240 | the run from t holds no separator and ends at the end or at a separator |
| Interface.FindWordPosition | src/interface.cpp:235-252 | the loop returns the scan's answer: the first separator-free run whose end is at or past position, or the position past the last run |
| Interface.WordPastEnd | src/interface.cpp:235-252 | as written, "ab " at position 3 gives the word [3, 5), past the end of the text |
| Interface.WordAtIsWord | src/interface.cpp:235-252 | the corrected scan gives a word of the text: within it, free of separators, bounded by separators or the ends, the first ending at or after the position |
| Interface.WordScanAgrees | src/interface.cpp:235-252 | the code's answer is the corrected one whenever the word ends before the end of the text |
| Interface.CheckSwearing | src/interface.cpp:4206-4214 | true exactly when some listed word occurs in the text |
| Interface.CommentWithoutText | src/interface.cpp:5300-5301 | as written, a COMMENT line whose author is not followed by a space dereferences the NULL that strchr returns |
| Interface.CommentFields | src/interface.cpp:5296-5308 | agrees with the code whenever the space is there, and reads a missing text as empty |
| Interface.InfoParse | src/interface.cpp:5191-5318 | 0 for an empty reply; otherwise 1 when at least 8 fields were recognised and -1 when fewer; the comments kept are the first NUM_COMMENTS COMMENT lines, later ones skipped uncounted |
| Interface.InfoLinesCount | src/interface.cpp:5218-5312 | the count is the field lines plus the comment lines kept, and the comments kept are the first ones in order |
| Interface.InfoLineEffect | src/interface.cpp:5220-5310 | a field line counts once and leaves the comments; a COMMENT line adds its comment and counts while there is room, and is skipped otherwise; other lines change nothing |
| Interface.Fields | src/interface.cpp:5385-5425 | the strchr chain yields exactly n fields or fails |
| Interface.SearchResults | src/interface.cpp:5320-5608 | 0 for an empty reply; otherwise the loop over the lines: saves added while the grid has room, a malformed save line returning at once, MOTD and TAG lines stored, one more counted when the grid is full and more follows |
| Interface.SearchBounded | src/interface.cpp:5381-5382 | at most GRID_X*GRID_Y saves and TAG_MAX tags are stored, and the count is the number of saves or one more with a full grid (together with lines 5443-5444, 5526-5530, 5544-5545, 5605-5607) |
| Interface.LimitHistory | src/interface.cpp:6072-6084 | the limit-th node's link is cut and no other link or command changes, so at most limit commands stay reachable |
| Hud.HudTables.HudDefaults | src/hud.cpp:37-43 | both layouts become their default tables |
| Hud.HudTables.SetCurrentHud | src/hud.cpp:45-51 | the current layout becomes a copy of the debug layout in debug mode and of the normal one otherwise; neither source changes |
| Hud.Copy | src/hud.cpp:41-50 | the whole table is copied |
| Hud.CDivRem | src/hud.cpp:578-591 | C's truncating division and remainder put the number back together; the remainder has the dividend's sign and is smaller than the divisor |
| Hud.Int32 | src/hud.cpp:579 | the conversion back to int wraps modulo 2^32 and keeps values already in range |
| Hud.Unit | src/hud.cpp:593-598 | each unit is written as its value, a space and the name, with the "s" suffix exactly when the value is not 1 |
| Hud.GetTimeString | src/hud.cpp:573-599 | the units recombine to the time (length 0 through the unsigned 64-bit wrap, so for a non-negative time); milliseconds and seconds always lie strictly between -1000 and 1000 and between -60 and 60, negative time included; for a non-negative time milliseconds < 1000, seconds < 60, minutes < 60 with length <= 1 and hours < 24 with length 0; the text lists the units of the length, and lengths above 2 write nothing |
| Hud.UnitReadsBack | src/hud.cpp:593-598 | the text starts with the coarsest unit's value, which reads back with atoi |
| Powder.MapSize | src/powder.cpp:142 | the wall map is XRES/CELL by YRES/CELL cells (together with lines 333-361) |
| Powder.OnlyLitShrinks | src/powder.cpp:127-182 | lighting only removes cells from the set still to light, which bounds the recursion, and lighting twice is lighting once |
| Powder.WallMaps.SetEmap | src/powder.cpp:127-182 | nothing changes unless the cell is_wire_off (a conducting wall with emap below 8); otherwise its whole run of wires off in the row becomes 16, and only wires that were off change, only to 16 |
| Powder.WallMaps.SpreadFrom | src/powder.cpp:155-181 | the flood into the row above or below changes only wires that were off, and only to 16 |
| Powder.WallMaps.RunAround | src/powder.cpp:134-147 | the run found is the maximal run of wires off around x in the row |
| Powder.WallMaps.LightRun | src/powder.cpp:149-151 | every cell of the run becomes 16, and only wires that were off change |
| Powder.WallMaps.SpreadRow | src/powder.cpp:162-181 | spreading to the row above or below changes only wires that were off, only to 16 |
| Powder.WallMaps.DrawBframe | src/powder.cpp:333-346 | every border cell of the wall map becomes WL_WALL and no interior cell changes |
| Powder.WallMaps.EraseBframe | src/powder.cpp:348-361 | every border cell of the wall map becomes 0 and no interior cell changes |
| Powder.WallMaps.FillFrame | src/powder.cpp:335-345 | the two loops write v to exactly the border cells |
| Powder.GetBrushFlags | src/powder.cpp:291-299 | bit 0x1 is set exactly in replace mode and bit 0x2 exactly with specific delete, and no other bit |
| Powder.Bytes | src/powder.cpp:301-312 | four bytes, least significant first, that put back together give the int modulo 2^32 |
| Powder.Word | src/powder.cpp:314-331 | the int built from the low byte of each value, wrapped into the 32-bit range |
| Powder.OrbitalRoundTrip | src/powder.cpp:301-331 | orbitalparts_set of orbitalparts_get restores both ints |
| Powder.OrbitalBytesRoundTrip | src/powder.cpp:301-331 | orbitalparts_get of orbitalparts_set gives back the low byte of each value |
| Save.FixType | src/game/Save.cpp:249-311 | ids out of range and saves without a mod version keep their type; mod version 18's ids 190..204 become LOLZ |
| Save.ChangeWall | src/game/Save.cpp:314-344 | ids outside 1..13 are kept and ids 1..13 map into 1..13 |
| Save.ChangeWallInvolution | src/game/Save.cpp:314-344 | converting a wall id twice gives it back |
| Save.ChangeWallInjective | src/game/Save.cpp:314-344 | no two ids convert to the same wall |
| Save.ChangeWallpp | src/game/Save.cpp:345-378 | the old O_WL ids map to valid wall ids; every other value is kept |
| Save.ChangeWallppInjective | src/game/Save.cpp:345-378 | distinct old wall ids become distinct walls |
| Save.ParseSave | src/game/Save.cpp:380-406 | an expanded save parses to nothing; missing or short data (under 12 bytes) is an error; otherwise the magic chooses the format |
| Save.RestrictVersion | src/game/Save.cpp:2002-2005 | the minimum version becomes the later of the current one and (major, minor) |
| Save.TypeInCtype | src/game/Save.cpp:3165-3174 | an element whose ctype holds an element id has that id in range |
| Save.TypeInTmp | src/game/Save.cpp:3176-3181 | exactly STOR keeps an element id in tmp |
| Save.TypeInTmp2 | src/game/Save.cpp:3183-3189 | only the virus elements with tmp2 in range keep an element id in tmp2 |
| Save.ParticleVersion | src/game/Save.cpp:2349-2408 | the version a particle needs is never earlier than before; LSNS in modes 1..3 needs 95.0 and custom Life rules need 96.0 |
| Save.TypeRules | src/game/Save.cpp:2349-2376 | the element and mode rules never lower the version |
| Save.IdFieldRules | src/game/Save.cpp:2377-2401 | the rules on wide element ids never lower the version |
| Save.LifeStep | src/game/Save.cpp:2409-2412 | a Life particle with a ctype outside the built-in rules needs 96.0 |
| Save.LsnsStep | src/game/Save.cpp:2402-2408 | an LSNS particle in modes 1..3 needs 95.0 and the version never drops |
| Save.LsnsAlwaysRestricts | src/game/Save.cpp:2402-2408 | as written every LSNS particle needs 95.0, including mode 0 |
| Save.LsnsRestrictsModes | src/game/Save.cpp:2402-2408 | as intended an LSNS particle raises 92.0 to 95.0 exactly when its mode is 1..3 |
| Save.WordBits | src/game/Save.cpp:2343-2344 | bit k of the descriptor word is set exactly when field bit k was set |
| Save.TempField | src/game/Save.cpp:2191-2203 | the temperature always writes at least one byte |
| Save.ClampLife | src/game/Save.cpp:2209-2212 | life is clamped into 0..0xFFFF and values already in range are kept |
| Save.LifeField | src/game/Save.cpp:2206-2220 | life writes bit 1 exactly when it is not zero |
| Save.DescBytes | src/game/Save.cpp:2343-2344 | the two descriptor bytes, low byte first, make up the 16-bit descriptor word |
| Save.Int32 | src/game/Save.cpp:1083-1102 | an unsigned 32-bit value read into an int lands in the int range with the same bits |
| Save.HeadReadsPastEnd | src/game/Save.cpp:1011-1034 | the bound check before a particle lets a 4-byte particle with a second type byte and a 16-bit temperature read past the buffer |
| Save.SecondTypeBit | src/game/Save.cpp:1033-1034 | descriptor 0x4001 has the second-type-byte bit set |
| Save.DecodeHead | src/game/Save.cpp:1011-1050 | a decoded head ends after where it started and within the buffer; a short buffer is an error |
| Save.DecodeLife | src/game/Save.cpp:1051-1064 | reading life never moves backwards |
| Save.DecodeTmp | src/game/Save.cpp:1066-1087 | reading tmp never moves backwards |
| Save.DecodeCtype | src/game/Save.cpp:1089-1103 | reading ctype never moves backwards |
| Save.ParticleRoundTrip | src/game/Save.cpp:2175-2261 | decoding the bytes written for a particle, whatever follows, gives back its type, temperature, clamped life, tmp and ctype and stops right after them (together with lines 1011-1103) |
| Save.ParticleDesc | src/game/Save.cpp:2175-2261 | the descriptor written for a particle has each field's bits (together with lines 2343-2344) |
| Save.FieldsWithin | src/game/Save.cpp:2175-2261 | each field sets only its own descriptor bits |
| Save.LayoutRoundTrip | src/game/Save.cpp:2175-2261 | any descriptor bytes that carry each field's bits decode to the fields written (together with lines 1011-1103) |
| Save.HeadRoundTrip | src/game/Save.cpp:2175-2203 | the type and temperature written decode back, with the position right after them (together with lines 1011-1050) |
| Save.LifeRoundTrip | src/game/Save.cpp:2206-2220 | the life written decodes back to the clamped life (together with lines 1051-1064) |
| Save.TmpRoundTrip | src/game/Save.cpp:2223-2247 | the tmp written decodes back (tmp2's low byte for built-in Life rules) (together with lines 1066-1087) |
| Save.CtypeRoundTrip | src/game/Save.cpp:2250-2261 | the ctype written decodes back (together with lines 1089-1103) |
| Save.Int32Wraps | src/game/Save.cpp:1100-1102 | a 32-bit int written as unsigned bytes reads back as itself |
| Save.SaveContents.constructor | src/game/Save.cpp:51-58 | a new save holds NPART empty particle slots, no particles and no signs (together with lines 177-182) |
| Save.SaveContents.AddParticle | src/game/Save.cpp:3191-3198 | a non-empty particle is appended when there is room; otherwise nothing changes |
| Save.SaveContents.AddSign | src/game/Save.cpp:3200-3205 | a sign with text is appended when there are fewer than MAXSIGNS; otherwise nothing changes |
| Simulation.CountUpdate | src/simulation/Simulation.cpp:1028-1036 | overwriting one particle moves one unit of count from its old type to its new one and leaves the other counts alone |
| Simulation.ElementResolve | src/simulation/Simulation.cpp:1110-1119 | a type out of range that is not LIFE resolves to "Empty" |
| Simulation.ResolveThenParse | src/simulation/Simulation.cpp:1110-1119 | the console reads a resolved element name (or "NONE") back as the same type, when no enabled element before it shares the name and it is not a locked EXPL |
| Simulation.TypeOfNamed | src/simulation/Simulation.cpp:1110-1119 | a name an enabled element answers to reads as the first such element |
| Simulation.TypeOfNone | src/simulation/Simulation.cpp:1117-1118 | "NONE" reads as the empty element when no enabled element is so called |
| Simulation.NoneIsNotExpl | src/simulation/Simulation.cpp:1117-1118 | "NONE" is not a spelling of "EXPL", so the EXPL lock never hides it |
| Simulation.LastLive | src/simulation/Simulation.cpp:1181-1183 | the highest slot holding a particle lies below the range scanned |
| Simulation.NextEmptyIsFirst | src/simulation/Simulation.cpp:1253-1277 | the free list's head is the first empty slot of the range, or the slot after the range exactly when the range has none |
| Simulation.NextEmptyAt | src/simulation/Simulation.cpp:1253-1259 | the empty slot after a run of particles is the next one linked |
| Simulation.NextEmptyNone | src/simulation/Simulation.cpp:1262-1277 | a range full of particles links to the slot after it |
| Simulation.LastLiveIsLast | src/simulation/Simulation.cpp:1181-1183 | the new last active index holds a particle, every slot above it is empty, and at most last + 1 particles exist (together with line 1277) |
| Simulation.LiveBound | src/simulation/Simulation.cpp:1176-1183 | NUM_PARTS never exceeds the number of slots scanned |
| Simulation.RebuiltKeepsTypes | src/simulation/Simulation.cpp:1166-1278 | rebuilding the free list changes no particle's type |
| Simulation.CellInjective | src/simulation/Simulation.cpp:2845-2876 | distinct cells of the wall map are distinct entries |
| Simulation.CellRow | src/simulation/Simulation.cpp:2845-2876 | the cells of one row are contiguous in the wall map |
| Simulation.PutWall | src/simulation/Simulation.cpp:2843-2876 | off the map, or for a streamline next to another, nothing changes; otherwise only the target cell changes and it takes the wall (0 for ERASEALL) |
| Simulation.PutWallKeepsStreamsApart | src/simulation/Simulation.cpp:2854-2863 | CreateWall never puts two streamlines next to each other |
| Simulation.BoxOutside | src/simulation/Simulation.cpp:2932-2949 | the box loop leaves every cell it does not visit unchanged |
| Simulation.BoxInside | src/simulation/Simulation.cpp:2932-2949 | every visited cell on the map ends up holding the wall, for any wall but a streamline |
| Simulation.WallBoxFills | src/simulation/Simulation.cpp:2932-2949 | CreateWallBox fills exactly the on-map cells of the inclusive rectangle, whatever the corner order |
| Simulation.OnlyFilledTrans | src/simulation/Simulation.cpp:2951-3003 | flood steps compose, and only cells holding the replaced value change, to the wall |
| Simulation.FilledShrinks | src/simulation/Simulation.cpp:2989-2992 | filling a cell strictly shrinks the set of cells left to fill, so the flood ends |
| Simulation.RunInSpan | src/simulation/Simulation.cpp:2969-2986 | every run of the replaced value through x lies inside the span the two scans find |
| Simulation.SealedStays | src/simulation/Simulation.cpp:2951-3006 | a later fill never brings the replaced value back next to a cell |
| Simulation.ClosedTrans | src/simulation/Simulation.cpp:2994-3003 | two fills that cannot be extended, one after the other, make one that cannot be extended |
| Simulation.SpanClosed | src/simulation/Simulation.cpp:2969-3005 | a span bounded at both ends, with the rows above and below cleared beside it by closed fills, makes the call's fill closed |
| Simulation.ClosedFillsPath | src/simulation/Simulation.cpp:2951-3006 | a closed fill that covers the start covers every cell reachable from it through neighbouring cells holding the replaced value |
| Simulation.Sim.constructor | src/simulation/Simulation.cpp:54-57 | a new simulation has an empty particle table, every count 0, an empty wall map, pfree at 0 and the last active index at NPART - 1 (together with lines 104-117) |
| Simulation.Sim.RecountElements | src/simulation/Simulation.cpp:137-143 | every element's count becomes the number of its particles, and NONE's is 0 |
| Simulation.Sim.Kill | src/simulation/Simulation.cpp:1079-1096 | an empty slot is left alone; otherwise its element's count drops by one and the slot is freed; the counts stay correct |
| Simulation.Sim.Free | src/simulation/Simulation.cpp:1095 | the slot is emptied and becomes the free list's head, linking to the old head |
| Simulation.Sim.ChangeType | src/simulation/Simulation.cpp:1007-1049 | the result is true exactly for a change in range to the same type, to a disabled type, or allowed by indestructibility and the creation test; refusals change nothing; a change moves one count; a disabled type kills the particle |
| Simulation.Sim.RecalcFreeParticles | src/simulation/Simulation.cpp:1166-1278 | NUM_PARTS counts the particles, skip-move flags are cleared, the empty slots are linked in order from pfree ending past the old last index, and the last index drops to the highest particle |
| Simulation.Sim.Visit | src/simulation/Simulation.cpp:1178-1260 | one slot of the scan: a particle loses its flag, an empty slot is linked from the previous one or becomes pfree |
| Simulation.Sim.RecalcSlot | src/simulation/Simulation.cpp:1178-1260 | one pass of the scan keeps the loop's invariant: the count and the last slot in use cover one more slot, the slots after the last empty one all hold particles, and the free list is linked up to it |
| Simulation.Sim.EndFreeList | src/simulation/Simulation.cpp:1262-1276 | the list's last empty slot (or pfree) points past the old last index, or -1 at the end of the table |
| Simulation.Sim.CreateWall | src/simulation/Simulation.cpp:2843-2876 | the wall map becomes PutWall of the old one and the gravity flag is raised when a gravity wall is put or replaced |
| Simulation.Sim.CreateWallBox | src/simulation/Simulation.cpp:2932-2949 | the wall map becomes the box of the sorted corners |
| Simulation.Sim.FloodWalls | src/simulation/Simulation.cpp:2951-3006 | the result is 0 exactly for erasing from an empty cell; only cells holding the replaced value change, to the wall; the whole run through the start is filled, and no filled cell is left with a neighbour holding the replaced value, so with ClosedFillsPath every cell connected to the start through the replaced value is filled |
| Simulation.Sim.FloodFrom | src/simulation/Simulation.cpp:2969-3005 | from a start cell holding the replaced value: only such cells change, to the wall, the run through the start is filled and the fill cannot be extended to any neighbour |
| Simulation.Sim.SpanAround | src/simulation/Simulation.cpp:2969-2986 | the span holds the replaced value throughout and is maximal in its row |
| Simulation.Sim.FillSpan | src/simulation/Simulation.cpp:2988-2992 | every cell of the span takes the wall, only cells holding the replaced value change, and every cell outside the span keeps its value |
| Simulation.Sim.FloodRow | src/simulation/Simulation.cpp:2994-3003 | flooding the neighbouring row changes only cells holding the replaced value, to the wall, leaves no cell beside the span holding it, and cannot be extended to any neighbour |
| Anim.U32 | src/simulation/elements/ANIM.h:102-152 | an int taken as unsigned lies in 0..2^32-1, unchanged when non-negative and wrapped by 2^32 when negative |
| Anim.ColorAt | src/simulation/elements/ANIM.h:92-97 | a nonzero colour comes only from an existing buffer and a frame in 0..maxFrames-1 |
| Anim.SetColorIn | src/simulation/elements/ANIM.h:107-112 | only a valid frame of an existing buffer changes and it reads back the colour; every other frame reads as before |
| Anim.LoadedFrames | src/simulation/elements/ANIM.h:114-131 | the loaded buffer holds the colours up to the shorter of maxLength, maxFrames and the list, and zeroes after |
| Anim.AllColorsRoundTrip | src/simulation/elements/ANIM.h:99-131 | GetAllColors after SetAllColors with the same bound gives the colours back |
| Anim.CopyReadsPastEnd | src/simulation/elements/ANIM.h:140-156 | from tmp2 == -1 NewFrame moves to frame 0 with copying allowed and copies from frame 0xFFFFFFFF, past every buffer |
| Anim.NextFrame | src/simulation/elements/ANIM.h:140-149 | the new frame is valid; copying is allowed exactly when tmp2 + 1 is a frame after 0, and then the frame is tmp2 + 1 and the source the frame before |
| Anim.NextFrameAgrees | src/simulation/elements/ANIM.h:140-149 | the corrected frame choice agrees with the code except for tmp2 == -1 |
| Anim.PreviousFrameNumber | src/simulation/elements/ANIM.h:168-174 | the frame moves one back, never below 0 |
| Anim.FirstOfType | src/simulation/elements/ANIM.h:137-140 | the particle whose tmp2 the tools read is the first ANIM particle of the range, or there is none |
| Anim.NewFrameShowsFrame | src/simulation/elements/ANIM.h:150-157 | the particle shows a valid frame with its timer reset, its frame count covers it, its colour is that frame's, and copying copies the previous frame |
| Anim.DeleteFrameOne | src/simulation/elements/ANIM.h:197-203 | the buffer keeps maxFrames frames |
| Anim.DeleteFrameClamps | src/simulation/elements/ANIM.h:197-203 | the shown frame ends at most the frame count, a nonzero count at or past the frame drops by one, and the frames after the deleted one move down by one |
| Anim.NewFrameSynchronises | src/simulation/elements/ANIM.h:133-159 | every ANIM particle ends on the same valid frame, one past the first particle's when that was before the last |
| Anim.PreviousFrameSynchronises | src/simulation/elements/ANIM.h:161-180 | every ANIM particle ends on the frame before the first particle's, never below 0 |
| Anim.Animations.constructor | src/simulation/elements/ANIM.h:18-23 | no particle has a buffer and there are 25 frames |
| Anim.Animations.InitializePart | src/simulation/elements/ANIM.h:68-74 | the particle gets a buffer of maxFrames zeroes; nothing else changes |
| Anim.Animations.FreePart | src/simulation/elements/ANIM.h:76-83 | the particle's buffer is released; nothing else changes |
| Anim.Animations.SetColor | src/simulation/elements/ANIM.h:107-112 | the particle's buffer becomes SetColorIn of the old one |
| Anim.Animations.GetAllColors | src/simulation/elements/ANIM.h:99-105 | the result is the buffer's first min(maxLength as unsigned, maxFrames) frames |
| Anim.Animations.SetAllColors | src/simulation/elements/ANIM.h:114-131 | the particle's frame count becomes min(maxLength, maxFrames) - 1 and its buffer the loaded colours |
| Anim.Animations.NewFrameParticle | src/simulation/elements/ANIM.h:150-157 | one particle and its buffer become NewFrameOne of the old ones |
| Anim.Animations.DeleteFrameParticle | src/simulation/elements/ANIM.h:197-203 | one particle and its buffer become DeleteFrameOne of the old ones |
| Anim.Animations.NewFrame | src/simulation/elements/ANIM.h:133-159 | every ANIM particle up to lastActive is stepped by the frame chosen from the first one; nothing else changes |
| Anim.Animations.PreviousFrame | src/simulation/elements/ANIM.h:161-180 | every ANIM particle up to lastActive moves to the frame before the first one's; nothing else changes |
| Anim.Animations.DeleteFrame | src/simulation/elements/ANIM.h:182-205 | every ANIM particle up to lastActive loses the frame the first one shows; nothing else changes |
| Anim.AppliedAt | src/simulation/elements/ANIM.h:133-205 | once a frame tool has passed the first n slots, every ANIM slot among them up to lastActive holds that tool's result for it, and every other slot is as it was |
| Anim.Animations.ShiftFrames | src/simulation/elements/ANIM.h:197-198 | the shifting loop yields ShiftDown of the buffer, whose content DeleteFrameClamps states |
| Anim.Animations.ShiftBuffer | src/simulation/elements/ANIM.h:197-198 | the slot's buffer becomes ShiftDown of the old one and no other buffer changes |
| Pipe.Typ | src/simulation/elements/PIPE.cpp:145-150 | the element id lies in 0..0x1FF and an id already in range is kept |
| Pipe.PartToPipe | src/simulation/elements/PIPE.cpp:170-177 | the pipe takes the particle's type, temperature and life exactly, and tmp and ctype as floats: exact up to 2^24 in magnitude, and otherwise off by at most a 2^24-th |
| Pipe.FloatNear | src/simulation/elements/PIPE.cpp:175-176 | (float) of an int is off by at most a 2^24-th of its magnitude, and exact up to 2^24 |
| Pipe.FloatExact | src/simulation/elements/PIPE.cpp:175-176 | an int of magnitude at most 2^24 converts to float exactly |
| Pipe.RoundNear | src/simulation/elements/PIPE.cpp:175-176 | rounding to a 24-bit significand, to nearest with ties to even, moves a magnitude by at most a 2^24-th of itself |
| Pipe.DroppedBitsFit | src/simulation/elements/PIPE.cpp:175-176 | the significand left after the dropped bits has at most 24 bits, and exactly 24 whenever a bit is dropped |
| Pipe.PipeToPartEmpties | src/simulation/elements/PIPE.cpp:139-168 | the pipe (or STOR) is emptied; the particle gets the carried type, temperature, life and tmp, loses tmp2, flags and decoration, and stops unless it is energy |
| Pipe.PipeRoundTrip | src/simulation/elements/PIPE.cpp:139-177 | a particle put into a pipe and taken out has its own type, temperature and life, and tmp and ctype as the floats kept them, a photon's ctype of 2^30 (the float of the full wavelength mask) repaired to 0x3FFFFFFF; the pipe is left empty |
| Pipe.PipeRoundTripExact | src/simulation/elements/PIPE.cpp:139-177 | with tmp and ctype of magnitude at most 2^24 the particle comes back with exactly its own type, temperature, life, tmp and ctype |
| Pipe.PipeRounds | src/simulation/elements/PIPE.cpp:155-176 | past 2^24 the floats lose bits: tmp 0x1000001 comes back as 0x1000000, and a photon with ctype 0x3FFFFFF0 or 0x3FFFFFFF comes back with 0x3FFFFFFF |
| Pipe.PipeToPipeKeepsContents | src/simulation/elements/PIPE.cpp:179-196 | passing the contents to the next pipe empties the first and takes out the same particle the first would have given |
| Pipe.FloodStarts | src/simulation/elements/PIPE.cpp:56-67 | the trigger flood starts only from PPIP without the spark's flag set, and only for a spark that has a flag |
| Pipe.TriggerFlagsDistinct | src/simulation/elements/PIPE.cpp:39-64 | PSCN, NSCN and INST set the distinct bits 0x80000000, 0x40000000 and 0x20000000 |
| PipeFlags.SwapDirectionsLow | src/simulation/elements/PIPE.cpp:339-346 | the direction field at bit 9 receives the one from bit 13 |
| PipeFlags.SwapDirectionsHigh | src/simulation/elements/PIPE.cpp:339-346 | the direction field at bit 13 receives the one from bit 9 |
| PipeFlags.SwapDirectionsRest | src/simulation/elements/PIPE.cpp:339-346 | every bit outside the two direction fields stays |
| PipeFlags.SwapDirectionsInvolution | src/simulation/elements/PIPE.cpp:339-346 | swapping the directions twice gives them back |
| PipeFlags.SwapDirectionsXor | src/simulation/elements/PIPE.cpp:339-346 | toggling bits outside the two fields commutes with the swap |
| PipeFlags.SwitchColorSwaps | src/simulation/elements/PIPE.cpp:335-337 | the colour switch exchanges red and blue, keeps green, and makes no colour green |
| PipeFlags.SwitchColorKeeps | src/simulation/elements/PIPE.cpp:335-337 | the colour switch keeps the element byte, the one-pixel flag, REVERSED, PAUSED and the triggers |
| PipeFlags.SwitchColorTwice | src/simulation/elements/PIPE.cpp:335-337 | switching the colour twice restores any colour but none |
| PipeFlags.SwitchDirectionsTwice | src/simulation/elements/PIPE.cpp:338-346 | switching the one-pixel directions twice restores them |
| PipeFlags.ReverseColors | src/simulation/elements/PIPE.cpp:332-347 | reversing exchanges red and blue, keeps green, and turns an uncoloured pipe green |
| PipeFlags.ReverseFlipsReversed | src/simulation/elements/PIPE.cpp:334 | reversing always flips REVERSED |
| PipeFlags.ReverseKeeps | src/simulation/elements/PIPE.cpp:332-347 | reversing keeps the element byte, the one-pixel flag, PAUSED and the triggers |
| PipeFlags.ReverseTwice | src/simulation/elements/PIPE.cpp:332-347 | reversing a coloured pipe twice restores its flags, colour and directions |
| PipeTriggers.PauseStepKeeps | src/simulation/elements/PIPE.cpp:299-311 | the pause step changes nothing but PAUSED |
| PipeTriggers.ReverseStepKeeps | src/simulation/elements/PIPE.cpp:332-347 | the reverse step keeps the element byte, the one-pixel flag, PAUSED and the triggers |
| PipeTriggers.TriggersCleared | src/simulation/elements/PIPE.cpp:349 | no trigger flag survives the trigger block |
| PipeTriggers.TriggersKeepElement | src/simulation/elements/PIPE.cpp:296-350 | the trigger block never changes the element byte or the one-pixel flag |
| PipeTriggers.TriggerOnUnpauses | src/simulation/elements/PIPE.cpp:299-305 | TRIGGER_ON unpauses the pipe, whatever TRIGGER_OFF says |
| PipeTriggers.TriggerOffPauses | src/simulation/elements/PIPE.cpp:306-311 | TRIGGER_OFF without TRIGGER_ON pauses the pipe |
| PipeTriggers.PauseChangedReported | src/simulation/elements/PIPE.cpp:298-312 | the pause change is reported exactly when PAUSED changed |
| PipeTriggers.NoTriggerNoChange | src/simulation/elements/PIPE.cpp:296 | without a trigger flag the block changes nothing |
| Cray.BitAt | src/simulation/elements/CRAY.cpp:22-26 | one bit of the wavelength is 0 or 1 |
| Cray.CountBits | src/simulation/elements/CRAY.cpp:21-26 | a band's vote lies between 0 and the band's width |
| Cray.Scale | src/simulation/elements/CRAY.cpp:27 | the common factor lies in 16..624 |
| Cray.Clamp | src/simulation/elements/CRAY.cpp:32-37 | a channel is clamped into 0..255 |
| Cray.WavelengthToDecoColour | src/simulation/elements/CRAY.cpp:18-40 | the two counting loops compute DecoColour of the wavelength |
| Cray.Unpack | src/simulation/elements/CRAY.cpp:39 | the four bytes packed high to low come apart again |
| Cray.DecoColourFields | src/simulation/elements/CRAY.cpp:18-40 | the colour is opaque and each byte holds its band's vote scaled by 624 / (total + 1) and clamped |
| Cray.CountZero | src/simulation/elements/CRAY.cpp:21-26 | a band with no set bit votes 0 |
| Cray.ScaledLit | src/simulation/elements/CRAY.cpp:27-37 | a scaled vote is dark exactly when it is 0, and otherwise at least 16 |
| Cray.ChannelsLit | src/simulation/elements/CRAY.cpp:18-40 | each channel is dark exactly when its band has no set bit, and otherwise at least 16 |
| Cray.ZeroIsBlack | src/simulation/elements/CRAY.cpp:18-40 | wavelength 0 paints opaque black |
| Cray.ScaledTotal | src/simulation/elements/CRAY.cpp:27-30 | the scaled votes stay below 624 together |
| Pixel.PixR | src/graphics/Pixel.cpp:66 | the red channel of a pixel is a byte (together with line 394) |
| Pixel.PixG | src/graphics/Pixel.cpp:67 | the green channel of a pixel is a byte (together with line 395) |
| Pixel.PixB | src/graphics/Pixel.cpp:68 | the blue channel of a pixel is a byte (together with line 396) |
| Pixel.PixRGBChannels | src/graphics/Pixel.cpp:153 | the channels of a packed pixel are the bytes packed (together with line 406) |
| Pixel.PixRGBOfChannels | src/graphics/Pixel.cpp:66-68 | packing the channels of a 24-bit pixel gives it back (together with line 153) |
| Pixel.NearestIndex | src/graphics/Pixel.cpp:171 | the source pixel each output pixel copies lies inside the source |
| Pixel.Resampled | src/graphics/Pixel.cpp:166-173 | the resampled image has rw * rh pixels |
| Pixel.ResampledAt | src/graphics/Pixel.cpp:169-171 | output pixel (x, y) sits at rw * y + x and copies src[sw*(y*sh/rh) + x*sw/rw] |
| Pixel.ResampleSameSize | src/graphics/Pixel.cpp:166-173 | resampling to the same size is the identity |
| Pixel.ResampleTakesSourcePixels | src/graphics/Pixel.cpp:166-173 | every output pixel is a source pixel: nearest-neighbour resampling never blends |
| Pixel.ResampleNN | src/graphics/Pixel.cpp:166-173 | the loops build a fresh buffer holding the resampled image |
| Pixel.RoundedMeanByte | src/graphics/Pixel.cpp:400-405 | the rounded mean of bytes is a byte |
| Pixel.RoundedMeanNearest | src/graphics/Pixel.cpp:402-404 | the rounded mean is within half a count of the true mean |
| Pixel.CeilDivCovers | src/graphics/Pixel.cpp:380-381 | the output covers the image and not one block more |
| Pixel.Rescaled | src/graphics/Pixel.cpp:378-411 | the rescaled image has ceil(sw/f) * ceil(sh/f) pixels |
| Pixel.RescaledPixelMean | src/graphics/Pixel.cpp:386-406 | each output pixel is the rounded mean of the non-zero pixels of its block, channel by channel, and black when there are none |
| Pixel.RescaleByOne | src/graphics/Pixel.cpp:378-411 | with factor 1 a 24-bit image comes back unchanged |
| Pixel.RescaledAt | src/graphics/Pixel.cpp:406 | output pixel (x, y) sits at w * y + x and is its block's average |
| Pixel.SumBlockRow | src/graphics/Pixel.cpp:388-399 | one row of a block adds each of its non-zero, in-image pixels to the sums |
| Pixel.BlockAverage | src/graphics/Pixel.cpp:386-406 | the block loops give the rescaled pixel of (x, y) |
| Pixel.RescaleImg | src/graphics/Pixel.cpp:378-411 | the output size is ceil(sw/f) x ceil(sh/f) and the fresh buffer holds the rescaled image |
| Pixel.PtifHeader | src/graphics/Pixel.cpp:79-86 | the header is eight bytes |
| Pixel.ReadU16 | src/graphics/Pixel.cpp:115-116 | a 16-bit field reads as 0..65535 |
| Pixel.Plane | src/graphics/Pixel.cpp:62-70 | a channel plane has one byte per pixel |
| Pixel.Planes | src/graphics/Pixel.cpp:72-74 | the three planes laid end to end are three bytes per pixel |
| Pixel.Interleave | src/graphics/Pixel.cpp:149-155 | interleaving n bytes per plane gives n pixels |
| Pixel.PackRoom | src/graphics/Pixel.cpp:88 | the room offered to the compressor is never negative and fits the buffer allocated |
| Pixel.SplitPlanes | src/graphics/Pixel.cpp:62-74 | the column-by-column loop produces the red, green and blue planes laid end to end |
| Pixel.PtifPack | src/graphics/Pixel.cpp:53-99 | the result is the header and the compressed planes, or nothing when compression fails or does not fit |
| Pixel.JoinPlanes | src/graphics/Pixel.cpp:145-155 | the column-by-column loop interleaves the three planes into pixels |
| Pixel.PtifUnpack | src/graphics/Pixel.cpp:101-164 | short data, a wrong magic, a decompression failure and a size mismatch are errors; otherwise the image of the stored size |
| Pixel.HeaderSizes | src/graphics/Pixel.cpp:79-116 | the header holds the magic and version 1, and its sizes read back modulo 65536 |
| Pixel.PlanesAt | src/graphics/Pixel.cpp:62-74 | byte k of each plane is the channel of pixel k |
| Pixel.PlanesJoin | src/graphics/Pixel.cpp:62-74 | interleaving the planes of a 24-bit image gives it back (together with lines 145-155) |
| Pixel.JoinPlanesSplit | src/graphics/Pixel.cpp:62-74 | splitting interleaved planes gives the planes back (together with lines 145-155) |
| Pixel.PackUnpackRoundTrip | src/graphics/Pixel.cpp:53-164 | unpacking what was packed gives the image back, for sizes below 65536 whose compressed planes fit and decompress to themselves |
| Pixel.UnpackedOk | src/graphics/Pixel.cpp:101-164 | an accepted image has at least 16 bytes, the magic, the sizes of bytes 4-7, and w * h 24-bit pixels |
| Pixel.PackRoomWraps | src/graphics/Pixel.cpp:88-89 | for a one-pixel image the room as written wraps to 0xFFFFFFFB bytes where three remain |
| Pixel.PackedFits | src/graphics/Pixel.cpp:59-96 | whatever ptif_pack returns fits the 3 * n + 8 bytes allocated |
| GameView.HalfNeg | src/gui/game/PowderToy.cpp:717-719 | C's truncating halving is symmetric: (-v) / 2 == -(v / 2) |
| GameView.AntiDiagonal | src/gui/game/PowderToy.cpp:719 | the SW-NE step has legs of equal length pointing in opposite directions |
| GameView.LineSnapShape | src/gui/game/PowderToy.cpp:709-720 | a snapped line is horizontal or vertical keeping the drag's length on its axis, or at 45 degrees |
| GameView.RectSnapSquare | src/gui/game/PowderToy.cpp:722-729 | a snapped rectangle is a square in the quadrant of the drag |
| GameView.DrawModeKeys | src/gui/game/PowderToy.cpp:681-697 | flood fill exactly for ctrl and shift with tool -1 or the property tool, a rectangle exactly for ctrl alone, a line exactly for shift alone |
| GameView.StrengthKeys | src/gui/game/PowderToy.cpp:699-707 | shift strengthens the tool whatever else is held, ctrl alone weakens it, and otherwise it is at full strength |
| GameView.ZoomFactorRange | src/gui/game/PowderToy.cpp:773-774 | for a scope of 2..60 pixels the factor is 4..128 and the zoomed area is at most 256 pixels wide, less than one cell short of it |
| GameView.PowderToy.constructor | src/gui/game/PowderToy.cpp:70-97 | the game starts unpaused, drawing points at full strength, with a 32-pixel scope at factor 8 and no zoom shown |
| GameView.PowderToy.TogglePause | src/gui/game/PowderToy.cpp:511-526 | the pause flips and no longer restores the previous pause; unpausing resets the debug position; nothing else changes |
| GameView.PowderToy.SetPause | src/gui/game/PowderToy.cpp:528-532 | afterwards the game is paused exactly when asked, toggling only when the state differs |
| GameView.PowderToy.UpdateDrawMode | src/gui/game/PowderToy.cpp:681-697 | the draw state becomes the one the held keys and the active tool choose, and no other field changes |
| GameView.PowderToy.UpdateToolStrength | src/gui/game/PowderToy.cpp:699-707 | the tool strength becomes the one the held keys choose, and no other field changes |
| GameView.PowderToy.UpdateZoomCoordinates | src/gui/game/PowderToy.cpp:846-856 | the scope centres on the mouse clamped into the simulation area, and the window goes to the side away from the mouse |
| GameView.PowderToy.AdjustCursorSize | src/gui/game/PowderToy.cpp:767-777 | while placing the zoom window the scope is resized by the step and kept within 2..60, the factor is recomputed, and the scope and window are placed again around the unchanged zoom mouse position as UpdateZoomCoordinates does; otherwise nothing modelled changes |
| GameView.PowderToy.AdjustCoordinatesInside | src/gui/game/PowderToy.cpp:793-809 | a mapped mouse position always names a pixel of the simulation area, and one over the zoom window names a pixel of the scope |
| ScrollWindow.ScrollToRange | src/interface/ScrollWindow.cpp:173-187 | the new offset is in range, is the requested one when that is in range, and otherwise the nearer end |
| ScrollWindow.WheelMoves | src/interface/ScrollWindow.cpp:17-27 | wheel up never scrolls down, wheel down never scrolls up, each moves at most four pixels a notch, and the offset stays in range |
| ScrollWindow.ResizedAsWrittenOverscrolls | src/interface/ScrollWindow.cpp:167-170 | as written, a 200-high window over 500 of content scrolled to 250 keeps offset 250 when the content shrinks to 300, past the last screenful at 100 |
| ScrollWindow.ResizedInRange | src/interface/ScrollWindow.cpp:147-171 | after a resize the offset is in range; content that fits turns scrolling off; a view kept at the bottom shows the last screenful; otherwise the offset stays if it fits and moves to the last screenful if not |
| ScrollWindow.FirstTrue | src/interface/ScrollWindow.cpp:194-199 | the component that takes the mouse is the first one under it, or none |
| ScrollWindow.FirstTrueAppend | src/interface/ScrollWindow.cpp:188-202 | a later component takes the mouse only when no earlier one lies under it |
| ScrollWindow.ScrollComponent | src/interface/ScrollWindow.cpp:190-201 | one component moves up by the change, and takes the mouse exactly when it is the first under it and no subwindow covers the mouse |
| ScrollWindow.ScrollComponents | src/interface/ScrollWindow.cpp:188-202 | every component moves up by the change; the first one under the mouse takes it unless a subwindow covers the point, and all others lose it |
| ScrollWindow.ScrollWindow.constructor | src/interface/ScrollWindow.cpp:7-15 | a new scroll window is not scrollable, has no content, no offset and the mouse at (0, 0) |
| ScrollWindow.ScrollWindow.SetScrollPosition | src/interface/ScrollWindow.cpp:173-203 | the offset becomes the clamped request; when it changes every component moves up by the change and only the first under the mouse has it; otherwise nothing moves |
| ScrollWindow.ScrollWindow.DoMouseWheel | src/interface/ScrollWindow.cpp:17-35 | a scrollable window remembers the mouse and scrolls four pixels a notch, keeping the offset in range; when the offset changes every component moves up by the change and only the first under the wheel's position has the mouse, otherwise no component changes |
| ScrollWindow.ScrollWindow.SetScrollSize | src/interface/ScrollWindow.cpp:147-171 | the scroll state becomes the corrected resize, which keeps the offset in range; content that fits leaves every component where it was; otherwise, when the offset changes, every component moves up by the change and only the first under the last mouse position has it |
| Textbox.StringValid | src/interface/Textbox.cpp:103-109 | true exactly when the box accepts every character of the string |
| Textbox.DeleteSelection | src/interface/Textbox.cpp:26-47 | the result keeps both cursors within the text |
| Textbox.DeleteSelectionRestores | src/interface/Textbox.cpp:26-47 | deleting a selection removes exactly the selected span: putting it back at the cursor restores the original text |
| Textbox.DeleteNothing | src/interface/Textbox.cpp:28-29 | without a selection nothing is deleted |
| Textbox.Insert | src/interface/Textbox.cpp:59-81 | the spliced text keeps both cursors within it |
| Textbox.Inserted | src/interface/Textbox.cpp:49-86 | the outcome keeps both cursors within the text |
| Textbox.InsertedSpec | src/interface/Textbox.cpp:49-86 | an insertion either leaves the box as it was, or splices the cleaned text in at the start of the old selection with the cursor right after it and the text within characterLimit |
| Textbox.InsertedKeepsLimit | src/interface/Textbox.cpp:67-74 | a text within characterLimit never grows past it |
| Textbox.CleanedValid | src/interface/Textbox.cpp:51-101 | what InsertText splices into a text or multiline box is made of characters that box accepts |
| Textbox.Textbox.constructor | src/interface/Textbox.cpp:15-23 | a new box holds its text with a limit of 10000 characters |
| Textbox.Textbox.DeleteHighlight | src/interface/Textbox.cpp:26-47 | reports whether there was a selection and leaves the text and cursors as DeleteSelection gives them |
| Textbox.Textbox.InsertText | src/interface/Textbox.cpp:49-86 | leaves the text and cursors as Inserted gives them, the limit and type unchanged |
| Window.Component.constructor | src/interface/Component.cpp:8-20 | a new component has no parent, is visible, has the mouse outside, and is neither pending addition nor removal |
| Window.Component.Settle | src/interface/Window.cpp:138-147 | a component marked for deletion is detached; otherwise one marked toAdd is shown and unmarked (together with src/interface/Component.cpp:43-49) |
| Window.KeptMembers | src/interface/Window.cpp:136-148 | the update keeps exactly the components not marked for deletion |
| Window.KeptDistinct | src/interface/Window.cpp:136-148 | the update keeps the order, so no component ends up listed twice |
| Window.FilterDistinct | src/interface/Window.cpp:136-148 | erasing marked entries from a list without repeats leaves one without repeats |
| Window.FilterMembers | src/interface/Window.cpp:136-148 | erasing marked entries adds no component |
| Window.KeptIsFilter | src/interface/Window.cpp:136-148 | the marks read from the components are the marks the loop meets |
| Window.EraseStep | src/interface/Window.cpp:136-148 | one backwards step erases entry i exactly when it is marked and keeps the rest in order |
| Window.Window.constructor | src/interface/Window.cpp:12-31 | a new window has no components, no focus, no click and no focus calls |
| Window.Window.FocusComponent | src/interface/Window.cpp:113-123 | the focus moves to the component given; when it changes, the old holder hears OnDefocus and then the new one OnFocus |
| Window.Window.DefocusComponent | src/interface/Window.cpp:125-132 | the focus is dropped, with OnDefocus, exactly when the component holds it |
| Window.Window.AddComponent | src/interface/Window.cpp:56-70 | a component already present is left alone; otherwise it is appended, adopted, hidden (if it held the focus the window drops it and it hears OnDefocus, the only event recorded), and marked toAdd; no component is listed twice (together with src/interface/Component.cpp:43-49) |
| Window.Window.RemoveComponent | src/interface/Window.cpp:87-100 | the component is marked for deletion and nothing else about the components changes; focus and click are let go if it held them |
| Window.Window.UpdateComponents | src/interface/Window.cpp:134-148 | the components become those not marked for deletion, in order; the deleted are detached and the rest shown if marked toAdd |
| Window.Window.EraseMarked | src/interface/Window.cpp:136-148 | the backwards loop erases exactly the marked entries, keeping the order |
| Window.Window.SettleAt | src/interface/Window.cpp:136-148 | one pass of the loop settles the component at i and removes it from the list exactly when it is marked for deletion |
| Console.Newest | src/gui/console/Console.cpp:193-194 | at most twenty entries are kept, and they are the newest, in order |
| Console.PressedValid | src/gui/console/Console.cpp:275-299 | every key keeps the history within twenty entries and the shown position within it |
| Console.SubmittedHistory | src/gui/console/Console.cpp:110-130 | submitting puts the command and its result first, keeps the older entries in order behind it up to twenty, clears the saved command and returns to the command line |
| Console.UpShowsEntry | src/gui/console/Console.cpp:289-293 | Up moves one entry older and shows it (from the blank line, the saved command), and never moves past the oldest (together with lines 202-215) |
| Console.UpDownRestores | src/gui/console/Console.cpp:289-298 | from the command line, Up then Down brings back the command being typed (together with lines 202-215) |
| Console.DownUpRestores | src/gui/console/Console.cpp:294-298 | below a saved command Down blanks the line and Up brings the command back (together with lines 202-215) |
| Console.DividerClamped | src/gui/console/Console.cpp:252-259 | the divider keeps 100 pixels clear of either edge and follows the mouse where it can |
| Console.Console.constructor | src/gui/console/Console.cpp:16-51 | a console over the kept history shows the saved command at position -1, with the divider at VIDXRES / 2 - 50 and a 233-pixel scroll window (together with src/gui/console/Console.h:21) |
| Console.Console.Close | src/gui/console/Console.cpp:53-60 | the command being typed is saved for the next console, and nothing when an entry is shown |
| Console.Console.DiscardOldestCommand | src/gui/console/Console.cpp:182-200 | the history becomes its twenty newest entries; nothing else changes |
| Console.Console.Submit | src/gui/console/Console.cpp:110-130 | the session becomes Submitted: the entry goes first, the oldest beyond twenty are dropped, and an interpreter failure closes the console |
| Console.Console.SetHistoryLoc | src/gui/console/Console.cpp:202-215 | the session becomes Browse: leaving the command line saves it, and the line shows the entry, the saved command or nothing |
| Console.Console.OnKeyPress | src/gui/console/Console.cpp:275-299 | the session becomes Pressed of the key and stays valid |
| Console.Console.BeforeMouseDown | src/gui/console/Console.cpp:261-267 | a left click within 8 pixels of the divider above the command line starts dragging; the button is remembered and the click handled |
| Console.Console.BeforeMouseUp | src/gui/console/Console.cpp:269-273 | any release ends dragging and is handled |
| Console.Console.OnMouseMove | src/gui/console/Console.cpp:252-259 | while dragging, the divider moves to the clamped mouse position; otherwise it stays |

## Left out

- Network requests, Lua bindings, SDL input and all drawing are left out: they are I/O or foreign code. A key press, a mouse position or a measured text width enters the model as a parameter.
- Floating-point physics (air, gravity, heat transfer, particle updates) is left out, and random element behaviour with it. Temperatures, velocities, air and gravity values are carried as opaque integers or bytes.
- bzip2, BSON and zlib are left out. The PTi compressor and decompressor are function parameters of `Pixel`, and the save sections that go through BSON are not modelled.
- simulation/WallNumbers.h is not part of this model. `Walls` uses the game's WL_* and O_WL_* numbering, and the proofs rely only on the ids being distinct.
- simulation/ElementNumbers.h is not part of this model. The element ids that code compares against are a parameter record.
- simulation/Particle.h is not part of this model. `Parts.Particle` carries the integer fields the modelled code reads and writes.
- simulation/Simulation.h is not part of this model. part_free is taken as the index of the first free slot.
- graphics/Pixel.h is not part of this model. A pixel is taken as 0xRRGGBB, and PIXRGB, PIXR, PIXG and PIXB are taken as the byte packing and unpacking of that layout.
- common/Point.h is not part of this model. Point::Clamp is taken to clamp each coordinate separately.
- interface.h and hud.h are not part of this model. NUM_COMMENTS and the number of HUD options are parameters or constants with the game's values.
- SnapshotDelta.Snapshot is a value. Copying a live Simulation into a snapshot and back (Snapshot::CreateSnapshot, Snapshot::Restore) is not modelled.
- SnapshotDelta.Container holds an element's data container as a value. The container deltas (elementDataDelta, Compare, ElementDataContainer::Forward and ::Restore) are not modelled: no container in the game overrides Compare, which returns no delta by default (src/simulation/ElementDataContainer.h:47), so every container is copied whole.
- SnapshotHistory.SnapshotHistory.HistoryRestore, HistoryForward and UndoRedo state the restored snapshots up to ANIM's element data container, because a delta taken while the simulation holds no ANIM particle drops it (src/simulation/SnapshotDelta.cpp:124-129), as SnapshotDelta.AnimDataDropped shows.
- Interface.SearchResults does not model the thumbnail cache lookups made for each save, nor the freeing of the previous results.
- Interface.LimitHistory cuts the chain at the limit, but the nodes it frees stay reachable in the model, because Dafny has no deallocation.
- Save.SaveContents.constructor covers only the particle and sign parts of a GameSave. BuildSave's other sections (air, walls, fan velocities, authors) go through BSON and are not modelled.
- Simulation.Sim.CreateWall does not reset the fan velocity of the cell for a fan wall, because the air grid is not modelled. For WL_ERASEALL it clears the wall but does not delete the particles and signs in the cell.
- CreateWallLine is left out: it steps along the line in floating point.
- Simulation.Sim.FloodWalls requires the wall not to be WL_STREAM. With a stream wall, CreateWall refuses cells next to a stream, so those cells keep the value being replaced and the code's recursion can return to them without end.
- Simulation.Sim.FloodWalls requires, when a replace value is given, that the byte the wall stores differ from it, and requires (x, y) on the map. The code checks neither: with equal values each span is refilled with the same byte, its cells still hold the replaced value, and the recursion between neighbouring rows never ends; an (x, y) off the map indexes bmap out of range. The Lua binding simulation_floodWalls (src/luascriptinterface.cpp:844-860) passes its replace argument and coordinates through unchecked, so a script can reach both.
- Simulation.Sim.RecalcFreeParticles does not model the side work done in the same loop: the life countdown, the pmap and photons maps, and the element update counters. Only the count, the free list and the last active index are stated.
- Simulation.Sim.Kill and Simulation.Sim.ChangeType do not model the pmap and photons bookkeeping, nor the element's ChangeType callback. Only the particle table and the element counts are stated.
- ANIM's SetMaxFrames, Clone, Simulation_Cleared and isValid are left out. They reallocate or copy whole containers and state nothing beyond what InitlializePart and FreePart do to one particle.
- The PPIP flood fill itself (src/simulation/elements/PIPE.cpp:69-136) is left out: it walks a coordinate stack over the whole grid. Its entry conditions are modelled in Pipe.FloodStarts.
- The BRCK glow loop of a powered pipe (src/simulation/elements/PIPE.cpp:312-330) is left out: it is drawing state.
- Pipe.PipeToPart reads a float back as the integer it holds; for a float of 2^31 or more (an int near INT_MAX rounded up) the C conversion is undefined, and the model does not capture that. The line that disables ctype for a pipe-to-part transfer (src/simulation/elements/PIPE.cpp:294-295) is left out.
- Cray.WavelengthToDecoColour reads `255<<24` as the unsigned value 0xFF000000, as the colour is used.
- Pixel.PackRoom: the product w*h*3 is taken without C's int overflow; the wrap-around of the subtraction is what the Findings row covers. The PTi version byte is written but not checked on unpacking, as in the code.
- resample_img_high, resample_img_orig and generate_gradient are left out: they compute in floating point.
- GameView.PowderToy.AdjustCursorSize changes only the zoom scope. The brush radius it adjusts when no zoom window is being placed belongs to the brush classes, which are not modelled.
- GameView.PowderToy.TogglePause does not run the update of the remaining particles (UpdateParticles, UpdateAfter) when unpausing mid-frame, nor the log message; the reset of the debug position is stated.
- GameView.PowderToy.UpdateToolStrength holds the strength as a real, so .1f is taken as exactly 0.1.
- ScrollWindow: scrollbar dragging and drawing and the OnMouseWheel hook are left out, and subwindows enter as an insideSubwindow parameter. The Window part of ScrollWindow is flattened into its class, since Dafny classes do not inherit.
- ScrollWindow.ScrollWindow.SetScrollSize: when the content shrinks to fit, the code sets scrolled to 0 without moving the components back, and the model does the same; the contract states that outcome as it is.
- Window: the subwindow loop of UpdateComponents, the deletion of erased components and the OnFocus/OnDefocus handlers are left out; focus changes are reported as events. Resize, AddSubwindow and RemoveSubwindow are left out too.
- src/interface/Label.cpp is not part of this model. Whether the laid-out text of a Textbox overflows the box is a parameter.
- Textbox.Textbox.InsertText leaves out the redraw and the change callback. It also leaves out the cursor adjustment for '\r' line breaks that the layout in Label.cpp may add to the text. The cleaned insert itself holds no '\r', so without layout breaks the cursor lands just after the insert.
- Console: the labels, the scroll window, the button and RepositionLabels are left out. The interpreter's output and its failure flag are parameters of Submit. The console's globals are fields of the class. Keys are reduced to those the history handles, and OnTick and Rerun are left out.
- Simulation.Sim.constructor leaves every particle empty with life 0. clear_sim (src/main.cpp:193-202) then links the free slots through their life fields; that step is not modelled.
- Misc.Membwand requires dest and src to be different arrays. The callers (src/benchmark.cpp:212-213) pass distinct buffers; overlapping buffers are not modelled.
- SnapshotHistory.SnapshotHistory.TakeSnapshot takes the snapshot as a value. The early return when Snapshot::Create gives no snapshot (src/simulation/SnapshotHistory.cpp:156-158) is not modelled.
- LegacyConsole.ParseHex accumulates on unbounded integers. The C code multiplies a 32-bit int, whose overflow on a long number is undefined; that wrap is not modelled.

## Findings

| source | as written | input that shows it | evidently intended | confidence | as-written member | corrected member |
|---|---|---|---|---|---|---|
| src/game/Save.cpp:2402-2408 | the LSNS version rule tests `tmp >= 1 \|\| tmp <= 3`, which holds for every tmp | an LSNS particle with tmp 0 in a save otherwise readable by 92.0 is marked as needing 95.0 | `tmp >= 1 && tmp <= 3`: only modes 1 to 3 need 95.0 | not executed | Save.LsnsAlwaysRestricts | Save.LsnsRestrictsModes |
| src/interface.cpp:235-252 | findWordPosition, when the position lies after a final separator, leaves the loop and returns the end of the text plus the length of the last word scanned, past the end of the string | text "ab ", position 3, separators " " gives (3, 5) for a 3-character string | the empty word at the end: (3, 3) | not executed | Interface.WordPastEnd | Interface.WordAtIsWord |
| src/interface.cpp:5300-5301 | a COMMENT line whose author is not followed by a space makes strchr return NULL, which is then dereferenced | the reply line "COMMENT bob" | the comment read with an empty text | not executed | Interface.CommentWithoutText | Interface.CommentFields |
| src/game/Save.cpp:1011-1034 | the particle section checks for room only before the first field byte, then reads the second type byte and a 16-bit temperature unchecked | particle data [1, 0x01, 0x40, 0] (type 1, descriptor 0x4001) is read up to index 5 of a 4-byte buffer | the save rejected as corrupt when a field runs past the end | not executed | Save.HeadReadsPastEnd | Save.DecodeHead |
| src/simulation/elements/ANIM.h:140-156 | NewFrame computes framenum as the unsigned tmp2 + 1 and copies animations[i][framenum - 1] whenever the new frame is in range | the first ANIM particle has tmp2 == -1: framenum is 0, and frame 0xFFFFFFFF is read | copy only when there is a frame before the new one | not executed | Anim.CopyReadsPastEnd | Anim.NextFrame |
| src/graphics/Pixel.cpp:88-89 | ptif_pack passes (w*h)*3 - 8 as the compressor's unsigned output room | a 1x1 image: the room wraps to 0xFFFFFFFB for a buffer of 11 bytes | a room never larger than the buffer less its header, 0 when the image data is under 8 bytes | not executed | Pixel.PackRoomWraps | Pixel.PackedFits |
| src/interface/ScrollWindow.cpp:169 | SetScrollSize brings scrolled back only when `scrolled > scrollSize`, so an offset past the last screenful stays | size.Y 200, scrollSize 500, scrolled 250, then SetScrollSize(300, true): scrolled stays 250 where at most 100 is in range | compare with and clamp to `scrollSize - size.Y` | not executed | ScrollWindow.ResizedAsWrittenOverscrolls | ScrollWindow.ResizedInRange |
