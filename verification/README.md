# A verified model of mupen64plus' texture, frame buffer and command state

This project models the integer and state code of the GLideN64 video plugin, and self-contained algorithms of
libretro-common beside it, and proves what that code is for. Code that changes state in place is modelled by classes and
methods over arrays, each proved against a function; the properties are lemmas about those functions.

| file | models |
|---|---|
| `Convert.dfy` | the two array kernels of the texture loaders: the copy out of byte-swapped RDRAM, the exchange of 32-bit halves |
| `TileLoad.dfy`, `Tile32.dfy`, `BlockLoad.dfy`, `BlockTile.dfy`, `Gdp.dfy`, `Commands.dfy` | loading texels into TMEM, and when a block load equals a tile load |
| `Dxt.dfy`, `TexelFetch.dfy` | the dxt arithmetic, reading texels back, and load followed by fetch |
| `FrameBuffers.dfy`, `FrameBufferList.dfy` | the list of frame buffer address ranges, as a state machine and as the mutable list that refines it |
| `RdpRing.dfy` | the RDP command ring, an incremental parser |
| `CombineMode.dfy`, `Combiner.dfy`, `CombinerCompiler.dfy` | the colour combiner compiler, its packed modes and keys, its cache |
| `Stages.dfy`, `Witnesses.dfy`, `AlphaWitnesses.dfy`, `Collapse.dfy` | the inputs a shader gives the two stages, and when a compiled program may drop the second of two equal cycles |
| `TextureCache.dfy` | the recency list and index of the texture cache |
| `Fnmatch.dfy`, `Cdrom.dfy`, `Utf.dfy`, `Crc.dfy`, `CrcTable.dfy`, `Wav.dfy`, `Base64.dfy` | pattern matching, CD reading, text transcoding, checksums, looping sounds, base64 |
| `Machine.dfy`, `Bits.dfy`, `Arith.dfy`, `Wrappers.dfy` | machine integers, exclusive or and mirroring of bits, nonlinear facts, `Option` |

Results that a reader of the code may not expect:

- Loading an image of `w` qwords a line as a block and as a tile agree **if and only if**
  `(w*h - 1) * (w*dxt - 2048) < 2048` (`BlockTile.BlockIsTileExactly`).
- Dropping the second of two equal combiner cycles is not always right: the second stage has the texels exchanged and the
  first one's result in COMBINED. A mode that just passes TEXEL0 through shows it (`Collapse.PassThroughCollapse`); for every
  two-cycle key with equal cycles `Collapse.MayCollapse` is the exact condition for the combiner's result, before wrapping and
  clamping, to stay as it is (`Collapse.CollapseExactly`).
- A CD read that reports success has only received its *last* frame: an earlier frame that failed for good is left out and
  the later ones move up (`Cdrom.SuccessWithoutFirstFrame`). It delivers the bytes of every disc exactly if, up to the last
  success it needs, every failure is of a retried kind and there are at most ten (`Cdrom.RightExactly`).
- `increment_msf` is a successor except from improper addresses and at the end of minute 255 (`Cdrom.NextIsSuccessor`).
- A block load stores the texels it names exactly if they are fewer than 4096; a block of 4096, the most the command can
  name, loads nothing (`Commands.LoadsNamedExactly`).
- A tile load of a row or column of all 1024 texels that the corners can name loads nothing
  (`Commands.FullRowLoadsNothing`).
- Updating the end of the current frame buffer removes every buffer its picture meets, but for one in whose first one to
  four rows it ends: before that it is cut instead (`FrameBuffers.EndUpdatedExactly`). Each saveBuffer for the same
  picture replaces its buffer as long as the window's scale is below 1 (`FrameBuffers.CreatedContinues`).
- The area behind the RDP ring is shorter than the longest command: some command of a stream spills past it exactly if one of
  40 words starts in the last 7 words of the ring or one of 44 words in the last 11 (`RdpRing.SpillFitsExactly`), and a run
  from the initial state comes to that (`RdpRing.FillRing`).
- A texture unit may point to a texture that the cache has destroyed. On every run a unit's texture is still listed exactly
  if no access of its key asked for another size and at no time as many different keys as the cache has room for were
  accessed after the latest access of its own (`TextureCaches.Stays`, `TextureCaches.TextureCache.UnitListedExactly`). For
  every limit, misses of the other unit drop it (`TextureCaches.DropForeignTexture`), or one access of its key with another
  size (`TextureCaches.ReplaceForeignTexture`).

Inputs from outside the modelled code are parameters: RDRAM and DMEM contents, DP registers, video settings, texture keys,
the disc and the success of each attempt to read it.

## Model

| member | source | states |
|---|---|---|
| Convert.CopiedAt | GLideN64/src/convert.cpp:102-141 | Until a copy laps TMEM, the k-th byte from the destination on is the N64 byte `src + k`, whatever the alignments; bytes outside are untouched |
| Convert.CopyInsideWord | GLideN64/src/convert.cpp:104-119 | The leading and trailing byte loops store N64 bytes in ascending order although they read host bytes backwards from the mirrored index |
| Convert.CopyWords | GLideN64/src/convert.cpp:121-129 | The word loop stores each host word back to front, which is four N64 bytes front to back |
| Convert.CopyAligned | GLideN64/src/convert.cpp:121-140 | From a word boundary on, words and trailing bytes together make one copy |
| Convert.UnswapCopyWrap | GLideN64/src/convert.cpp:102-141 | For every alignment and length the in-place copy stores N64 bytes `src..src+n` in order, wrapping in TMEM |
| Convert.InterleavedAt | GLideN64/src/convert.cpp:143-153 | Until it laps itself, byte p of each of the n qwords comes from `p ^ 4`, all other bytes stay |
| Convert.DWordInterleaveWrap | GLideN64/src/convert.cpp:143-153 | The in-place loop exchanges the 32-bit halves of n consecutive qwords, wrapping |
| TileLoad.RowLoadedAt | GLideN64/src/gDP.cpp:415-421 | Every byte of TMEM after one row: mirrored by 4 inside the whole qwords of odd rows, plain elsewhere, untouched outside |
| TileLoad.RowStaysInside | GLideN64/src/gDP.cpp:416-419 | A row is whole if a whole line of it lies before the end of RDRAM, else it ends there; a row no longer than a line leaves neither its line nor RDRAM |
| TileLoad.RowsFrame | GLideN64/src/gDP.cpp:415-427 | A load whose rows do not overlap leaves alone what lies past its rows |
| TileLoad.RowsLoadedAt | GLideN64/src/gDP.cpp:411-428 | Every byte of every row after all rows of a separate load, and the bytes left as they were |
| TileLoad.RowCountExact | GLideN64/src/gDP.cpp:423-425 | Rows are loaded exactly while their address lies inside RDRAM |
| TileLoad.LoadRow | GLideN64/src/gDP.cpp:416-421 | One row in place: copied, cut at the end of RDRAM, and on odd rows interleaved |
| TileLoad.LoadRows | GLideN64/src/gDP.cpp:411-428 | The in-place row loop with its exit at the end of RDRAM |
| Tile32.PtrInjective | GLideN64/src/gDP.cpp:325-330 | Different texels of a separate 32-bit load go to different half-words, despite the xor with 1 or 3 and the mask |
| Tile32.LoadTile32b | GLideN64/src/gDP.cpp:313-335 | The in-place double loop stores the halves of every texel in the two banks, in source order |
| Tile32.TileHolds | GLideN64/src/gDP.cpp:313-335 | After all rows every texel's halves are still in their places in the two banks |
| Tile32.Line32IsLine | GLideN64/src/Textures.cpp:1008-1020 | The computed stride is four half-words per qword of the line if and only if the clamp width is not zero |
| Tile32.SplitThenMerge | GLideN64/src/Textures.cpp:1004-1039 | 32-bit load then fetch yields the byte-reversed source word of every texel |
| BlockLoad.PassLine | GLideN64/src/gDP.cpp:546-559 | The inner loops stop at the first qword whose bit 11 differs, or when no qword is left |
| BlockLoad.PassTwoLines | GLideN64/src/gDP.cpp:546-565 | One round skips an even run and interleaves the odd run after it, exits in the middle of either included |
| BlockLoad.InterleaveOddLines | GLideN64/src/gDP.cpp:541-566 | For every dxt and number of qwords the run loop exchanges the halves of exactly the qwords whose counter has bit 11 set |
| BlockLoad.CounterIsProduct | GLideN64/src/gDP.cpp:551-558 | The accumulated 32-bit counter is `k * dxt` modulo 2^32 |
| BlockLoad.OddLineIsBit11 | GLideN64/src/gDP.cpp:551-559 | Wrapping does not matter: qword k is on an odd line exactly if bit 11 of `k * dxt` is set |
| BlockTile.LoadQwords | GLideN64/src/gDP.cpp:538-566 | The copy and the dxt loop, in place, give the block-loaded TMEM |
| BlockTile.BlockLoadedAt | GLideN64/src/gDP.cpp:539-566 | Every byte of TMEM after a block load: exchanged or not by the parity of its counted line |
| BlockTile.CountedLineRight | GLideN64/src/gDP.cpp:542-559 | The counted line of a qword is its line exactly while the accumulated excess stays below the words left in the line |
| BlockTile.CountedRight | GLideN64/src/gDP.cpp:542-559 | Below the bound every qword is counted into its own line |
| BlockTile.CountedWrong | GLideN64/src/gDP.cpp:542-559 | Above the bound some qword of the image is counted into the next line |
| BlockTile.BlockIsTile | GLideN64/src/gDP.cpp:411-428 | Below the bound a block load and a tile load of a contiguous image give the same TMEM, byte for byte |
| BlockTile.BlockIsNotTile | GLideN64/src/gDP.cpp:539-566 | Above the bound an image is exhibited that the two loads put differently |
| BlockTile.BlockIsTileExactly | GLideN64/src/gDP.cpp:482-568 | For every image that fits: the two loads agree for all TMEM and RDRAM contents if and only if the bound holds |
| Gdp.FixedExactly | GLideN64/src/gDP.cpp:209-212 | Of the 10.2 fixed-point number in an argument's low twelve bits the whole part, and nothing else, becomes the corner |
| Gdp.Gdp.SetTileSize | GLideN64/src/gDP.cpp:207-220 | Only the addressed tile changes, and of it only the corners, to the texels that the fixed-point arguments name |
| Gdp.Gdp.LoadTile | GLideN64/src/gDP.cpp:337-429 | All branches: empty rectangle, zero line, frame buffer texture, 32-bit, others; TMEM and the tile afterwards |
| Gdp.Gdp.LoadBlock | GLideN64/src/gDP.cpp:482-568 | All branches for 4, 8 and 16-bit tiles: nothing to load, past the end of RDRAM, dxt zero or not |
| Gdp.BlockSize | GLideN64/src/gDP.cpp:511-514 | The rounding makes whole qwords |
| Commands.TileShowsImage | GLideN64/src/gDP.cpp:337-429 | After gDPLoadTile a fetch at (tx, ty) yields texel (uls+tx, ult+ty) of the texture image, for 8 and 16 bits |
| Commands.CornersShowImage | GLideN64/src/gDP.cpp:337-429 | On the command's arguments: gDPLoadTile for corners (s0, t0) and (s1, t1), with any fractions, makes a fetch at (tx, ty) yield texel (s0+tx, t0+ty) |
| Commands.LoadRectangle | GLideN64/src/gDP.cpp:337-429 | The same of the TMEM that the command leaves, for all texels of the rectangle |
| Commands.FullRowLoadsNothing | GLideN64/src/gDP.cpp:348-349 | Width and height are those of the corners if and only if these are less than 1024 texels apart; of 1024 nothing is loaded |
| Commands.TileShowsImage32 | GLideN64/src/gDP.cpp:313-335 | For 32 bits it yields that word of the image, byte-reversed |
| Commands.CornersShowImage32 | GLideN64/src/gDP.cpp:313-335 | On the command's arguments: a 32-bit fetch at (tx, ty) yields word (s0+tx, t0+ty) of the image, byte-reversed |
| Commands.BlockCommandIsTileCommand | GLideN64/src/gDP.cpp:482-568 | gDPLoadBlock of a whole image and gDPLoadTile of its rectangle leave the same TMEM below the bound |
| Commands.BlockBytesExactly | GLideN64/src/gDP.cpp:511-514 | A block counts as many bytes as the whole qwords of its texels if and only if it names fewer than 4096 texels; 4096 count as none |
| Commands.BlockLoadsNamed | GLideN64/src/gDP.cpp:511-568 | TMEM after a block load that may name any texels: all of them loaded, or with 4096 of them nothing changed |
| Commands.BlockPastEnd | GLideN64/src/gDP.cpp:519-520 | A block that reaches the end of RDRAM leaves TMEM alone |
| Commands.LoadsNamedExactly | GLideN64/src/gDP.cpp:511-568 | A block load stores the texels it names, whatever TMEM and RDRAM hold, if and only if they are fewer than 4096 |
| Dxt.WordsOfLine | GLideN64/src/Textures.cpp:397-405 | A line's length is the number of whole 64-bit words its texels fill, at least one |
| Dxt.DxtRoundsUp | GLideN64/src/Textures.cpp:391-395 | A dxt is the least step with which the line's words reach 2048 |
| Dxt.LengthsOfDxt | GLideN64/src/Textures.cpp:391-395 | The line lengths with a given dxt are exactly an interval |
| Dxt.ReverseDXT | GLideN64/src/Textures.cpp:407-423 | The length found has the given dxt whenever any line has it: the texture's own length if that has it, else the middle one of all that have it; and what is returned for other values |
| Dxt.LineHasDxt | GLideN64/src/Textures.cpp:391-423 | Every line of 1 to 2047 words has a dxt that ReverseDXT takes, so all of them round-trip |
| TexelFetch.CoordIsMasked | GLideN64/src/Textures.cpp:984-1002 | For every coordinate: it is cut at the clamp, at the end of two mirrored textures, or at the texture's, and congruent to that modulo 2^mask and below it, or equal to it without a mask |
| TexelFetch.ClampHolds | GLideN64/src/Textures.cpp:984-1002 | Every coordinate beyond the clamp becomes what the last one before it becomes |
| TexelFetch.CoordInside | GLideN64/src/Textures.cpp:984-1002 | Inside the texture a coordinate is held at the clamp and taken modulo 2^mask, and nothing else |
| TexelFetch.RasterAt | GLideN64/src/Textures.cpp:1053-1068 | Entry `y * width + x` (which `IndexIs` shows the index to be) of the decoded texture is texel (x, y) |
| TexelFetch.GetTextureDestData | GLideN64/src/Textures.cpp:1050-1069 | The decoding loops write exactly the raster of the texture |
| TexelFetch.RowsWrap | GLideN64/src/Textures.cpp:1052-1056 | Rows come from whole qwords and wrap at the end of TMEM, with a lookup table at the end of its lower half |
| TexelFetch.LogicalByte | GLideN64/src/Textures.cpp:100-205 | The readers' xor index undoes the exchange of odd lines |
| TexelFetch.FetchLoaded | GLideN64/src/Textures.cpp:1050-1069 | A fetch from a loaded tile is the big-endian texel of RDRAM, for 4, 8 and 16 bits, every alignment, width and row |
| TexelFetch.LoadThenFetch | GLideN64/src/gDP.cpp:411-428 | Tile load then decoding is the identity: entry (x, y) is the image's texel at (x, y), held at the clamps and modulo 2^mask |
| TexelFetch.TextureRepeats | GLideN64/src/Textures.cpp:1050-1069 | Whatever TMEM holds, a masked and unclamped axis of the decoded texture repeats every 2^mask texels |
| TexelFetch.TextureHeld | GLideN64/src/Textures.cpp:1050-1069 | Beyond a clamp every decoded texel is the last one before it |
| FrameBuffers.EndedSound | GLideN64/src/FrameBuffer.cpp:211-215 | An updated end gives a non-empty range inside RDRAM, without leaving 32 bits |
| FrameBuffers.EndedExactly | GLideN64/src/FrameBuffer.cpp:211-215 | An updated range contains an address if and only if that lies in RDRAM and is a byte of a pixel (x, y) with x below the width and y below the height, or in the first row |
| FrameBuffers.MetExactly | GLideN64/src/FrameBuffer.cpp:624-659 | Of two buffers that meet, the one that ends one to four whole rows inside the other, of the same format, is trimmed; else the other buffer is erased |
| FrameBuffers.SweptExactly | GLideN64/src/FrameBuffer.cpp:638-661 | From the run invariant: a buffer is left if and only if it does not meet the current one or the current one ends in its first four rows; only before such a one is the current buffer cut |
| FrameBuffers.SweptClears | GLideN64/src/FrameBuffer.cpp:638-661 | After removeIntersections the current range, which has not grown, is disjoint from every survivor |
| FrameBuffers.SweptShrinks | GLideN64/src/FrameBuffer.cpp:638-661 | No survivor has grown or is new |
| FrameBuffers.SweptKeeps | GLideN64/src/FrameBuffer.cpp:638-661 | A buffer that did not meet the current range is untouched |
| FrameBuffers.SweptSettles | GLideN64/src/FrameBuffer.cpp:638-661 | From the run invariant, removeIntersections makes all ranges pairwise disjoint |
| FrameBuffers.InvSaved | GLideN64/src/FrameBuffer.cpp:688-839 | saveBuffer keeps the run invariant and ends with a current buffer containing the address |
| FrameBuffers.PreparedExactly | GLideN64/src/FrameBuffer.cpp:702-729 | saveBuffer first drops the current buffer exactly if it is auxiliary and copied, else it updates its end |
| FrameBuffers.SelectedFinds | GLideN64/src/FrameBuffer.cpp:735-736 | Whether it searches or not, it goes on with the buffer that contains the address |
| FrameBuffers.PartExactly | GLideN64/src/FrameBuffer.cpp:738-766 | The two tests in rows: drawn inside unless the address begins a row with fewer than six whole rows behind it; cut off with fewer than five |
| FrameBuffers.CreatedExactly | GLideN64/src/FrameBuffer.cpp:171-189 | A new buffer starts at the address and holds the bytes of one row, or of the screen's rows |
| FrameBuffers.CreatedContinues | GLideN64/src/FrameBuffer.cpp:179-185 | The next saveBuffer for the same picture, unless it begins by dropping the buffer, goes on with a new buffer if and only if its scale, which is 1 if it is auxiliary and copied and else at least 1, is the current one |
| FrameBuffers.SavedExactly | GLideN64/src/FrameBuffer.cpp:688-839 | What saveBuffer leaves of any list of the invariant, told by the only buffer that contains the address: gone on with, drawn inside, cut off or replaced; all others stay |
| FrameBuffers.InvBufferRemoved | GLideN64/src/FrameBuffer.cpp:864-875 | removeBuffer keeps the run invariant |
| FrameBuffers.InvAuxRemoved | GLideN64/src/FrameBuffer.cpp:849-862 | removeAux keeps the run invariant |
| FrameBuffers.AuxRemovedExactly | GLideN64/src/FrameBuffer.cpp:849-862 | removeAux leaves exactly the buffers as wide as the screen, in order, and the current one if it is one of them |
| FrameBuffers.InvChanged | GLideN64/src/FrameBuffer.cpp:577-588 | setBufferChanged keeps the run invariant; it raises the current height to the rows drawn and changes no other buffer |
| FrameBuffers.EndUpdatedSettles | GLideN64/src/FrameBuffer.cpp:671-677 | updateCurrentBufferEndAddress keeps it and makes all ranges disjoint |
| FrameBuffers.EndUpdatedExactly | GLideN64/src/FrameBuffer.cpp:671-677 | A buffer stays if and only if it does not meet the current one's whole picture, or that ends in its first rows |
| FrameBuffers.EndUpdatedFound | GLideN64/src/FrameBuffer.cpp:606-677 | With no other buffer in the way, findBuffer finds the current buffer at exactly the bytes of its picture |
| FrameBuffers.Run | GLideN64/src/FrameBuffer.cpp:559-875 | Every run of the five operations satisfies: non-current buffers pairwise disjoint and non-empty, none containing the current start |
| FrameBuffers.SettledUnique | GLideN64/src/FrameBuffer.cpp:606-613 | In a settled list at most one buffer contains an address and at most one starts there |
| FrameBuffers.FindOrderFree | GLideN64/src/FrameBuffer.cpp:606-613 | In a settled list findBuffer's answer does not depend on list order |
| FrameBuffers.FindAfterRun | GLideN64/src/FrameBuffer.cpp:606-677 | The same on every run from the empty list, right after the current end was updated |
| FrameBufferLists.FrameBuffer.UpdateEndAddress | GLideN64/src/FrameBuffer.cpp:211-215 | The in-place update of the end address |
| FrameBufferLists.FrameBufferList.Find | GLideN64/src/FrameBuffer.cpp:606-613 | The search loop finds the first buffer containing the address, or none |
| FrameBufferLists.Overlaps | GLideN64/src/FrameBuffer.cpp:624-636 | isOverlapping, with its unsigned difference |
| FrameBufferLists.FrameBufferList.Meet | GLideN64/src/FrameBuffer.cpp:647-659 | One meeting on the mutable list: trim either buffer, erase, or nothing |
| FrameBufferLists.FrameBufferList.RemoveIntersections | GLideN64/src/FrameBuffer.cpp:638-661 | The iterator loop visits each entry once although it erases on the way |
| FrameBufferLists.FrameBufferList.UpdateCurrentBufferEndAddress | GLideN64/src/FrameBuffer.cpp:671-677 | Refines the state machine's transition |
| FrameBufferLists.FrameBufferList.SetBufferChanged | GLideN64/src/FrameBuffer.cpp:577-588 | Refines it; the colour image height stays within the scissor |
| FrameBufferLists.FrameBufferList.RemoveBuffer | GLideN64/src/FrameBuffer.cpp:864-875 | Refines it, clearing the current pointer if it pointed there |
| FrameBufferLists.FrameBufferList.RemoveAux | GLideN64/src/FrameBuffer.cpp:849-862 | Refines it although the loop erases while iterating |
| FrameBufferLists.SubBuffer | GLideN64/src/FrameBuffer.cpp:738-754 | The sub-buffer test of saveBuffer |
| FrameBufferLists.OverlappingBuffer | GLideN64/src/FrameBuffer.cpp:756-765 | The overlap test of saveBuffer |
| FrameBufferLists.FrameBufferList.Prepare | GLideN64/src/FrameBuffer.cpp:702-729 | saveBuffer up to its search refines the state machine |
| FrameBufferLists.FrameBufferList.Select | GLideN64/src/FrameBuffer.cpp:735-736 | Its choice of the buffer to go on with |
| FrameBufferLists.FrameBufferList.Settle | GLideN64/src/FrameBuffer.cpp:767-839 | Its reuse, trim, removal and creation of buffers |
| FrameBufferLists.FrameBufferList.SaveBuffer | GLideN64/src/FrameBuffer.cpp:688-839 | The whole of saveBuffer refines the state machine's transition |
| RdpRing.Words | GLideN64/src/RDP.cpp:451-518 | Every command takes 2 to 44 words, so parsing makes progress |
| RdpRing.TableExactly | GLideN64/src/RDP.cpp:451-518 | Every opcode's length is that of its parts: a triangle's edge, shade, texture and depth coefficients as its opcode's bits tell, four words for a texture rectangle, else two; no other bits of the first word count |
| RdpRing.ParseExact | GLideN64/src/RDP.cpp:583-603 | Parsing loses, adds and reorders no word, leaves an incomplete rest, and is the only such cut of the stream; a command is as long as its parts |
| RdpRing.ParseResumes | GLideN64/src/RDP.cpp:583-603 | Parsing can stop anywhere and go on with the leftover words |
| RdpRing.SplitDoesNotMatter | GLideN64/src/RDP.cpp:562-615 | However a word stream is split over calls, the same commands run in the same order and the same words stay |
| RdpRing.DistanceIs | GLideN64/src/RDP.cpp:586-586 | The masked difference of the two indices counts the pending words, wrapped or not |
| RdpRing.FetchedAt | GLideN64/src/RDP.cpp:554-580 | Word i of a list comes from its place in RDRAM, or in DMEM, where addresses wrap |
| RdpRing.EndsInSpillArea | GLideN64/src/RDP.cpp:591-592 | It is enough for the spill to fit that the stream ends before the end of the spill area |
| RdpRing.SpillFitsExactly | GLideN64/src/RDP.cpp:583-602 | For every stream that fits the ring: all commands stay inside the spill area if and only if none of 40 words starts in the last 7 words of the ring and none of 44 in the last 11 |
| RdpRing.FillRing | GLideN64/src/RDP.h:4-13 | From the initial state one call on no-ops and two words of a 44-word command leads to a state where any 42 further words spill past the area |
| RdpRing.RdpInfo.Load | GLideN64/src/RDP.cpp:576-580 | The load loop appends the incoming words to the pending ones, in ring positions |
| RdpRing.RdpInfo.Spill | GLideN64/src/RDP.cpp:591-592 | The words of the next command become contiguous at cmd_cur despite wrap-around |
| RdpRing.RdpInfo.ExecuteNext | GLideN64/src/RDP.cpp:594-602 | One command runs on exactly its words and is consumed |
| RdpRing.RdpInfo.ExecuteAll | GLideN64/src/RDP.cpp:582-608 | All complete commands run in order, an incomplete one stays; an emptied ring starts over at zero |
| RdpRing.RdpInfo.ProcessLists | GLideN64/src/RDP.cpp:562-615 | Any number of calls on the ring: the commands executed in all are those parsed from all their words together, however the words are split over the calls |
| RdpRing.RdpInfo.ProcessRDPList | GLideN64/src/RDP.cpp:562-615 | One call executes exactly the commands parsed from pending and new words and keeps the rest; paused and empty calls included |
| CombineMode.EncodeDecode | GLideN64/src/Combiner.h:52-61 | Packed selectors are read back by the bit fields, the mode byte stays clear |
| CombineMode.DecodeEncode | GLideN64/src/gDP.h:29-63 | A mode is determined by its selectors up to the mode byte |
| CombineMode.Selectors | GLideN64/src/Combiner.cpp:15-71 | The input each selector names, for every table |
| CombineMode.KeyRoundTrip | GLideN64/src/CombinerKey.cpp:7-65 | Rectangle flag, cycle type and bilerp come back from the key and leave the selectors alone |
| CombineMode.KeyInjective | GLideN64/src/CombinerKey.cpp:7-65 | Different muxes or mode bits have different keys |
| CombineMode.PassThroughCycles | GLideN64/src/Combiner.cpp:275-278 | The copy and fill modes have equal cycles that just load their input |
| Combiner.SimplifiedValue | GLideN64/src/Combiner.cpp:131-189 | For every cycle and every valuation with ZERO=0 and ONE=1 the simplified program computes `(sa-sb)*m+a`, the interpolation included |
| Combiner.SimplifiedSpares | GLideN64/src/Combiner.cpp:131-189 | No op of a program is one that SimplifyCycle spares: nothing is done with zero, a loaded one is not multiplied, the same is not subtracted and added |
| Combiner.SimplifyCycle | GLideN64/src/Combiner.cpp:131-189 | The in-place simplifier builds that program, at most four ops |
| CombinerCompiler.CompiledMeaning | GLideN64/src/Combiner.cpp:191-269 | For every key: one-cycle programs compute the second cycle with COMBINED as zero, others feed the first result forward, collapsed ones compute the first cycle |
| CombinerCompiler.OneCycleReadsNoCombined | GLideN64/src/Combiner.cpp:207-236 | The result of a one-cycle program does not depend on what was combined before |
| CombinerCompiler.Compile | GLideN64/src/Combiner.cpp:191-269 | Combiner_Compile builds that program |
| CombinerCompiler.CollapseIndependent | GLideN64/src/Combiner.cpp:258-265 | Equal cycles that do not read the combined inputs, and whose other inputs have the same values in both cycles, are rightly collapsed |
| CombinerCompiler.UpdateStages | GLideN64/src/Combiner.cpp:271-283 | Programs reached through update have one or two stages, copy and fill included |
| CombinerCompiler.UpdateMeaning | GLideN64/src/Combiner.cpp:271-283 | What the program update makes current computes: in copy mode the first texel, in fill mode the shade, for any mux; else the mux's cycles |
| CombinerCompiler.CombinerInfo.SetCombine | GLideN64/src/Combiner.cpp:285-301 | The current program is always the compiled one of the requested key, and every cached one that of its key |
| CombinerCompiler.CombinerInfo.Update | GLideN64/src/Combiner.cpp:271-283 | The same for the mode update picks; one or two stages |
| Stages.ShadedIsOutput | GLideN64/src/Graphics/OpenGLContext/GLSL/glsl_CombinerProgramBuilder.cpp:99-162 | Replacing the parameters of all ops is running the unchanged program on inputs exchanged to match |
| Stages.ShadedMeaning | GLideN64/src/Graphics/OpenGLContext/GLSL/glsl_CombinerProgramBuilder.cpp:2306-2360 | What the combiner of any key's shader computes for a pixel, before wrapping and clamping, with the inputs each stage is given: the second cycle alone, both in turn, or the first only |
| Stages.FirstInputs | GLideN64/src/Graphics/OpenGLContext/GLSL/glsl_CombinerProgramBuilder.cpp:97-117 | Outside two-cycle mode a shader never reads the second texel and gets every other input unchanged |
| Stages.CollapsedShader | GLideN64/src/Combiner.cpp:258-265 | For equal cycles the collapsed shader's result, before clamping, is the cycle on the inputs of the first stage |
| Stages.UncollapsedShader | GLideN64/src/Combiner.cpp:191-269 | With both stages it is the cycle on the inputs of the second stage, texels exchanged and first results fed back |
| Collapse.CollapseSound | GLideN64/src/Combiner.cpp:258-265 | Where the condition holds both results before clamping agree for any values of the inputs, between 0 and 1 or not |
| Collapse.CollapseUnsound | GLideN64/src/Combiner.cpp:258-265 | Where it does not, a pixel with inputs between 0 and 1 is exhibited for which the results before clamping differ |
| Collapse.CollapseExactly | GLideN64/src/Combiner.cpp:258-265 | For every two-cycle key with equal cycles: dropping the second stage changes the combiner's result before wrapping and clamping for no pixel if and only if the condition holds |
| Collapse.PassThroughCollapse | GLideN64/src/Combiner.cpp:275-278 | Equal cycles that pass the first or second texel through do not meet the condition, those that pass another input through do |
| TextureCaches.AccessKeepsRecent | GLideN64/src/Textures.cpp:517-541 | A cache holding the most recent keys of a history holds those of the longer history after any access, hit or miss |
| TextureCaches.StaysListed | GLideN64/src/Textures.cpp:517-541 | A key that is not accessed again stays in the cache if and only if fewer different keys than its limit were accessed after it |
| TextureCaches.RecentExactly | GLideN64/src/Textures.cpp:517-541 | Whatever was accessed after it, a key is in the cache if and only if fewer different keys than the limit were accessed since its own latest access |
| TextureCaches.StaysUntouched | GLideN64/src/Textures.cpp:517-541 | A texture whose key is not accessed again survives if and only if the other keys accessed are fewer than the limit |
| TextureCaches.TrackedOneMore | GLideN64/src/Textures.cpp:517-541 | After any access, hit, miss or replacement, every texture an access ever gave is listed if and only if it survived all accesses after it |
| TextureCaches.TextureCache.UnitListedExactly | GLideN64/src/Textures.cpp:1426-1543 | For every limit and run: the texture a unit points to is in the list if and only if it survived the accesses after the one that gave it |
| TextureCaches.TextureCache.CheckCacheSize | GLideN64/src/Textures.cpp:517-526 | A full cache drops its last texture from list and index |
| TextureCaches.TextureCache.AddTexture | GLideN64/src/Textures.cpp:528-539 | A new key goes to the front of list and index, evicting the least recent of a full cache |
| TextureCaches.TextureCache.Take | GLideN64/src/Textures.cpp:1485-1494 | A hit moves the texture to the front and gives it to the unit; all others stay |
| TextureCaches.TextureCache.Make | GLideN64/src/Textures.cpp:1502-1542 | A miss gives the unit a new texture in front, dropping the least recent of a full cache |
| TextureCaches.TextureCache.Clear | GLideN64/src/Textures.cpp:1415-1424 | Emptying the cache leaves both units without a texture |
| TextureCaches.TextureCache.ActivateTexture | GLideN64/src/Textures.cpp:1317-1317 | A frame buffer's texture takes the unit, without touching list or index |
| TextureCaches.TextureCache.UpdateBackground | GLideN64/src/Textures.cpp:1357-1377 | Index and list keep agreeing, the list stays in order of recency within the limit, hit and miss are told apart |
| TextureCaches.TextureCache.Select | GLideN64/src/Textures.cpp:1480-1503 | The same for a tile's key; a texture of the wrong size is replaced |
| TextureCaches.TextureCache.Update | GLideN64/src/Textures.cpp:1426-1503 | The same over all texture modes; an unchanged key does not touch list or index |
| TextureCaches.PlayForeignKeys | GLideN64/src/Textures.cpp:1475-1542 | Unit 0 is given any keys but unit 1's, repeats included: unit 1's texture is in the list afterwards if and only if fewer of them differ than the limit |
| TextureCaches.DropForeignTexture | GLideN64/src/Textures.cpp:517-526 | For every limit a run in which misses of unit 0 drop the texture unit 1 still points to |
| TextureCaches.ReplaceForeignTexture | GLideN64/src/Textures.cpp:1481-1499 | For every limit a run in which unit 0 destroys unit 1's texture by an access of its key with another size, the key still being listed |
| Fnmatch.MatchesIsCut | libretro-common/compat/compat_fnmatch.c:36-125 | Matching item by item is cutting the string into parts that the items stand for |
| Fnmatch.AcceptsStep | libretro-common/compat/compat_fnmatch.c:42-124 | What a pattern starts with decides what it accepts, malformed lists and escapes included |
| Fnmatch.NothingLeft | libretro-common/compat/compat_fnmatch.c:44-46 | Rejecting at the end of the string is complete except before a star |
| Fnmatch.MatchList | libretro-common/compat/compat_fnmatch.c:79-97 | The list scan finds the closing bracket and whether the character is listed |
| Fnmatch.MatchRest | libretro-common/compat/compat_fnmatch.c:51-77 | The star case tries every suffix and accepts exactly if some suffix is accepted |
| Fnmatch.RlFnmatch | libretro-common/compat/compat_fnmatch.c:36-125 | Returns 0 if and only if the string is in the language of the pattern |
| Cdrom.MsfRoundTrip | libretro-common/cdrom/cdrom.c:72-87 | The two address conversions undo each other on proper addresses |
| Cdrom.NextIsSuccessor | libretro-common/cdrom/cdrom.c:89-97 | increment_msf adds one to the sector number if and only if seconds and minute are not at an improper or last value |
| Cdrom.NextElsewhere | libretro-common/cdrom/cdrom.c:87-97 | Where it goes when it is no successor |
| Cdrom.IncrementMsf | libretro-common/cdrom/cdrom.c:89-97 | From the address of a sector to that of the next |
| Cdrom.MsfAtLba | libretro-common/cdrom/cdrom.c:84-97 | Counting up from 00:00:00 reaches every sector's proper address |
| Cdrom.Transfer | libretro-common/cdrom/cdrom.c:480-562 | The retry loop ends with the first success, the first failure that is not retried, or when no retry is left |
| Cdrom.ReceivesAllExactly | libretro-common/cdrom/cdrom.c:412-563 | A command receives all its frames if and only if, up to the last success it needs (one fewer after a cache hit), every failure is of a retried kind and there are at most ten |
| Cdrom.SuccessWithoutFirstFrame | libretro-common/cdrom/cdrom.c:484-562 | A first frame that fails for good before a second that arrives is not reported |
| Cdrom.NoneMissing | libretro-common/cdrom/cdrom.c:412-569 | With no frame missing every delivered byte is the disc's |
| Cdrom.MissingShows | libretro-common/cdrom/cdrom.c:412-569 | With a frame missing and success reported, some disc is delivered wrongly |
| Cdrom.RightExactly | libretro-common/cdrom/cdrom.c:412-569 | A request reports success and delivers the disc's bytes, whatever the disc, if and only if the drive's attempts are of that kind |
| Cdrom.CopyFits | libretro-common/cdrom/cdrom.c:421-441 | What is copied of each frame stays inside both buffers, whatever failed before |
| Cdrom.PlanFrame | libretro-common/cdrom/cdrom.c:421-441 | Where each frame lies, how much of it is skipped and copied |
| Cdrom.Drive.FetchFrame | libretro-common/cdrom/cdrom.c:443-487 | The frame comes from the cache exactly if it is the cached sector, else from the disc; either way it is that sector |
| Cdrom.Drive.KeepFrame | libretro-common/cdrom/cdrom.c:500-511 | The cache afterwards is the sector just read, or given up after it served |
| Cdrom.Drive.ReadFrames | libretro-common/cdrom/cdrom.c:412-563 | The frame loop: which frames are received, what is delivered, coherence of the cache |
| Cdrom.Drive.SendReadCd | libretro-common/cdrom/cdrom.c:371-570 | READ CD MSF for every length, skip below a sector, cache and drive behaviour |
| Cdrom.Drive.Read | libretro-common/cdrom/cdrom.c:1194-1239 | Which frames are received follows from the attempts and the cache; if they suffice the read succeeds with exactly bytes skip..skip+len of the sectors, and a failure gives up the cache |
| Utf.PointsOfUtf16 | libretro-common/encodings/encoding_utf.c:101-125 | What is read from the UTF-16 of code points are the code points |
| Utf.Utf16OfPoints | libretro-common/encodings/encoding_utf.c:101-125 | A text without a misplaced unit is the UTF-16 of what is read |
| Utf.WellFormedExactly | libretro-common/encodings/encoding_utf.c:115-125 | Unpaired surrogates, and nothing else, make a text fail |
| Utf.ShiftedBytes | libretro-common/encodings/encoding_utf.c:92-141 | The shifts, limits and masks yield the bytes of RFC 3629 |
| Utf.CountAdds | libretro-common/encodings/encoding_utf.c:127-129 | The number of continuation bytes is the least that RFC 3629 allows |
| Utf.PutPoint | libretro-common/encodings/encoding_utf.c:127-141 | The byte loop writes them in place, or counts them without an output |
| Utf.Utf16ToUtf8 | libretro-common/encodings/encoding_utf.c:89-146 | Succeeds exactly on well-formed text; dry run and writing run report the same length; the output is the UTF-8 of the code points |
| Utf.LeadingOnes | libretro-common/encodings/encoding_utf.c:40-50 | The shifting loop counts the leading ones |
| Utf.OnesExactly | libretro-common/encodings/encoding_utf.c:40-50 | The ranges of first bytes by leading ones |
| Utf.GatherStep | libretro-common/encodings/encoding_utf.c:77-78 | The bits or-ed in lie below those gathered, so they add |
| Utf.GatherPoint | libretro-common/encodings/encoding_utf.c:74-78 | The gathering loop computes the code point of its bytes |
| Utf.ReadPoint | libretro-common/encodings/encoding_utf.c:62-80 | A code point is read exactly if the first byte starts one and enough bytes are left; it fits 32 bits |
| Utf.DecodeUtf8 | libretro-common/encodings/encoding_utf.c:55-87 | Decoding UTF-8 gives back the code points, as many as there is room for |
| Utf.StopsExactly | libretro-common/encodings/encoding_utf.c:62-73 | Reading stops exactly at a byte that starts no code point or where too few bytes are left |
| Utf.Utf8ToUtf32 | libretro-common/encodings/encoding_utf.c:55-87 | The in-place conversion writes exactly the decoded points and leaves the rest of the output alone |
| Utf.RoundTrip | libretro-common/encodings/encoding_utf.c:55-146 | UTF-16 to UTF-8 to UTF-32 returns exactly the code points |
| Crc.PolyMirrored | custom/GLideN64/CRC.cpp:4-4 | The forward polynomial mirrored is 0xEDB88320 |
| Crc.ForwardMirrored | custom/GLideN64/CRC.cpp:29-30 | A forward step is a reflected step on the mirrored word |
| Crc.EntryIsSteps | custom/GLideN64/CRC.cpp:27-33 | Reflect, eight forward steps, reflect: eight steps of the reflected register |
| Crc.Reflect | custom/GLideN64/CRC.cpp:8-21 | The loop reverses the low `ch` bits, each or-ed in below the others |
| Crc.Init | custom/GLideN64/CRC.cpp:23-34 | Every entry of the table is eight steps of the reflected bit-serial register |
| Crc.TableStep | custom/GLideN64/CRC.cpp:43-43 | A table lookup is eight bit-serial steps on any register value |
| Crc.CalculateStrict | custom/GLideN64/CRC.cpp:36-46 | The table-driven checksum is the bit-serial register over the buffer |
| Crc.CalculatePalette | custom/GLideN64/CRC.cpp:57-71 | The same over bytes 8k and 8k+1 |
| Crc.GatheredAt | custom/GLideN64/CRC.cpp:57-71 | Which bytes those are |
| CrcTable.SteppedIsStep | custom/GLideN64/CRC.cpp:29-30 | A step on the four bytes of a word is a step of the register |
| CrcTable.EntryRight | libretro-common/encodings/encoding_crc32.c:30-83 | Each entry of the literal table is eight steps of the reflected bit-serial register from its index |
| CrcTable.EncodingCrc32 | libretro-common/encodings/encoding_crc32.c:84-92 | With the literal table the loop computes the bit-serial register, complemented before and after |
| Crc.Crc32Split | libretro-common/encodings/encoding_crc32.c:84-92 | The checksum of a concatenation can be taken piece by piece |
| Crc.OnesChecksum | libretro-common/encodings/encoding_crc32.c:84-92 | Four bytes of ones have the checksum 0xFFFFFFFF, so the register is complemented with all 32 bits |
| Crc.RegisterIsNumber | custom/GLideN64/CRC.cpp:36-46 | Taking bytes in one by one is taking their number in at once |
| Crc.BurstShows | custom/GLideN64/CRC.cpp:36-46 | Buffers that differ only within four consecutive bytes have different checksums |
| Wav.CallsDoNotMatter | libretro-common/audio/audio_mixer.c:852-894 | However calls cut a looping sound up: same samples, same position, same number of repeat callbacks as one call |
| Wav.GoOn | libretro-common/audio/audio_mixer.c:858-880 | Position and callbacks compose |
| Wav.MixChunk | libretro-common/audio/audio_mixer.c:867-868 | The copying loops mix in the samples of the loop at their places |
| Wav.Voice.Mix | libretro-common/audio/audio_mixer.c:852-894 | With repeat, output j gets sample (pos+j) mod N and one callback per wrap; without, exactly min(requested, remaining) samples and the end is told |
| Base64.AlphabetOfRfc | libretro-common/encodings/encoding_base64.c:37-87 | The digits are the alphabet of RFC 4648 |
| Base64.VectorsOfRfc | libretro-common/encodings/encoding_base64.c:37-87 | The test vectors of section 10 of RFC 4648 |
| Base64.GroupsExactly | libretro-common/encodings/encoding_base64.c:45-48 | The pad formula gives what the last group lacks, for all three residues |
| Base64.EncodedLength | libretro-common/encodings/encoding_base64.c:50-51 | Four characters for every started group of three |
| Base64.DecodedLength | libretro-common/encodings/encoding_base64.c:106-111 | Three bytes for every group, less the pads |
| Base64.PadsOfEncoded | libretro-common/encodings/encoding_base64.c:70-83 | An encoding carries as many pads as its last group lacks |
| Base64.RoundTrip | libretro-common/encodings/encoding_base64.c:37-150 | Decoding what was encoded gives it back, for every byte sequence |
| Base64.ToBase64 | libretro-common/encodings/encoding_base64.c:37-87 | base64 writes exactly its computed length, the encoding of RFC 4648, and a terminator |
| Base64.FromBase64 | libretro-common/encodings/encoding_base64.c:89-150 | unbase64 fills exactly its computed length with the decoding; too short text gives nothing |

## Left out

- All OpenGL work, shader text, textures' pixels beyond TMEM, depth buffers and the copies to and from RDRAM of frame buffers.
- Per-game hacks (`hack_RE2`, `hack_Snap` and others), DMAOffsets, the YUV branches, `gDPLoadBlock32`, `gDPLoadTLUT`: further cases without a further property.
- The loadInfo and loadWidth/loadHeight bookkeeping of the loaders, which TMEM contents do not depend on.
- Colour conversion of texels and palette lookups; the readers are modelled up to the texel they pick.
- Reading through a lookup table: TMEM's upper half as palette memory is modelled in the readers' addresses only.
- `removeBuffers` and the public `setCurrent`, which may drop the current pointer without trimming.
- xxHash: texture keys are parameters.
- Shader evaluation details of the combiner (sign extension, clamping, discarding) and the stored shader cache; COMBINED_ALPHA in a first stage, which the shader reads before it is set, is taken to be any value.
- RDP command handlers: execution is recorded, not performed.
- SCSI transport and sense printing; a failing transfer is taken to leave the transfer buffer as it was.
- `utf8cpy`, `utf8skip`, `utf8len`, `utf8_walk`, the Windows code page conversions, `file_crc32`, the other audio formats.
- Memory exhaustion in base64 and in the CD transfer buffer.
- Convert.UnswapCopyWrap: for the destination mask 0xFFF only, the one the loaders pass.
- Convert.DWordInterleaveWrap: for the source mask 0x3FF only, the one the loaders pass.
- TileLoad.RowsLoadedAt: for rows that do not reach into the next one and that fit TMEM together, the loads games issue.
- TileLoad.RowsFrame: the same.
- Tile32.PtrInjective: for rows that do not reach into the next one and together fit the 1024 half-words of a bank.
- Tile32.TileHolds: the same.
- Tile32.SplitThenMerge: the same, and for a clamp width other than zero, which `Tile32.Line32IsLine` shows to be needed.
- Commands.BlockLoadsNamed: not for 32-bit tiles, and for texels inside RDRAM; Commands.LoadsNamedExactly likewise.
- BlockTile.BlockLoadedAt: for blocks of at most 512 qwords, all of TMEM.
- Gdp.Gdp.SetTileSize: the floating-point corners and the changed flag are left out.
- Gdp.Gdp.LoadTile: CheckForFrameBufferTexture is a parameter.
- Gdp.Gdp.LoadBlock: not for 32-bit and YUV tiles; what CheckForFrameBufferTexture does besides is not modelled.
- Commands.TileShowsImage: for tiles of the image's own texel size whose rows do not overlap and lie inside RDRAM.
- Commands.CornersShowImage: the same, and for rectangles of fewer than 1024 texels a side; Commands.LoadRectangle likewise.
- Commands.CornersShowImage32: for rows that do not overlap and a clamp width other than zero.
- Commands.TileShowsImage32: for rows that do not overlap and a clamp width other than zero.
- Commands.BlockCommandIsTileCommand: for whole images, that is rectangles from (0, 0) on, below the bound.
- TexelFetch.FetchLoaded: for texels loaded in whole qwords.
- TexelFetch.GetTextureDestData: without the YUV branch and before colour conversion.
- Dxt.ReverseDXT: for values the callers pass, above 1; `lrs` is never read by the code.
- TexelFetch.LoadThenFetch: for texels loaded in whole qwords and read inside TMEM without a lookup table, and for textures of at most 2^15 texels a side, the most a mask gives; TexelFetch.TextureRepeats and TexelFetch.TextureHeld likewise.
- FrameBuffers.Run: for sizes of 8, 16 and 32 bits, a width of at least 1, addresses inside RDRAM and heights of 16 bits; RDRAMSize is the last valid address.
- FrameBuffers.InvSaved: without the width that `hack_RE2` sets; FrameBufferLists.FrameBufferList.SaveBuffer likewise.
- FrameBufferLists.FrameBufferList.SetBufferChanged: the changed and copied flags, which no range depends on, are left out.
- FrameBufferLists.FrameBufferList.Prepare: the copies to RDRAM and the flags of the buffers are left out.
- FrameBufferLists.FrameBufferList.Settle: the offsets to the origin and the depth buffers are left out.
- RdpRing.RdpInfo.Load: asks that pending and new words fit the ring.
- RdpRing.RdpInfo.Spill: asks that the next command stays inside the spill area; so do ExecuteNext and ExecuteAll.
- RdpRing.RdpInfo.ProcessLists: asks the same of each call.
- RdpRing.RdpInfo.ProcessRDPList: asks that pending and new words fit the ring and that no command spills past the 32 words behind it, which the code does not check; `RdpRing.SpillFitsExactly` tells when that is so.
- TextureCaches.TextureCache.Update: the node a texture unit points to is taken to stay readable after it left the list, which `TextureCaches.DropForeignTexture` shows to happen; a change of MaxTxCacheSize between calls is not modelled.
- Fnmatch.RlFnmatch: the flags parameter, which the code ignores, is left out; strings hold no NUL.
- Cdrom.RightExactly: for a skip below one sector.
- Cdrom.Drive.Read: for a skip below one sector and sectors below 256 minutes; the end address in the command, which only the drive sees, is not checked against it.
- Utf.Utf16ToUtf8: the output is taken to be large enough, as a dry run tells.
- Utf.Utf8ToUtf32: what it makes of text that is not UTF-8, which it does not validate, is modelled, but `Utf.StopsExactly` is all that is claimed of it.
- Wav.Voice.Mix: for sounds of at least one sample; a repeated sound without any would not end.
- Base64.FromBase64: for lengths that are a multiple of four, the only ones base64 writes.
