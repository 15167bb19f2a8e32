# AArch, verified

AArch is a set of console emulators written in C. This project models its hardest
components in Dafny and proves what they are for:

- **PlayStation GPU** (`PsxRaster`, `PsxVram`, `PsxGp0`, `PsxGp0Parser`, `PsxTransfer`,
  `PsxCommands`, `PsxGpu`): the triangle rasterizer, the word-at-a-time command port and
  the VRAM transfers. `PsxGpu` is the GPU object; the other modules are its specification.
- **PlayStation geometry divider** (`PsxGteDivide`) and **DMA** (`PsxDma`).
- **Game Boy Advance**: banked registers and the emulated interrupt path (`GbaMemory`,
  `GbaCpu`, `GbaIrq`), block transfers (`GbaBlock`), the object with all of them
  (`GbaCore`), the sound FIFOs and their refill (`GbaSound`, `GbaSoundUnit`), the
  square-root service (`GbaSqrt`).
- **Timers** of the DS and the Game Boy Advance (`Timers`, `TimerUnits`).
- **CRC-32** (`WordBits`, `Crc32`) and **save states** (`StateIo`, `NesState`, `NesBlob`,
  `NesCore`).
- **Packed decimal** on the 68000 and the SM83 (`Bcd`, `BcdCores`).
- **NES frame timing** and scroll address (`NesTiming`, `NesScroll`, `NesPpu`).

Objects that the program updates in place are classes whose methods state their whole
new value as a specification function of the old one; what the component promises is
then proved of those functions, over every input and every run. Beside the laws between
functions stand theorems that name the bits, cells and bytes alone (`PsxRaster.DrawingMeans`,
`PsxCommands`, `PsxDma.PacketSent`, `GbaIrq.HandlerEntered`, `GbaBlock.StorePlaces`,
`Timers.FeedInNumbers`, `NesBlob.SavedBytes`, `NesPpu.PictureLines`), so that a specification
function cannot go wrong together with its method. Machine words are
integers with explicit bounds and explicit wrap-around (`Words`), except in `Crc32`,
which uses 32-bit vectors.

## What the code does that a reader may not expect

Each of these is modelled as the code has it, and stated exactly where a law depends on it.

- A poly-line command is executed with its opcode byte where the command word belongs
  (`src/beatle-psx/gpu.c` lines 770-780), so the single-colour branch is always taken, the
  semi-transparency bit is lost and the first vertex is dropped. A poly-line that fills
  the buffer without a terminator also loses its 63rd word.
- Opcodes such as 21h, 29h, 31h and 41h count no parameter words, yet are rendered: the C
  code then reads vertices from beyond the one zero word it passes. The model renders them
  with no parameters.
- E1h to E6h take their setting from a second word instead of the command word.
- The divider is not the rounded quotient its comment names but within -3 to +2 of it;
  both ends are reached (`PsxGteDivide.ErrorRangeIsTight`).
- An ordering table has all its entries exactly if there is room for them above address
  zero (`PsxDma.TableIsList`); otherwise the walk stops where the links wrap. At a base off
  the word grid the walk reads headers that straddle two entries
  (`PsxDma.UnalignedTableSends`), and a store that straddles the end of RAM writes past the
  array; the model loses those bytes.
- Interrupt entry ORs the IRQ mode number into CPSR instead of replacing the mode field
  (`GbaIrq.HandlerModeField` says when the two differ). Transparency holds all the same.
- r8-r12 have no save slot outside FIQ mode (`GbaCpu.SwitchAndBack` says exactly when they
  survive).
- Popping an empty sound FIFO asks for no refill, so it stays silent until the CPU writes
  to it (`GbaSound.EmptyStaysSilent`).
- The DS timers can be left with a counter below a newly written reload value. The
  unsigned difference then wraps and the next count overflows at once
  (`Timers.HeadDiverges`, `Timers.LateReloadOverflows`). Splitting a batch is safe even
  then (`Timers.FeedSplit`); only the agreement with ticks is lost
  (`Timers.BatchIsTicksIff`). A timer's overflows are also fed to an enabled next timer
  that does not cascade.
- The DS divides cycles by the prescaler before it feeds them to a batch that divides
  again (`src/mds-a/ds.c` lines 574-592). It counts right exactly at prescaler 1
  (`Timers.SharesAsBatchIff`); at any other, steps shorter than the prescaler are never
  counted at all (`Timers.ShortStepsCountNothing`).
- A Game Boy Advance overflow steps the next channel if its cascade bit is set, enabled or
  not, and goes no further down the chain.
- A save state that ends early is rejected only after the machine has been overwritten
  (`NesCore.Core.LoadState`).
- The decoder never selects the memory form of ABCD and SBCD; it is proved here as
  `op_bcd` computes it, beside the register form that programs can reach.
- A save state can put the NES picture counters outside the frame and more than one bit
  into its frame parity. The counters find back by themselves (`NesTiming.Enters`); the
  parity then never becomes zero, so every rendered frame is a dot short
  (`NesTiming.LongRun`).
- On the pre-render line the NES clears its vertical-blank flag only while rendering is on.

## Model

| member | source | states |
|---|---|---|
| PsxRaster.EdgesSumToArea | src/beatle-psx/gpu.c:316-318 | the three edge values at any point add up to the signed area |
| PsxRaster.Barycentric | src/beatle-psx/gpu.c:316-318 | the area times a point is the edge-weighted sum of the vertices |
| PsxRaster.WeightsPartition | src/beatle-psx/gpu.c:316-326 | at a covered point the sign-adjusted weights are nonnegative and add up to the absolute area |
| PsxRaster.CoveredInBox | src/beatle-psx/gpu.c:292-321 | every covered point lies in the bounding box, so clipping the loop to it misses nothing |
| PsxRaster.InterpolationBounded | src/beatle-psx/gpu.c:323-335 | every interpolated channel lies between the least and the greatest vertex value |
| PsxRaster.InterpolationExactOnPlanes | src/beatle-psx/gpu.c:323-335 | a channel that varies linearly over the plane is reproduced exactly at every covered point |
| PsxRaster.InterpolationConstant | src/beatle-psx/gpu.c:323-335 | equal vertex values are reproduced everywhere |
| PsxRaster.InterpolationExactAtVertices | src/beatle-psx/gpu.c:323-335 | at each vertex the channel has that vertex's value |
| PsxRaster.WindingIrrelevant | src/beatle-psx/gpu.c:284-338 | swapping two vertices changes neither coverage nor any plotted value |
| PsxRaster.RotationIrrelevant | src/beatle-psx/gpu.c:284-338 | rotating the vertices changes neither coverage nor any plotted value |
| PsxRaster.RowMajorUnique | src/beatle-psx/gpu.c:314-338 | row by row there is only one sequence of pixels that draws a given triangle |
| PsxRaster.DrawingIgnoresVertexOrder | src/beatle-psx/gpu.c:284-338 | two drawings of one triangle with its vertices in any order are the same pixels in the same order |
| PsxRaster.QuadOverlap | src/beatle-psx/gpu.c:468-478 | the two triangles of a quadrilateral whose second and fourth vertex lie on opposite sides of v1-v3 both cover a point if and only if it is a covered point of that diagonal |
| PsxRaster.QuadDrawing | src/beatle-psx/gpu.c:468-478 | drawn one after the other they plot each covered point of the drawing area once, and the points of the diagonal twice |
| PsxRaster.CoveredIsHull | src/beatle-psx/gpu.c:316-321 | the inclusive edge test finds exactly the points that are a mean of the three vertices |
| PsxRaster.InterpolationIsMean | src/beatle-psx/gpu.c:323-335 | an interpolated channel is the edge-weighted mean of its vertex values, rounded down |
| PsxRaster.DrawingMeans | src/beatle-psx/gpu.c:284-338 | everything a triangle draws: the points of its hull in the drawing area, once each, and red, green, blue, u and v of each the mean of the same channel at the vertices, rounded down; untextured u and v are zero |
| PsxRaster.MakeVertexFields | src/beatle-psx/gpu.c:348-360 | which bits of a command's words become which coordinate, colour and texture coordinate of a vertex |
| PsxRaster.MakeVertexInRange | src/beatle-psx/gpu.c:348-360 | vertices made by commands stay within the 16-bit range the other bounds need |
| PsxRaster.EdgeFitsInt64 | src/beatle-psx/gpu.c:316-335 | the area, the weights and the three-term sums that are divided fit 64 bits, for vertices made by commands |
| PsxRaster.ShadeIsBytes | src/beatle-psx/gpu.c:328-336 | what is plotted for such vertices are byte values |
| PsxRaster.Plot | src/beatle-psx/gpu.c:323-336 | the sign-adjusted truncating divisions give the pixel that `PsxRaster.DrawingMeans` describes |
| PsxRaster.DrawTri | src/beatle-psx/gpu.c:284-338 | plots the drawing of the triangle in scan order, which `PsxRaster.RowMajorUnique` says is one sequence and `PsxRaster.DrawingMeans` says point by point and channel by channel |
| PsxRaster.DrawRow | src/beatle-psx/gpu.c:315-337 | one line of the box adds exactly its covered points, each with its own channels |
| PsxVram.UploadExtends | src/beatle-psx/gpu.c:726-742 | storing one more halfword at its row and column extends the uploaded rectangle by one, across row ends and both wrap-arounds |
| PsxVram.UploadReadsBack | src/beatle-psx/gpu.c:657-666 | each cell of an uploaded rectangle holds its own halfword, masked |
| PsxVram.CopyThroughBuffer | src/beatle-psx/gpu.c:634-656 | reading a rectangle into a buffer and storing the buffer is a simultaneous assignment, whatever the overlap or wrap-around |
| PsxGp0.WriteGp0KeepsValid | src/beatle-psx/gpu.c:723-817 | no word makes the command buffer overrun: while collecting, the next index stays below 64 |
| PsxGp0.RunAppend | src/beatle-psx/gpu.c:723-817 | feeding a stream in two parts is feeding it whole |
| PsxGp0Parser.FixedCommand | src/beatle-psx/gpu.c:682-715 | a command with a parameter count executes on its last parameter, not before |
| PsxGp0Parser.PolylineCommand | src/beatle-psx/gpu.c:766-783 | a poly-line executes at its terminator or its 63rd word |
| PsxGp0Parser.UploadCommand | src/beatle-psx/gpu.c:726-804 | an upload's words are stored, two halfwords each, and after ceil(w*h/2) of them the port is idle with exactly w*h stored |
| PsxGp0Parser.PortRefinesParser | src/beatle-psx/gpu.c:682-817 | for every word stream the port ends where executing the parser's commands and then starting on the unfinished rest ends |
| PsxCommands.ParamFormula | src/beatle-psx/gpu.c:682-715 | the words a command needs, from the bits of its opcode: vertices, colours, texture and size |
| PsxCommands.CopyEffect | src/beatle-psx/gpu.c:634-656 | 80h through the port: each cell of the destination, the second rectangle, takes the cell in the same place of the source, the first, as it was before, masked; no other cell and nothing else changes |
| PsxCommands.FillEffect | src/beatle-psx/gpu.c:596-606 | 02h through the port: the rectangle in steps of sixteen columns takes the command word's colour, five bits a channel, whatever the mask; nothing else changes |
| PsxCommands.UploadFills | src/beatle-psx/gpu.c:726-804 | A0h through the port: pixel r*w+c of the payload, low half first, lands in column c of row r, masked; nothing else changes |
| PsxCommands.ReadReturns | src/beatle-psx/gpu.c:657-666 | C0h through the port and its reads: the pixels row by row, low half first, a zero in a half left over; nothing but the read-out changes |
| PsxCommands.RenderEffect | src/beatle-psx/gpu.c:682-715 | a rendering command reaches the renderer with its words in order |
| PsxCommands.PolylineEffect | src/beatle-psx/gpu.c:766-783 | a terminated poly-line reaches it without its terminator and with the opcode for its command word |
| PsxCommands.SettingEffect | src/beatle-psx/gpu.c:611-632 | E1h to E6h: which bits of the second word end in which register, and no other register changes |
| PsxCommands.OtherEffect | src/beatle-psx/gpu.c:607-680 | 1Fh raises bit 24 of the status word; any other opcode does nothing |
| PsxTransfer.ReadBack | src/beatle-psx/gpu.c:886-911 | a read-back returns the rectangle in order in exactly ceil(w*h/2) words and changes nothing else |
| PsxTransfer.UploadEffect | src/beatle-psx/gpu.c:726-804 | an upload sets each cell of its rectangle to its own masked halfword and no other cell |
| PsxTransfer.UploadReadBack | src/beatle-psx/gpu.c:886-911 | what was uploaded is read back in order with bit 15 replaced by the mask bit (protected cells as they were), for every size and origin |
| PsxGpu.PsxGpu.VramPutMasked | src/beatle-psx/gpu.c:80-91 | the masked store on the memory itself |
| PsxGpu.PsxGpu.FillLoop | src/beatle-psx/gpu.c:595-606 | the fill's loops set exactly the wrapped rectangle |
| PsxGpu.PsxGpu.CopyLoop | src/beatle-psx/gpu.c:634-656 | the two copy loops are the simultaneous assignment |
| PsxGpu.PsxGpu.StoreRect | src/beatle-psx/gpu.c:651-654 | storing a buffer row by row is the upload of its contents |
| PsxGpu.PsxGpu.ReadRect | src/beatle-psx/gpu.c:646-650 | reading row by row gives the rectangle's pixels |
| PsxGpu.PsxGpu.ExecGp0 | src/beatle-psx/gpu.c:583-680 | each command on the object's own memory and registers does what the `PsxCommands` theorems say of the port |
| PsxGpu.PsxGpu.StreamData | src/beatle-psx/gpu.c:726-742 | one upload word stores at most two halfwords at their places and ends the upload with the last |
| PsxGpu.PsxGpu.EndPolyline | src/beatle-psx/gpu.c:768-783 | the count handed on when a poly-line ends |
| PsxGpu.PsxGpu.WriteGp0 | src/beatle-psx/gpu.c:723-817 | the port on the object's own fields is the port of the framing theorem |
| PsxGpu.PsxGpu.ReadGpu | src/beatle-psx/gpu.c:886-911 | a read packs the next two halfwords and advances across row ends |
| PsxGpu.PsxGpu.WriteAll | src/beatle-psx/gpu.c:723-817 | any stream through the object is the run of the framing theorem |
| PsxGpu.PsxGpu.ResetCommandBuffer | src/beatle-psx/gpu.c:827-832 | GP1(01h) drops a half-collected command or upload and nothing else |
| PsxGteDivide.NewtonStep | src/beatle-psx/gte.c:267-286 | the refinement squares the seed's relative error, up to rounding |
| PsxGteDivide.ReciprocalAccurate | src/beatle-psx/gte.c:65-83 | for all 32768 normalised divisors the table seed makes the refined reciprocal accurate enough |
| PsxGteDivide.QuotientError | src/beatle-psx/gte.c:267-286 | the scaled result is within -3 to +2 of the rounded quotient for every H below 2*SZ3 |
| PsxGteDivide.WordRange | src/beatle-psx/gte.c:267-286 | the subtraction never goes below zero and the products fit 32 bits |
| PsxGteDivide.ErrorRangeIsTight | src/beatle-psx/gte.c:267-286 | inputs that reach -3 and +2 |
| PsxGteDivide.TableIsFormula | src/beatle-psx/gte.c:65-83 | all 257 entries of the seed table are the reciprocal rounded to nine bits |
| PsxGteDivide.ExactQuotient | src/beatle-psx/gte.c:274-282 | the exact result of the divider in plain arithmetic, without the table |
| PsxGteDivide.Gte.Normalise | src/beatle-psx/gte.c:269-273 | the shift loop ends with bit 15 set |
| PsxGteDivide.Gte.Finish | src/beatle-psx/gte.c:274-282 | seed, refinement, scaling and saturation give the table-free result of `PsxGteDivide.ExactQuotient`, table access in range |
| PsxGteDivide.Gte.Divide | src/beatle-psx/gte.c:267-286 | the exact table-free result, at most 1FFFFh and within -3 to +2 of the rounded quotient, flags kept; on overflow saturates and sets bits 17 and 31 |
| PsxDma.WalkSendsPayloads | src/beatle-psx/hw.c:73-92 | a walk of any list sends the nodes' payloads in chain order, up to the guard's 65536 nodes |
| PsxDma.PacketSent | src/beatle-psx/hw.c:73-92 | one packet in terms of the memory words: the header's top byte counts the words after it, they are sent lowest address first, and the walk goes on at the header's low 24 bits; RAM repeats every 2 MiB |
| PsxDma.WalkStops | src/beatle-psx/hw.c:75-90 | a link with bit 23 set, or a used-up guard, ends the walk |
| PsxDma.ListHasNoCycle | src/beatle-psx/hw.c:73-92 | a chain that ends visits no node twice |
| PsxDma.BuiltTable | src/beatle-psx/hw.c:61-71 | the memory after the build holds the whole table |
| PsxDma.TableIsList | src/beatle-psx/hw.c:61-92 | a built table on the word grid is a list of empty nodes, and its walk sends nothing; it has all its entries if and only if there is room for them above address zero; from 800000h up the walk does not start |
| PsxDma.UnalignedTableSends | src/beatle-psx/hw.c:61-92 | off the word grid the walk's first header straddles two entries: it sends as many words as a byte of the first entry's link says, and never none for a single entry or three bytes past a word |
| PsxDma.BuiltAligned | src/beatle-psx/hw.c:61-71 | on the word grid the stores give exactly the table and leave all other words |
| PsxDma.TableInMemory | src/beatle-psx/hw.c:61-71 | every word of RAM after a build on the word grid: the links downwards, FFFFFFh at the end, all other words as before |
| PsxDma.PutWordBytes | src/beatle-psx/psx.c:93-99 | a store at any byte changes exactly the bytes from there up, low byte first, as far as RAM goes |
| PsxDma.ListReachesGpu | src/beatle-psx/hw.c:73-92 | the GPU ends where the commands parsed from the concatenated payloads lead, however they straddle nodes |
| PsxDma.Dma.BuildTable | src/beatle-psx/hw.c:61-71 | the loop's stores at any base, aligned or not; a zero count means 65536 |
| PsxDma.Dma.RamWrite32 | src/beatle-psx/psx.c:93-99 | a store at any byte replaces the bytes of one or two words |
| PsxDma.Dma.SendNode | src/beatle-psx/hw.c:78-86 | one node's words, as `PsxDma.PacketSent` has them, and its link |
| PsxDma.Dma.WalkList | src/beatle-psx/hw.c:73-92 | the loop sends exactly the walk's words and leaves memory alone |
| GbaMemory.WordRoundTrip | src/mgbax/mem.c:45-110 | a word stored to work RAM reads back, in any mirror |
| GbaMemory.WordFrame | src/mgbax/mem.c:45-110 | two different words of one block do not disturb each other, even across mirror and address wrap-around |
| GbaMemory.RamBytes | src/mgbax/mem.c:45-110 | a work RAM word is its four bytes, low byte first, in the mirrored 256 KiB or 32 KiB block |
| GbaCpu.SetModeSelectsBank | src/mgbax/cpu.c:41-59 | a switch only selects another bank of the flat file; what happens to r0-r12, r15 and CPSR |
| GbaCpu.BankingRefinesFlatFile | src/mgbax/cpu.c:29-69 | over every sequence of switches and register and SPSR writes the banked core and the flat file agree |
| GbaCpu.SwitchAndBack | src/mgbax/cpu.c:41-59 | away and back restores every bank, and r8-r12 exactly when FIQ's copies were not brought in from outside |
| GbaCpu.ExceptionFlat | src/mgbax/cpu.c:71-84 | an exception writes the link register and, if asked, the SPSR of the bank it enters and no other |
| GbaCpu.ExceptionEntered | src/mgbax/cpu.c:71-84 | at the vector: PC, return address, I set, T clear, the mode, every other status bit and r0-r7 as before, the SPSR if asked |
| GbaCpu.BanksApart | src/mgbax/cpu.c:29-40 | FIQ, IRQ, supervisor, abort and undefined mode have registers of their own, all other modes share one set |
| GbaIrq.FrameStored | src/mgbax/swi.c:39-82 | all six pushed words are in memory afterwards, each at its own address |
| GbaIrq.HandlerEntered | src/mgbax/swi.c:39-82 | the PC is the handler pointer without its bit 0, the link register zero, the IRQ stack six words lower, r0-r12 kept, IRQ mode, the old status in the SPSR; without a pointer nothing happens |
| GbaIrq.EntryStatus | src/mgbax/swi.c:53-80 | every bit of the handler's status register: I set, T the pointer's bit 0, bits 4 and 1 set, all others as before |
| GbaIrq.FramePushed | src/mgbax/swi.c:55-75 | r0-r3, r12 and the next instruction's address plus four stand on the IRQ stack in rising order |
| GbaIrq.EntryKeeps | src/mgbax/swi.c:39-82 | entry keeps r0-r12 and every bank but IRQ's |
| GbaIrq.ReturnRestores | src/mgbax/swi.c:84-100 | the return pops the frame and makes the interrupted bank visible |
| GbaIrq.InterruptTransparent | src/mgbax/swi.c:39-100 | entry, any handler that keeps its conventions and return leave r0-r15, CPSR, mode, SPSR view and the IRQ stack pointer as they were |
| GbaIrq.HandlerModeField | src/mgbax/swi.c:39-82 | the mode field agrees with the mode during the handler if and only if the interrupted mode's number is within IRQ's |
| GbaBlock.StoreReadsBack | src/mgbax/cpu.c:545-590 | after a block store every listed register's value is at its own place |
| GbaBlock.OppositeBlock | src/common/arm.c:291-351 | the opposite direction covers the same words and ends at the old base |
| GbaBlock.LoadUndoesStore | src/mgbax/cpu.c:545-590 | a store with write-back then the opposite load with write-back restores the listed registers and the base, in all four pairs of modes |
| GbaBlock.StorePlaces | src/mgbax/cpu.c:545-590 | the address of each stored register in IA, IB, DA and DB, by how many are listed below it; the PC four ahead; write-back by the number listed |
| GbaBlock.LoadPlaces | src/mgbax/cpu.c:545-590 | the address each register is loaded from, the PC rounded down, unlisted registers kept, and when the base is written back |
| GbaCore.Core.SetMode | src/mgbax/cpu.c:41-59 | the switch on the core's own arrays |
| GbaCore.Core.Exception | src/mgbax/cpu.c:71-84 | exception entry on the core's own arrays |
| GbaCore.Core.IrqDispatch | src/mgbax/swi.c:39-82 | interrupt entry on the core's own arrays and memory |
| GbaCore.Core.IrqReturn | src/mgbax/swi.c:84-100 | interrupt return on the core's own arrays |
| GbaCore.Core.BlockStore | src/mgbax/cpu.c:545-590 | the sixteen-step store loop and its write-back |
| GbaCore.Core.BlockLoad | src/mgbax/cpu.c:545-590 | the sixteen-step load loop, PC and write-back |
| GbaSound.RefillInOrder | src/mgbax/dma.c:105-130 | with room for them, source words arrive whole and in order and the channel moves on by as many |
| GbaSound.RequestInOrder | src/mgbax/dma.c:105-130 | a request at or below the level appends exactly sixteen source bytes and changes only its channel and queue |
| GbaSound.SourceByteIs | src/mgbax/dma.c:105-130 | byte i of a source is byte i % 4, low byte first, of its word i / 4 |
| GbaSound.ServerIs | src/mgbax/dma.c:105-118 | which channel serves which FIFO, by the bits of its control word |
| GbaSound.PopOnQueue | src/mgbax/apu.c:84-99 | a timer overflow on the queue: the oldest byte is played, sixteen are added when at most sixteen are left and a channel serves; empty, silence and no refill |
| GbaSound.StoreOnQueue | src/mgbax/apu.c:52-81 | a store on the queue: bytes are taken while there are fewer than 32, then the refill |
| GbaSound.EventConserves | src/mgbax/apu.c:52-99 | one event: queued plus accepted is played plus still queued |
| GbaSound.StreamConserved | src/mgbax/apu.c:52-99 | the same over every run of stores and timer overflows, in order |
| GbaSound.RefillKeepsStream | src/mgbax/dma.c:105-130 | a refill does not change the stream still to be played |
| GbaSound.PopPlaysStream | src/mgbax/apu.c:84-99 | a pop from a dedicated nonempty FIFO plays the next stream byte and leaves at least sixteen queued |
| GbaSound.OtherPopKeepsStream | src/mgbax/apu.c:84-99 | the other FIFO's pops leave it alone |
| GbaSound.PlaybackInOrder | src/mgbax/apu.c:84-99 | any number of overflows plays queue then source without loss, repeat or silence |
| GbaSound.EmptyStaysSilent | src/mgbax/apu.c:84-99 | an empty FIFO stays silent whatever its channel |
| GbaSoundUnit.FifoBuffer.Append | src/mgbax/apu.c:52-59 | the append loop, dropping what does not fit |
| GbaSoundUnit.FifoBuffer.TakeHead | src/mgbax/apu.c:91-96 | the head leaves and the rest moves down in order |
| GbaSoundUnit.SoundUnit.Request | src/mgbax/dma.c:105-130 | the first live channel of the FIFO's two serves it |
| GbaSoundUnit.SoundUnit.CpuWrite | src/mgbax/apu.c:77-81 | a store and the level check after it |
| GbaSoundUnit.SoundUnit.FifoPop | src/mgbax/apu.c:84-99 | a timer overflow's pop on the unit's own fields |
| GbaSqrt.Digit | src/mgbax/swi.c:153-169 | one loop step fixes one more binary digit of the root |
| GbaSqrt.TrialFits | src/mgbax/swi.c:153-169 | the trial subtrahend never leaves 32 bits |
| GbaSqrt.Sqrt | src/mgbax/swi.c:153-169 | returns the only integer square root of every 32-bit number |
| GbaSqrt.RootUnique | src/mgbax/swi.c:153-169 | a number has one integer square root |
| Timers.FeedHead | src/mds-a/ds.c:536-572 | a batch is the head timer's share with its overflows passed on, in any state |
| Timers.CyclesPerCount | src/mds-a/ds.c:534-558 | 1, 64, 256 or 1024 cycles move a counter by one, by the control word's low bits |
| Timers.FeedInNumbers | src/mds-a/ds.c:536-572 | a batch on the head's registers: counts, remaining cycles, where the counter ends, how often it passed FFFFh, and that each pass is a count of the next timer |
| Timers.IrqsInNumbers | src/mds-a/ds.c:548-568 | the interrupts are those of the overflowed timers with bit 6 set |
| Timers.SharesAsBatchIff | src/mds-a/ds.c:574-592 | cycles are divided by the prescaler before the batch divides them again: they are counted as a batch of them, whatever their number, if and only if the prescaler is 1 |
| Timers.ShareDiffers | src/mds-a/ds.c:574-592 | at any other prescaler one period of cycles moves the accumulator by one and not the counter |
| Timers.ShortStepsCountNothing | src/mds-a/ds.c:574-592 | over any run of steps shorter than the prescaler the counter never moves |
| Timers.HeadSplit | src/mds-a/ds.c:536-572 | a timer's share of a batch can be taken in two parts, in any state, a wrapped counter difference included |
| Timers.FeedKeepsStep | src/mds-a/ds.c:536-572 | feeding keeps a chain in step: counters at or above reload, accumulators below the prescaler |
| Timers.FeedKeepsSettings | src/mds-a/ds.c:536-572 | feeding touches neither controls nor reloads, and reports overflows of the chain only |
| Timers.FeedSplit | src/mds-a/ds.c:536-572 | feeding a then b is feeding a + b, timers and overflows, through any chain and in every state |
| Timers.FeedOne | src/mds-a/ds.c:536-572 | in step, a batch of one is a tick |
| Timers.BatchIsTicks | src/mds-a/ds.c:536-572 | in step, a batch of n is n ticks, for a chain of any length |
| Timers.WritesKeepStep | src/mds-a/ds.c:389-400 | control writes leave a timer in step; a reload write exactly when it is not above the counter |
| Timers.BatchIsTicksIff | src/mds-a/ds.c:536-572 | all batches agree with as many ticks if and only if no timer of the leading run of enabled timers is below its reload |
| Timers.OneTimerIff | src/mds-a/ds.c:536-572 | the same for a timer alone |
| Timers.TicksHead | src/mds-a/ds.c:536-572 | ticks of a chain are the head's share, and as many ticks of the rest as it overflows |
| Timers.HeadDiverges | src/mds-a/ds.c:536-572 | a timer below its reload reports an overflow on its next count that ticks do not |
| Timers.OverflowsReachable | src/mds-a/ds.c:536-572 | a timer in step can be brought to overflow any number of times exactly |
| Timers.LateReloadOverflows | src/mds-a/ds.c:536-572 | the smallest case that does not |
| Timers.PeriodIsCount | src/mgbax/timer.c:19-37 | one counted period with its single cascade is a prescaler's worth of the batch |
| Timers.PendingStep | src/mgbax/timer.c:52-60 | counting one period off leaves the same work pending |
| Timers.StepIsFeed | src/mgbax/timer.c:39-62 | a channel's step is the batch on the one or two timers it can reach; a prescaler sum that wraps loses exactly 2^32 cycles; other channels stay |
| Timers.ChannelInNumbers | src/mgbax/timer.c:39-62 | one step of a channel on the registers: counts, remainder, reloads, and the next channel's counts if its bit 2 is set |
| TimerUnits.DsTimers.TimerFeed | src/mds-a/ds.c:536-572 | the recursive batch on the four timers themselves, with its interrupts |
| TimerUnits.DsTimers.TickTimers | src/mds-a/ds.c:574-592 | all four timers in turn, each with what its first division leaves, overflows and interrupts collected |
| TimerUnits.GbaTimers.TimerOverflow | src/mgbax/timer.c:19-37 | reload, notification, cascade and interrupts of one overflow |
| TimerUnits.GbaTimers.StepChannelBy | src/mgbax/timer.c:41-61 | the period-at-a-time loop computes the batch |
| TimerUnits.GbaTimers.Step | src/mgbax/timer.c:39-62 | all four channels in turn, overflows and interrupts collected |
| TimerUnits.GbaTimers.Write | src/mgbax/timer.c:72-86 | a reload write sets reload and counter; a control write reloads and clears the prescaler only when bit 7 rises; counters stay at or above reload and other channels as they were |
| Crc32.StepLinear | src/common/util.c:73 | the branch-free step is linear |
| Crc32.StepInverse | src/common/util.c:73 | and a bijection, with its inverse |
| Crc32.FoldIsSerial | src/common/util.c:65-78 | word-at-a-time register contents are those of the bit-serial register over the message in transmission order |
| Crc32.ByteOfWord | src/common/util.c:70-75 | taking a byte leaves the bytes above it mixed in |
| Crc32.EmuCrc32 | src/common/util.c:65-78 | the nested loops compute the checksum |
| Crc32.CheckValue | src/common/util.c:65-78 | the text 12345678 has the checksum 9AE0DAAFh, and no text zero |
| Crc32.CrcAffine | src/common/util.c:65-78 | the checksums of three messages of one length combine as the messages do |
| Crc32.ResidueIff | src/common/util.c:65-78 | an appended word gives the fixed residue if and only if it is the checksum |
| Crc32.BurstDetected | src/common/util.c:65-78 | messages of one length that differ only within 32 consecutive bits never share a checksum |
| Crc32.OneWordDetected | src/common/util.c:65-78 | no change of one word goes unnoticed |
| StateIo.FromLeOfLe | src/common/util.c:93-109 | a number written in little-endian bytes reads back modulo its width |
| StateIo.LePlaces | src/common/util.c:93-109 | byte i of a written number is its digit of weight 256^i |
| StateIo.ReadsBack | src/common/util.c:82-211 | reading a written blob of the same shape, whatever follows it, yields what was written |
| StateIo.ParsedUnique | src/common/util.c:146-211 | a blob leaves no choice about what is read from it |
| StateIo.ParsedIsBlob | src/common/util.c:146-211 | what is read from a blob that is long enough encodes to that blob again |
| StateIo.Writer.PutU8 | src/common/util.c:82-91 | a byte is kept if it fits and flagged if not; without a buffer it is only counted |
| StateIo.Writer.PutU64 | src/common/util.c:105-109 | eight bytes, low first |
| StateIo.Writer.Block | src/common/util.c:131-142 | a block is written whole or not at all |
| StateIo.Reader.GetU8 | src/common/util.c:146-152 | past the end a byte is zero and the reader stays bad |
| StateIo.Reader.GetU64 | src/common/util.c:168-173 | eight bytes, low first, zeroes past the end |
| StateIo.Reader.Block | src/common/util.c:195-211 | a block that runs past the end is filled up with zeroes |
| NesState.NesLogged | src/beatle-nes-redux/nes.c:137-220 | the blob's length depends only on the cartridge's work RAM, starts with the header and keeps all but what is narrowed |
| NesState.RestoredUnique | src/beatle-nes-redux/nes.c:222-306 | a blob determines the restored state |
| NesState.LoadUndoesSave | src/beatle-nes-redux/nes.c:137-306 | loading a saved blob, whatever follows it, restores every field |
| NesState.RoundTripIff | src/beatle-nes-redux/nes.c:137-306 | exactly: if and only if the buttons fit a byte, as the input callback ensures, and the audio position lies in its buffer |
| NesState.ResaveIff | src/beatle-nes-redux/nes.c:137-306 | saving what was loaded gives the blob back if and only if its fixed words are those a save writes and its audio position was kept |
| NesState.SavedAccepted | src/beatle-nes-redux/nes.c:334-353 | saved blobs are accepted with any tail, and every strict prefix is rejected |
| NesState.VerdictByBytes | src/beatle-nes-redux/nes.c:334-353 | the twelve bytes every save begins with, and the verdict on any blob by those bytes and its length |
| NesBlob.SavedBytes | src/beatle-nes-redux/nes.c:137-220 | every byte of a save, field after field, low byte first |
| NesCore.Core.Serialize | src/beatle-nes-redux/nes.c:137-220 | every field in order, the machine unchanged |
| NesCore.Core.Size | src/beatle-nes-redux/nes.c:308-314 | the count-only pass gives the exact length of a save |
| NesCore.Core.SaveState | src/beatle-nes-redux/nes.c:316-332 | refused with the buffer untouched, or the whole blob at its start and nothing beyond |
| NesCore.Core.Deserialize | src/beatle-nes-redux/nes.c:222-306 | the state read has exactly the fields the reader took, the audio position checked |
| NesCore.Core.LoadState | src/beatle-nes-redux/nes.c:334-353 | the verdict by length and header; what the machine holds after each |
| Bcd.AbcdDecimal | src/finalburn/m68k.c:1201-1209 | on decimal bytes the sum is the decimal sum with its carry |
| Bcd.SbcdDecimal | src/finalburn/m68k.c:1210-1221 | on decimal bytes the difference is the decimal difference with its borrow |
| Bcd.AddThenDaaNibbles | src/mgbx/cpu.c:73-85 | the nibbles after a binary sum and its correction, for all bytes |
| Bcd.SubThenDaaNibbles | src/mgbx/cpu.c:87-101 | the nibbles after a binary difference and its correction, for all bytes |
| Bcd.AddFlags | src/mgbx/cpu.c:73-85 | the byte and C are the nine-bit sum, Z a zero byte, H the carry out of the low nibble |
| Bcd.SubFlags | src/mgbx/cpu.c:87-101 | the byte and C are the difference, Z a zero byte, H the borrow into the low nibble |
| Bcd.DaaFlags | src/mgbx/cpu.c:166-193 | how far a correction moves the byte, and all four flags after it |
| Bcd.CoresAddAlike | src/mgbx/cpu.c:166-193 | the two processors add alike if and only if the low digits stay below 26 |
| Bcd.CoresSubtractAlike | src/mgbx/cpu.c:166-193 | the two processors subtract alike if and only if the low digits need no second borrow |
| Bcd.ChainDecimal | src/finalburn/m68k.c:1182-1233 | n bytes: the decimal sum or difference modulo 100^n, and exactly when a carry or borrow comes out |
| Bcd.ChainUndone | src/finalburn/m68k.c:1182-1233 | subtracting undoes adding and adding undoes subtracting, carry included |
| Bcd.ChainsAlike | src/mgbx/cpu.c:166-193 | the two processors' chains agree on decimal numbers |
| BcdCores.M68k.OpBcd | src/finalburn/m68k.c:1182-1233 | both forms on the processor's own registers, memory and flags |
| BcdCores.M68k.Digits | src/finalburn/m68k.c:1200-1221 | the nibble-wise computation |
| BcdCores.RegisterFormFields | src/finalburn/m68k.c:1182-1233 | the register form field by field: low byte, X, C, Z only ever cleared, all else kept |
| BcdCores.MemoryFormFields | src/finalburn/m68k.c:1186-1192 | the memory form field by field: which byte is source and which destination, also for one register twice |
| BcdCores.FieldArithmetic | src/finalburn/m68k.c:1182-1233 | n memory forms leave the decimal sum or difference modulo 100^n and its carry, and the addresses n lower |
| BcdCores.MemoryChain | src/finalburn/m68k.c:1182-1233 | n memory forms over two separate fields, which `op_bcd` computes but the decoder never selects, compute the chain in place; Z says whether the whole result is zero; no other byte changes |
| BcdCores.RegisterChain | src/finalburn/m68k.c:1182-1233 | register forms over bytes in separate data registers compute the chain: results, X, Z and nothing else |
| BcdCores.Sm83.Add | src/mgbx/cpu.c:73-85 | the sum and all four flags |
| BcdCores.Sm83.Sub | src/mgbx/cpu.c:87-101 | the difference, all four flags and whether it is kept |
| BcdCores.Sm83.Correct | src/mgbx/cpu.c:166-193 | the correction by the flags of the operation before |
| BcdCores.Sm83.DecimalStep | src/mgbx/cpu.c:166-193 | the add or subtract and its correction leave one byte of the chain in A and its carry in the flags |
| NesTiming.Straight | src/beatle-nes-redux/ppu.c:384-435 | up to the last dot but one the beam only advances, whatever the rendering switch does |
| NesTiming.Enters | src/beatle-nes-redux/ppu.c:384-435 | from any 16-bit counters the beam is back in the frame within 342 dots |
| NesTiming.FirstVblank | src/beatle-nes-redux/ppu.c:411-435 | from any 16-bit counters the event comes after exactly the stated wait and not before; within a frame from inside it, within a frame and 342 dots from anywhere |
| NesTiming.Spacing | src/beatle-nes-redux/ppu.c:411-435 | events are 89342 dots apart, one fewer exactly when the skip is taken; the parity flips |
| NesTiming.LongRun | src/beatle-nes-redux/ppu.c:417-424 | over any number of frames at most every other one is short; with rendering always on exactly every other one, or every one if a state left more than one bit in the parity |
| NesScroll.DownIff | src/beatle-nes-redux/ppu.c:365-382 | the step is one line modulo 480 if and only if it is not the last line of row 31; all other fields stay |
| NesScroll.DownByLines | src/beatle-nes-redux/ppu.c:365-382 | n steps from a visible row are n lines modulo 480 |
| NesScroll.DownPeriod | src/beatle-nes-redux/ppu.c:365-382 | 480 steps return to the same address |
| NesScroll.PlacesOfParts | src/beatle-nes-redux/ppu.c:365-382 | where column, row, screen and fine row stand in the address |
| NesPpu.Ppu.IncY | src/beatle-nes-redux/ppu.c:365-382 | the bit operations take the step |
| NesPpu.LineScroll | src/beatle-nes-redux/ppu.c:384-409 | the scroll address at every dot of a rendered line: a line down from dot 257, the latch's column from dot 258, and on the pre-render line its row from dot 281 |
| NesPpu.LineEnds | src/beatle-nes-redux/ppu.c:384-409 | what a whole rendered line does to the scroll address |
| NesPpu.PictureLines | src/beatle-nes-redux/ppu.c:365-435 | when line k of a rendered frame begins the scroll address is the latch's, k lines down the two stacked screens, in the latch's column |
| NesPpu.Ppu.Tick | src/beatle-nes-redux/ppu.c:384-435 | one dot: position, event, flag and scroll address |
| NesPpu.Ppu.Run | src/beatle-nes-redux/ppu.c:437-442 | three dots a cycle; the event is raised if and only if it falls due within them, and the scroll address goes as `NesPpu.LineScroll` follows it |
| NesPpu.RunFrame | src/beatle-nes-redux/nes.c:85-101 | from any counters the frame loop ends, in the very step in which the event falls due |

## Left out

- PsxGpu.PsxGpu.Render: pixel shading, textures, dithering and line and rectangle drawing are one parameter of the model, a function of VRAM, registers and words.
- PsxRaster.DrawTri: plotting returns the pixels in order; what `put_pixel` does with one is not modelled. Coordinates are integers; `PsxRaster.EdgeFitsInt64` shows that the 64-bit ones do not overflow.
- PsxRaster.QuadDrawing: quadrilaterals with both triangles on one side of the diagonal, or with a skipped triangle, are covered by `PsxRaster.DrawTri` triangle by triangle only.
- PsxGpu.PsxGpu.CopyLoop: a failed allocation, which silently drops the copy, is not modelled.
- PsxDma.TableIsList: bases on the word grid; `PsxDma.UnalignedTableSends` has the others, without saying where their walk goes on. Block transfers and completion flags are not modelled.
- PsxGpu.PsxGpu.ExecGp0: what the C code reads past the parameters of an opcode that counts none is not modelled.
- PsxDma.Dma.WalkList: records the words sent to GP0; `PsxDma.ListReachesGpu` takes them through the port.
- GP1 but for the command buffer reset, the status word and interrupts of the GPU; every other geometry command.
- GbaMemory: regions other than work RAM are a parameter that may change anything when written.
- GbaCore.Core.IrqDispatch: memory is a value held by the core, not an array updated in place.
- GbaIrq.InterruptTransparent: the interrupt stack lies in work RAM, the handler pointer is set, and the core's mode agrees with the mode field.
- GbaBlock.LoadUndoesStore: the S bit of the shared ARM core's block transfers is not modelled.
- GbaSound.PlaybackInOrder: the source memory does not change during playback; `GbaSound.StreamConserved` has no such condition.
- Timers.BatchIsTicksIff: accumulators below the prescaler, as every write that starts a timer leaves them (`Timers.WritesKeepStep`).
- TimerUnits.DsTimers.TimerFeed: 64-bit totals are unbounded integers.
- StateIo.Writer: what a buffer holds after a flagged overflow is not stated; the header file promises nothing about it either.
- BcdCores.M68k.OpBcd: addresses outside work RAM read as a parameter and writes there are dropped; NBCD and cycle counts are not modelled.
- NesPpu.Ppu.Tick: drawing, sprite evaluation and the interrupt line.
- NesPpu.RunFrame: the processor is any sequence of positive cycle counts and the rendering switch any sequence of settings, one per dot; the sound unit is not modelled.
- FIQ's missing save slot is stated, not repaired; ARM condition codes, and SH-2 and SH-4 division are not modelled.
