# Verified model of the Huffman compressor and its FPGA encoder

The repository compresses texts over 56 letters with Huffman codes, once in C (a command line
compressor and decompressor, and the same compressor inside a small web server) and once in an FPGA
that reads codes and text from a memory image prepared by the processor. This project models both,
from the heap that builds the tree to the bytes of the file and the bus cycles of the hardware, and
proves that they fit together:

- **The tree is optimal.** Whatever way ties fall, the tree of the heap-driven merge loop has the least
  weighted path length of all binary trees with the same frequencies, and no prefix-free code of any
  kind spends fewer bits on the text.
- **Compression is lossless.** The decompressor accepts every file the compressor writes and finds the
  text, followed by at most seven surplus letters, which are described exactly. Its output buffer has one
  slot for them; which files overrun it is stated exactly, with a text for which all do.
- **The two streaming loops mean what they should.** Packing through the working string equals
  padding and cutting into bytes; the table sweep of the decoder equals walking the tree one symbol at a
  time. Neither ever leaves its 64-character working string.
- **The output buffer of the server is exactly large enough for texts of up to 89268 letters:** every
  text of that length or less fits, and for every greater length some text does not.
- **The hardware writes the software's file**, lengths and tree included, from the image that the processor
  prepares, under every schedule of wait requests; it touches nothing else, and it finishes. There is one
  difference, proved to be the only one: when the codes fill whole bytes the hardware adds a byte of zeros.
  Such a file still decodes to the text, but the zeros decode to surplus letters, which can overrun the
  decoder's output buffer; when they do is stated exactly, with a text for which they do.
- **The data mask search of the memory calibration returns the first longest passing window**, early exit
  included.

## Modules

| files | content |
|---|---|
| `Alphabet`, `Tree`, `Coding`, `Bytes`, `FileFormat` | letters, trees and codes, what decoding means, packing of bits, layout of a file |
| `Forest`, `Optimality`, `PrefixCodes`, `Limits` | the merge loop as a relation, optimality, sizes |
| `Heap`, `CodeTable`, `CString`, `Compress`, `Handlers`, `Decompress` | the C programs as methods over arrays and objects |
| `Surplus` | the surplus letters and the output buffer of the decompressor |
| `Avalon`, `CodeReader`, `CodeWriter`, `TextHandler`, `TreeHandler`, `Encoder` | the bus and the clocked processes |
| `HardwarePath`, `HardwareResult` | the text handler with reader and writer: invariant, whole runs |
| `HardwareFile` | the file of the hardware against that of the software, and what the decoder makes of it |
| `EncoderPath`, `EncoderResult`, `Entities` | the whole encoder: invariant, whole runs, and the same as objects |
| `Hardware`, `HardwareImage` | the memory image of the processor, and the path from there to the finished file |
| `HardwareCompress` | the server's second compressor as a whole: processor and encoder objects on one shared memory |
| `Sequencer` | the two calibration searches |

## Conventions

- A tree node never changes after it has been created, so trees are values; the heap, the working strings,
  the scratch arrays, the output buffer and the memory of the FPGA are mutable.
- Texts are sequences over the 56 letters. The C code reads its buffers up to a terminator that it does not
  write (`linux_program/src/compress.c:40-46`, `linux_program/src/decompress.c:43-46`); here these scans are bounded by the known lengths.
- `strcpy` of a string onto itself and `sprintf` with its own target as an argument mean "shift down" and
  "append".
- A merge takes out two least frequent trees; which of several equally frequent ones is left open, so
  every theorem about the tree holds for every way ties can fall. The first tree taken out is the left child.
- Frequencies are natural numbers. `FrequenciesFit` shows that no node counts more than the length of
  the text, which the callers bound by 2^31.
- Vectors of bits are written most significant bit first: bit 63 of a register is element 0.
- A slave on the bus performs a write in every cycle in which it is asserted without a wait request, and
  delivers read data in the cycle in which the wait request is absent; in all other cycles the data are
  arbitrary (chapter 3 of the Avalon Interface Specifications).

## Model

| member | source | states |
|---|---|---|
| Alphabet.TableWrittenOut | linux_program/src/compress.c:7-17 | the table is the capital letters, the small letters, space, comma, full stop and newline, in this order |
| Trees.PrefixFree | linux_program/inc/huffman.h:155-179 | no code is a prefix of the code of another letter |
| Trees.Complete | linux_program/inc/huffman.h:155-179 | every bit string as long as the tree is high starts with the code of exactly one letter |
| Trees.KraftEquality | linux_program/inc/huffman.h:155-179 | the Kraft sum over the leaves is 1 |
| Trees.CodeBounds | linux_program/inc/huffman.h:155-179 | codes are no longer than the number of leaves less one, and not empty unless the tree is a single leaf |
| Forests.MergeKeeps | linux_program/inc/huffman.h:137-146 | one merge keeps leaves, letters and total frequency, keeps every root equal to the sum of its leaves, and adds the two frequencies to the cost |
| Forests.RunConserves | linux_program/inc/huffman.h:137-146 | at every point of every run: leaves, letters and total frequency are those of the start, roots are the sums of their leaves, each round has taken one tree away, and the cost has grown by the frequencies put together so far |
| Forests.CostIsMerged | linux_program/inc/huffman.h:137-149 | the weighted path length of the tree is the sum of all frequencies put together in a run |
| Forests.RunToEnd | linux_program/inc/huffman.h:137-148 | a run ends after one round less than there are trees at the start |
| Forests.HuffmanTreeLeaves | linux_program/inc/huffman.h:130-149 | the leaves of the tree are exactly the input letters with their frequencies |
| Optimality.Exchange | linux_program/inc/huffman.h:137-146 | for any tree in which two frequencies are least, some tree has them merged and costs at least their sum less |
| Optimality.HuffmanOptimal | linux_program/inc/huffman.h:130-149 | the tree costs no more than any binary tree with the same multiset of leaf frequencies, for every outcome of ties |
| PrefixCodes.TreeOfWords | linux_program/inc/huffman.h:155-179 | every prefix-free set of words can be replaced by a full tree that spends no more |
| PrefixCodes.NoPrefixCodeIsShorter | linux_program/inc/huffman.h:196-206 | the tree spends no more bits than any prefix-free code for the same frequencies |
| Heaps.SiftDownStep | linux_program/inc/huffman.h:46-68 | swapping with the smaller child moves the only possible violation of heap order to that child |
| Heaps.SiftUpBody | linux_program/inc/huffman.h:95-101 | moving a parent down leaves the new node's place as the only possible violation, and the contents alone |
| Heaps.RootIsLeast | linux_program/inc/huffman.h:74-84 | the root of an ordered heap is least among all entries |
| Heaps.Heap.Heapify | linux_program/inc/huffman.h:46-68 | repairs a heap that may be out of order at the index only, keeping its contents and everything behind it |
| Heaps.Heap.Pop | linux_program/inc/huffman.h:74-84 | returns a least node, removes exactly that node, keeps heap order |
| Heaps.Heap.Push | linux_program/inc/huffman.h:86-104 | adds exactly the node and keeps heap order; a full heap is left as it is |
| Heaps.Heap.Build | linux_program/inc/huffman.h:106-113 | turns any array into a heap with the same contents |
| Heaps.CreateHeap | linux_program/inc/huffman.h:115-127 | a heap of one leaf for every letter |
| Heaps.BuildTree | linux_program/inc/huffman.h:130-149 | the result is reached from those leaves by merging two least trees until one is left |
| CodeTables.GetCodes | linux_program/inc/huffman.h:155-179 | the table receives the printed path of every leaf below the node, other entries and the path so far stay |
| CodeTables.TreeToString | linux_program/inc/huffman.h:181-194 | the postorder text of the tree appears at the position, the rest of the buffer stays; it is made of '1' with a letter for every leaf, in order, and one '0' less, and ends with '0' unless the tree is a leaf |
| CodeTables.PrintScans | linux_program/inc/huffman.h:181-194 | a printed subtree in any text reads as its letters from left to right and one join less, and never joins before there are two trees |
| CodeTables.RebuildTree | linux_program/inc/huffman.h:230-259 | the stack machine computes the parse of every text that neither underflows nor overflows its stack |
| CodeTables.AnyCharacterJoins | linux_program/inc/huffman.h:245-254 | the parse does not depend on which characters other than '1' and the terminator stand for the joins |
| CodeTables.ParsePrinted | linux_program/inc/huffman.h:230-259 | a printed subtree inside any longer text pushes exactly one node, with its shape and letters |
| CodeTables.PrintedPeak | linux_program/inc/huffman.h:230-259 | parsing a printed tree never holds more nodes than it has leaves |
| CodeTables.PrintThenParse | linux_program/inc/huffman.h:181-259 | parsing a printed tree gives back its shape and letters |
| CodeTables.PrepareFrequencies | linux_program/inc/huffman.h:208-228 | entry i is the number of occurrences of letter i |
| Bytes.StrToByte | linux_program/inc/huffman.h:261-270 | the first eight characters weighed 128, 64, 32, 16, 8, 4, 2, 1 in this order, anything but '1' counting as 0 |
| Bytes.ByteToStr | linux_program/inc/huffman.h:272-281 | eight characters, '0' or '1', of which the first says whether b / 128 is odd, and so on down to the last one for b itself |
| Bytes.BitsOfByte | linux_program/inc/huffman.h:261-281 | the two conversions are inverse |
| Bytes.StreamAppend | linux_program/src/compress.c:91-100 | appending bits concerns only the bits not yet written |
| Bytes.PackIsChunkedPadding | linux_program/src/compress.c:76-108 | packing is padding with zeros to whole bytes and cutting |
| Bytes.PackedByte | linux_program/src/compress.c:91-108 | byte i of the payload is made of bits 8i to 8i + 7, the first one weighing 128, with zeros behind the last bit |
| Bytes.UnpackPack | linux_program/src/decompress.c:58-62 | unpacking the payload gives the bits and the zeros; the number of bytes is the number of bits divided by 8, rounded up |
| CStrings.MemEqualIsPrefix | linux_program/src/decompress.c:68 | comparing raw memory with a code asks whether the code starts the string, the terminator included |
| Coding.DecodeAppend | linux_program/src/decompress.c:58-78 | decoding in pieces equals decoding at once |
| Coding.ResidueShort | linux_program/src/decompress.c:64-77 | what is left after decoding is shorter than the longest code |
| Coding.DecodeEncoded | linux_program/src/decompress.c:58-78 | encoded text decodes to the text, then whatever follows |
| Coding.DecodeZeros | linux_program/src/decompress.c:58-79 | n zeros decode to n divided by the depth of the leftmost leaf copies of its letter |
| FileFormat.AssembledFields | linux_program/src/decompress.c:33-46 | the lengths, the tree text and the payload read back from the file are those written |
| FileFormat.AssembledLayout | linux_program/src/compress.c:59-112 | every byte of the file by position: three lengths with the low byte first, the characters of the tree, the payload |
| FileFormat.ReadWordRoundTrip | linux_program/src/decompress.c:33-35 | writing back what four bytes read as gives these four bytes |
| Limits.EncodedLength | linux_program/src/compress.c:76-101 | the encoded text has as many bits as the tree weighed with the text costs |
| Limits.PayloadExactAndMinimal | linux_program/src/compress.c:72-108 | the payload is the sum of occurrences times code length in bits, rounded up to bytes, and no prefix-free code gives fewer bytes |
| Limits.FrequenciesFit | linux_program/inc/huffman.h:141 | the root counts every letter and no node counts more |
| Limits.AverageBound | linux_program/src/handlers.c:186-230 | no text needs more than 41/7 bits a letter |
| Limits.ExactBufferBound | linux_program/src/handlers.c:186-230 | all texts of a length fit the 65536-byte buffer if and only if the length is at most 89268 |
| Limits.TotalLengthFits | linux_program/src/compress.c:59-61 | for texts below 2^31 letters all length fields hold their values |
| Compress.HuffmanCodes | linux_program/inc/huffman.h:196-206 | an optimal tree's 167-character text and the printed code of every letter |
| Compress.EncodeLetter | linux_program/src/compress.c:91-100 | one round of the loop writes the complete bytes and keeps the rest in the 64-character string |
| Compress.EncodeText | linux_program/src/compress.c:72-108 | the streaming loop writes exactly the packed codes of the text |
| Compress.CompressFile | linux_program/src/compress.c:43-112 | the output is the file of some Huffman tree of the text's letter counts; its bytes 0 to 3, 4 to 7 and 8 to 11 are, low byte first, its size, 167, and the length of the text |
| Handlers.EncodeInto | linux_program/src/handlers.c:194-228 | the same loop stores exactly the packed codes behind the header and leaves the rest of the buffer zero |
| Handlers.CompressToBuffer | linux_program/src/handlers.c:147-235 | for every text whose file fits, the buffer holds that file, with the three lengths low byte first, and zeros behind it |
| Decompress.Sweep | linux_program/src/decompress.c:64-77 | one pass over the table, however many codes it takes off, is some steps of tree decoding; without a match no code starts the string |
| Decompress.DecodeByte | linux_program/src/decompress.c:59-77 | the sweeps for one byte end, stay inside the 64 characters, and give the symbols and residue of the tree walk |
| Decompress.DecodePayload | linux_program/src/decompress.c:53-78 | the loop over all bytes stores the letters of the whole payload in order, as far as the output buffer reaches, and the index counts them all |
| Decompress.DecompressFile | linux_program/src/decompress.c:33-81 | for every readable file: the buffer of the announced length and one more holds the announced letters and the terminator, these letters are printed, and the number of stores exceeds the buffer exactly when the payload has more than one surplus letter |
| Decompress.RoundTrip | linux_program/src/decompress.c:33-81 | the file of a text is readable and decodes to the text and a surplus of at most seven copies of the leftmost letter |
| SurplusLetters.ThreeLetterTree | linux_program/inc/huffman.h:130-149 | for a text of three letters, one rarest and the other two closer to each other than it counts, every outcome of ties gives code lengths 1, 2 and 3 with the one-bit code on the left |
| SurplusLetters.OutputBufferSuffices | linux_program/src/decompress.c:53-79 | for files of the compressor, all stores stay inside the buffer if and only if the padding is shorter than two codes of the leftmost letter |
| SurplusLetters.OutputBufferOverrun | linux_program/src/decompress.c:53-79 | for the text AABBC, however ties fall, twelve letters are stored into a buffer of six |
| Decompress.Lossless | linux_program/src/compress.c:59-112 | whatever the compressor writes for a text, the decompressor prints that text |
| Hardware.GlobalAddrs.CopyStrToMem | linux_program/src/hardware.c:114-123 | the string and its terminator are in memory, nothing else has changed |
| Hardware.GlobalAddrs.StrLenMem | linux_program/src/hardware.c:140-146 | the length of the string at an address |
| Hardware.GlobalAddrs.WriteCodesToMem | linux_program/src/hardware.c:125-138 | the first pointer is 256, each other one is the one before plus the length of its code and 1, and each points to its code |
| Hardware.GlobalAddrs.WriteTreeToMem | linux_program/src/hardware.c:148-153 | the tree text behind the codes, which stay |
| Hardware.GlobalAddrs.WriteTextToMem | linux_program/src/hardware.c:155-160 | the text behind the tree, the output behind the text, codes and tree stay |
| Avalon.PlusWraps | hw/hdl/code_reader.vhd:72-117 | addresses are added modulo 2 to the power 32 |
| CodeReaders.CodeReader.RisingEdge | hw/hdl/code_reader.vhd:44-154 | one clock edge of the process is one step of the transition function; a code being read stays so until it has been read |
| CodeReaders.ReadingStep | hw/hdl/code_reader.vhd:72-148 | the invariant of reading is kept by every edge, for every wait request, start signal and stray data |
| CodeReaders.ReadingRun | hw/hdl/code_reader.vhd:72-148 | under every schedule, either still reading or the right outputs have been announced, within a bounded number of responses |
| CodeReaders.ReaderDelivers | hw/hdl/code_reader.vhd:56-148 | started at a table slot from any idle state, the reader puts out the length and the bits of that code with the old bits of its register behind them, so the left-aligned code exactly when those are zeros; until then the done signal stays what it was; whatever byte ends the digits |
| CodeWriters.CodeWriter.RisingEdge | hw/hdl/code_writer.vhd:46-128 | one clock edge of the process, bit loops included, is one step of the transition function; bits being written stay so until they have been written |
| CodeWriters.WritingAccepts | hw/hdl/code_writer.vhd:64-90 | a code of up to 57 bits can be taken whenever the writer is idle |
| CodeWriters.WritingStep | hw/hdl/code_writer.vhd:81-122 | the invariant of writing is kept by every edge, for every input and wait request |
| CodeWriters.IdleIsPacked | hw/hdl/code_writer.vhd:61-122 | when idle, memory holds all complete bytes, the offset counts them, and the top bits of the register are the rest, in order |
| CodeWriters.WritingProgress | hw/hdl/code_writer.vhd:81-122 | every response of the slave brings the end of writing closer |
| CodeWriters.WriterRefinesPacking | hw/hdl/code_writer.vhd:61-124 | after every sequence of start, set and wait signals an idle writer agrees with the packing loop of the software |
| TextHandlers.TextHandler.RisingEdge | hw/hdl/text_handler.vhd:193-362 | one clock edge of the handler's process is one step of the transition function |
| HardwarePath.InvariantKept | hw/hdl/text_handler.vhd:193-403 | the joint invariant of handler, reader, writer and memory is kept by every clock edge |
| HardwarePath.MemoryKept | hw/hdl/text_handler.vhd:364-403 | no clock edge changes the prepared image or anything else outside the two output areas |
| HardwareResult.HardwareEncodes | hw/hdl/text_handler.vhd:193-362 | in every run, when the handler is idle again the payload, its size and the text length are in place; nothing else is ever changed |
| HardwareResult.HardwareFinishes | hw/hdl/text_handler.vhd:193-362 | the job is done after 200 responses for each letter and 63 more, however the slave delays them |
| HardwareFiles.HardwareAgainstSoftware | hw/hdl/text_handler.vhd:290-302 | the hardware's payload equals the software's if and only if the codes do not fill whole bytes; else it has one more byte, of zeros |
| HardwareFiles.EmptyTextDiffers | hw/hdl/text_handler.vhd:290-302 | for the empty text the hardware writes one byte and the software none |
| HardwareFiles.HardwareFileDecodes | linux_program/src/decompress.c:33-81 | a file with the hardware's payload decodes to the same text, followed by what one to eight zeros decode to; the stores stay inside the output buffer if and only if these zeros are fewer than two codes of the leftmost letter |
| HardwareFiles.AdditionalByte | linux_program/src/decompress.c:53-79 | when the codes fill whole bytes, the software's file keeps the decoder inside its buffer and the hardware's does if and only if the leftmost leaf is at depth five or more; otherwise the files are the same |
| HardwareFiles.AdditionalByteHarms | linux_program/src/decompress.c:53-79 | for the text AAAABBBCC, however ties fall, the software's file stays inside the buffer and the hardware's does not |
| TreeHandlers.TreeHandler.RisingEdge | hw/hdl/tree_handler.vhd:50-178 | one clock edge of the process is one step of the transition function, and keeps the invariant of copying |
| TreeHandlers.CopyingKept | hw/hdl/tree_handler.vhd:71-176 | the bytes before the offset are in place, the address and data on the bus are those of the next one; kept by every edge, for every wait request and stray data |
| TreeHandlers.CopyingProgress | hw/hdl/tree_handler.vhd:71-176 | every response of the slave brings the end of copying closer |
| Encoders.Encoder.RisingEdge | hw/hdl/encoder.vhd:230-334 | one clock edge of the process, reset included, is one step of the transition function |
| EncoderPath.FileInvariantKept | hw/hdl/encoder.vhd:230-376 | the joint invariant of encoder, tree handler, text handler, reader, writer and memory is kept by every clock edge |
| EncoderPath.OutsideKept | hw/hdl/encoder.vhd:336-376 | no clock edge changes anything outside the file |
| EncoderResult.EncoderWritesFile | hw/hdl/encoder.vhd:230-334 | in every run, whenever the encoder is at rest again or reports that it is done, the whole file is in memory; nothing outside it is ever changed |
| EncoderResult.LoadedStays | hw/hdl/encoder.vhd:236-247 | an encoder at rest stays ready and off the bus until a start signal without a reset; a reset overrides the start signal; the done signal of an earlier task goes down |
| EncoderResult.ResetInRun | hw/hdl/encoder.vhd:239-240 | a reset in the middle of a run leaves the whole encoder at rest if and only if no handler has been told anything yet |
| EncoderResult.EncoderFinishes | hw/hdl/encoder.vhd:230-334 | the encoder reports that it is done, with the file complete, after 200 responses for each letter, 7 for each character of the tree and 90 more, however the slave delays them |
| EncoderResult.RestIsReported | hw/hdl/encoder.vhd:324-330 | the done signal goes up exactly when a run comes to rest |
| EncoderResult.ResetLoads | hw/hdl/encoder.vhd:230-241 | what the reset leaves in the five processes, with the addresses and the image in place, is ready for any task |
| EncoderResult.EncoderRestarts | hw/hdl/encoder.vhd:243-247 | after a file the encoder and everything in it is ready for any next task |
| Entities.TextEntity.RisingEdge | hw/hdl/text_handler.vhd:140-403 | the three processes as objects, connected as in the port maps, make one step of the composite |
| Entities.EncoderEntity.RisingEdge | hw/hdl/encoder.vhd:139-376 | the five processes as objects make one step of the composite; a loaded encoder stays loaded under resets and without a start; from the start on every edge keeps the invariant and writes into the file only, and at rest the file is complete |
| Entities.PowerUp | hw/hdl/encoder.vhd:139-180 | the processes as constructed by their resets, connected, are at rest |
| HardwareImage.PrepareImage | linux_program/src/handlers.c:268-271 | the three functions one after the other give the image with codes, tree and text, and the addresses for the registers of the encoder |
| HardwareImage.ImagePrepares | linux_program/src/hardware.c:125-160 | that image is what the text handler needs to find |
| HardwareImage.HardwareMatchesSoftware | hw/hdl/text_handler.vhd:193-403 | from the image to the end of the text handler: the bytes are those of the software's loop, up to the one byte above, with their number and the length of the text |
| HardwareImage.EncoderMatchesSoftware | linux_program/src/handlers.c:268-281 | from the image to the finished file: under every schedule the output is the file the software assembles for the same tree, up to the one byte above, it decodes to the text, with the exact condition for the decoder's buffer, and nothing else has changed |
| HardwareImage.FetchFile | linux_program/src/handlers.c:276-281 | the processor reads back exactly the file, its length taken from its first word |
| HardwareCompress.RunEncoder | linux_program/src/handlers.c:272-274 | reset, start, and then clocked on the shared memory until the done signal: under every schedule it comes, with the file in place, nothing else changed, and the encoder ready again |
| HardwareCompress.HwCompress | linux_program/src/handlers.c:255-286 | from any text that fits to the fetched bytes, under every schedule: the file the software assembles for some Huffman tree of the text, up to the one byte above, with its lengths low byte first; it decodes to the text |
| Sequencer.SearchWindow | hw/quartus/hps_isw_handoff/soc_system_hps_0/sequencer.c:7645-7734 | for every fixed outcome of the tests, the result is the first of the longest passing runs, or none when nothing passes |
| Sequencer.FindCentre | hw/quartus/hps_isw_handoff/soc_system_hps_0/sequencer.c:4552-4565 | the middle reduced by whole FIFO cycles is met from above within one delay tap if and only if the middle less one, modulo a phase, is below 32 delay taps; the delay is in range if and only if it is below 31; in particular when a phase is at most 31 delay taps |

## Where code and expectation differ

- The hardware always appends eight zeros and then drops the incomplete byte
  (`hw/hdl/text_handler.vhd:290-302`); the software pads only when bits are left over
  (`linux_program/src/compress.c:102-108`). `HardwareAgainstSoftware` gives the exact condition. The byte is
  not harmless: a software file whose codes fill whole bytes has no surplus letters, while the byte of zeros
  decodes to eight of them if the leftmost leaf is at depth one. `HardwareFileDecodes` and `AdditionalByte` say
  when the decoder's output buffer is overrun, and `AdditionalByteHarms` gives a text for which only the
  hardware's file does it.
- The server does not check its output buffer (`linux_program/src/handlers.c:186-230`). `CompressToBuffer`
  requires that the file fits, and `ExactBufferBound` says for which lengths that is certain.
- The decoder stores the surplus letters behind the text, but its output buffer
  (`linux_program/src/decompress.c:53`) has one slot to spare. `OutputBufferSuffices` says for which files that
  is enough, and `OutputBufferOverrun` gives a text whose files all have seven surplus letters. In the model
  a store behind the buffer only counts.

- A reset of the encoder brings only its own process to rest (`hw/hdl/encoder.vhd:239-240`); the handlers, the
  orders to them and the multiplexer stay as they are. `ResetInRun` says when the whole is at rest afterwards.
  The server resets an encoder that is at rest, which `LoadedStays` shows to change nothing.

## Left out

- Characters outside the alphabet, empty alphabets and trees of a single leaf: preconditions. Letter counting writes outside its array for such characters before the compressor's own check is reached.
- Files, sockets, HTTP requests and responses, directory listing, thread pool and connection queue: plumbing around library calls.
- The register file of the encoder (`hw/hdl/encoder.vhd:181-227`): the addresses stand in the registers, start is a signal of one cycle, and the status bit is the done signal.
- Signals that no reset sets (the write and start signals for the text handler and the write signal of the encoder itself) are taken to be low when a run starts.
- `letter_indexer.vhd` is the function `LetterIndex`; only its agreement with the letter table is used.
- The order in which equally frequent nodes leave the heap: the contracts of the heap do not fix it.
- WriterRefinesPacking: the payload has to end below the top of the 32-bit address space, so the model does not follow an address that wraps around.
- Arithmetic on settings in `sequencer.c` is unbounded, the tests are a fixed function of the position, and register writes are not modelled.
- FindCentre: before the adjustment that avoids phase 0 (`sequencer.c:4572-4578`), and for a positive middle.
- Memory allocation, its failure, and freeing.
