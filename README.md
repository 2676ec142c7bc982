# LSB steganography codec — a Dafny model

This project models the codec core of a Java least-significant-bit steganography tool (package `lsb`).
`encode` hides a message in the low bit planes of a cover image:
- it writes a 32-bit size prefix, least significant bit first;
- then it writes every message bit, most significant bit of each byte first;
- each bit goes to one *shot*, a pixel, a colour layer and a bit position;
- `getNextShot` derives the shot from a running bit counter.

`decode` runs the same sequence over the stego image. It reads 32 bits and reverses them into the size, checks that size against the capacity, and collects the bits after the prefix into a fresh message of that size with `setNext`.

Modules:

- `Outcomes`: the exceptions the source throws, as `Failure` values inside `Result` / `Outcome`.
- `Shots`: the `Shot` record.
- `BitUtility`: the bits of Java `byte` and `int` values, Java's truncating `/` and `%`, and `BitUtility.setBit`, `intToByteArray` and `byteArrayToInt`.
- `ImageUtility`: `getRed`, `getGreen`, `getBlue`, `clamp`.
- `FileUtility`: the path-splitting helpers.
- `Messages`: `getBit` and the `Message` class.
  - The read cursor is `nextBit`; the write cursor is `setNext`.
  - `received` is a ghost record of the bits `setNext` has been given.
  - The predicates `Pending`, `Packed` and `Blank` describe the buffer those bits fill.
- `Images`: `StegoImage`.
  - The raster is an `array2<bv32>` indexed `[x, y]`.
  - For single-layer types a cell holds the band-0 sample. For every other type it holds the packed RGB value.
  - `getLayerCount`, `getPixelBit`, `setPixelBit` and `getBitPlane` are modelled.
- `Sequencer`: the `Layout` that `encode` and `decode` set up (start bit, bits per layer, layers, width, height).
  - `Layout.Shot(c)` is `getNextShot`'s arithmetic for counter `c`.
  - Lemmas show it walks the image cell by cell and row by row, hitting every writable bit exactly once.
- `Frame`: the size prefix and its round trip through `decode`'s reversal.
- `Embedding`: the inverse of the shot arithmetic, and the "plan" a cell agrees with once counters `0..n-1` are written.
- `Lsb`: the class `LsbImpl`, with `encode`, `decode` and `getNextShot`.
  - `LsbEncoder` and `LsbDecoder` carry the same three methods, and the same class models them.
  - Each loop of the source is a `while` loop here. Its per-iteration body is a small method (`WriteNext`, `ReadSizeBit`, `ReadInto`).
  - `EncodeThenDecode` proves the round trip: decoding what `encode` wrote gives the message back byte for byte.

## Model

| member | source | states |
|---|---|---|
| Lsb.LsbImpl.constructor | src/main/java/lsb/LsbImpl.java:184-185 | a fresh codec has every parameter field and the bit counter at zero |
| Lsb.LsbImpl.GetNextShot | src/main/java/lsb/LsbImpl.java:381-395 | no shot once the counter has passed maxBits; a runtime fault when maxBits, the cell size or the width is zero; otherwise the shot of the counter, with the counter advanced by one and every parameter field kept (the copies in LsbEncoder.java:198-212 and LsbDecoder.java:203-217 are identical) |
| Lsb.LsbImpl.ShotAt | src/main/java/lsb/LsbImpl.java:381-395 | below maxBits getNextShot never returns null and yields exactly the layout's shot of the counter |
| Sequencer.ShotFields | src/main/java/lsb/LsbImpl.java:385-393 | below maxBits the plane term is zero: x and y are the cell number modulo and divided by the width; layer and bit position are the offset in the cell divided and taken modulo bitsPerLayer |
| Sequencer.ShotInImage | src/main/java/lsb/LsbImpl.java:381-395 | every shot below maxBits lies inside the image, on an existing layer and inside the configured bit range |
| Sequencer.ShotInjective | src/main/java/lsb/LsbImpl.java:381-395 | two different counters below maxBits never address the same bit |
| Sequencer.ShotPastEnd | src/main/java/lsb/LsbImpl.java:382 | because the test is `>` rather than `>=`, counter maxBits still gets a shot: one row below the image, on bit startBits + 1 |
| Embedding.ShotOfCounter | src/main/java/lsb/LsbImpl.java:381-395 | every writable bit of the image is the shot of exactly one counter below maxBits, so the sequence covers the whole capacity |
| Embedding.CounterOfShot | src/main/java/lsb/LsbImpl.java:381-395 | the shot of a counter maps back to that same counter |
| Lsb.Rejection | src/main/java/lsb/StegoImage.java:254-258 | on a 15/16-bit packed type with endbits above 4, the first rejected shot comes at counter 5 or below, and no earlier shot is rejected |
| Lsb.LsbImpl.Configure | src/main/java/lsb/LsbImpl.java:220-231 | encode and decode store startbits, bitsPerLayer, the layer count and maxBits = height * width * bitsPerLayer * layers, and reset the counter |
| Lsb.LsbImpl.Encode | src/main/java/lsb/LsbImpl.java:201-274 | range errors in the source's order with nothing changed; "message too big" reporting (maxBits - 32) / 8 with the image untouched; IllegalArgument for a 15/16-bit packed type above bit 4; otherwise every cell agrees with the frame: prefix then message bits on their shots, every other readable bit as in the cover; the top byte of an RGB cell (alpha) is kept, and a single-layer cell is either untouched or holds the stored sample of its new low byte (StegoImage.java:274-292; LsbEncoder.java:110-189 is the same method) |
| Lsb.LsbImpl.WriteFrame | src/main/java/lsb/LsbImpl.java:240-264 | after the capacity check, encode fails exactly on a 15/16-bit packed type whose range passes bit 4; otherwise it consumes the whole message and writes the frame, keeping the top byte of every RGB cell and storing only low-byte samples in single-layer cells |
| Lsb.LsbImpl.WriteSize | src/main/java/lsb/LsbImpl.java:240-249 | the size loop writes bit i of the size at the shot of counter i, for i = 0..31, keeping every cell in agreement with the frame |
| Lsb.LsbImpl.WriteMessage | src/main/java/lsb/LsbImpl.java:251-264 | the message loop writes each message bit at the next shot until the message is finished |
| Lsb.LsbImpl.WriteNext | src/main/java/lsb/LsbImpl.java:254-263 | one loop pass writes the frame bit of the counter at its shot; it fails only when the shot is rejected by setPixelBit |
| Lsb.WriteShot | src/main/java/lsb/LsbImpl.java:246-248 | setPixelBit at a shot is rejected iff the type is 15/16-bit packed and the bit position is above 4; if it succeeds, the image agrees with the frame one counter further |
| Embedding.CellStep | src/main/java/lsb/StegoImage.java:250-296 | writing a frame bit at its shot keeps the shot's cell in agreement with the frame |
| Embedding.OtherCellStep | src/main/java/lsb/LsbImpl.java:381-395 | writing a frame bit leaves every other cell's agreement unchanged |
| Embedding.ReadBack | src/main/java/lsb/StegoImage.java:220-231 | in a cell that agrees with the frame, the shot of a written counter reads back its frame bit |
| Lsb.LsbImpl.Decode | src/main/java/lsb/LsbImpl.java:289-372 | range errors in order; a runtime fault when the prefix does not fit the capacity; then the size checks as written in 32-bit `int`: "size wrong" when the wrapped size * 8 + 32 exceeds maxBits; a runtime fault for a negative size (the buffer cannot be made); "bigger than supposed" when the wrapped bit count is negative or not below maxBits; otherwise a fresh message of the recovered size whose first (wrapped bit count) / 8 bytes are the shots after the prefix packed eight per byte and whose remaining bytes are zero (LsbDecoder.java:109-194 is the same method) |
| Lsb.LsbImpl.ReadSize | src/main/java/lsb/LsbImpl.java:319-325 | the prefix loop shifts in the bits of shots 0..31, the first one ending as bit 31; it faults when the image holds fewer than 32 writable bits |
| Lsb.LsbImpl.ReadSizeBit | src/main/java/lsb/LsbImpl.java:321-324 | one pass of the prefix loop reads the pixel bit at the counter's shot and faults exactly when the counter has reached maxBits |
| Lsb.LsbImpl.Reverse | src/main/java/lsb/LsbImpl.java:328-331 | the reversal loop puts bit 31 - j of the read word at bit j |
| Lsb.LsbImpl.ReadPayload | src/main/java/lsb/LsbImpl.java:333-370 | the check of line 333 and the check of line 353 on the wrapped products, in that order, with the negative size faulting at `new Message` in between; a size that passes both gets a fresh message whose bytes up to the wrapped bit count are filled from the following shots and whose other bytes stay zero |
| Lsb.LsbImpl.ReadMessage | src/main/java/lsb/LsbImpl.java:358-369 | the payload loop hands the bits of shots 32 .. 32 + nbits - 1 to setNext, so each of the first nbits / 8 bytes is eight read bits, most significant first, and the bytes after them stay zero |
| Lsb.LsbImpl.ReadInto | src/main/java/lsb/LsbImpl.java:360-367 | one pass of the payload loop appends the pixel bit of the next shot to the message's received bits |
| Lsb.ReadBitsAgree | src/main/java/lsb/LsbImpl.java:358-369 | reading shots back from an image that agrees with a frame returns exactly that stretch of the frame |
| Lsb.FrameReadBack | src/main/java/lsb/LsbImpl.java:319-336 | on an image carrying a frame, the recovered size is the message length, it passes the size check, and the bytes packed from the following bits are the message |
| Lsb.LsbImpl.EncodeThenDecode | src/main/java/lsb/LsbImpl.java:201-372 | whenever the message fits and the range is accepted, encode succeeds and decode returns a fresh message whose bytes equal the original |
| Lsb.LsbImpl.DecodeFramed | src/main/java/lsb/LsbImpl.java:319-370 | on an image whose prefix reads back the length of a byte sequence and whose following shots pack into it, decode passes both size checks and returns a fresh message holding exactly those bytes |
| Lsb.MaxBitsBelow | src/main/java/lsb/LsbImpl.java:312-313 | below 2^26 cells, maxBits stays below 2^31 - 32, so the capacity product never wraps |
| Frame.SizeRoundTrip | src/main/java/lsb/LsbImpl.java:241-249 | for a size below 2^31, writing its bits low first, shifting them in and reversing gives the size back |
| Frame.PrefixRecovered | src/main/java/lsb/LsbImpl.java:328-331 | shifting in 32 bits and reversing the word recovers the bits in the order they were written |
| Frame.IntendedCheckAgrees | src/main/java/lsb/LsbImpl.java:333 | where the intended check passes, the as-written check passes too and no multiplication wraps |
| Frame.WrappedSizeAccepted | src/main/java/lsb/LsbImpl.java:333 | the size 0x20000001 passes the as-written check on a 48-bit image because size2 * 8 wraps to 8 |
| Frame.WrappedSizeOutcomes | src/main/java/lsb/LsbImpl.java:333-355 | 0x10000000 passes line 333 and its bit count wraps to -2^31, so line 353 rejects it although the intended check would reject it as a wrong size; -0x18000000 wraps to 2^30 and line 333 rejects it |
| Frame.AcceptedPayload | src/main/java/lsb/LsbImpl.java:333-355 | a non-negative size that passes both wrapped checks has a bit count that is a multiple of 8, at most 8 * size, and fits after the prefix |
| Images.LayerCount | src/main/java/lsb/StegoImage.java:122-137 | zero layers exactly for the packed binary type; one for indexed and grey types; three for every other type |
| Images.ZeroLayersRejectAll | src/main/java/lsb/StegoImage.java:250-296 | setPixelBit on a zero-layer image rejects every layer |
| Images.PixelBitChannel | src/main/java/lsb/StegoImage.java:220-231 | on an RGB cell, bit p of layer 0, 1 or 2 is bit p of the blue, green or red channel |
| Images.SetThenGet | src/main/java/lsb/StegoImage.java:250-296 | after an accepted setPixelBit, getPixelBit at the same place reads the new bit |
| Images.SetKeepsOtherPixelBits | src/main/java/lsb/StegoImage.java:250-296 | an accepted setPixelBit changes no other readable bit of the cell |
| Images.SetKeepsUnreadPart | src/main/java/lsb/StegoImage.java:274-292 | an accepted setPixelBit keeps the top byte of an RGB cell, and leaves a single-layer cell holding the stored sample of its low byte |
| Images.BitPlaneAgrees | src/main/java/lsb/StegoImage.java:148-195 | a bit plane entry is the getPixelBit of that layer and plane |
| Images.StegoImage.constructor | src/main/java/lsb/StegoImage.java:76-82 | an image records its type, its raster and the layer count of that type |
| Images.StegoImage.GetPixelBit | src/main/java/lsb/StegoImage.java:220-231 | 0 or 1; on RGB cells, the bit layer * 8 + bitpos of the packed value |
| Images.StegoImage.SetPixelBit | src/main/java/lsb/StegoImage.java:250-296 | IllegalArgument, with nothing written, exactly for the rejected arguments: bit above 4 on a 15/16-bit packed type, bit outside 0..7, or missing layer; otherwise the one cell gets the new bit and every other cell is kept |
| Images.StegoImage.GetBitPlane | src/main/java/lsb/StegoImage.java:148-195 | unsupported on zero-layer images; IllegalArgument for a missing layer; otherwise a fresh grid of the image's size holding the plane bit of every cell |
| Images.StegoImage.FillColumn | src/main/java/lsb/StegoImage.java:156-189 | the inner loop fills column i with the plane bits and leaves the other columns alone |
| Messages.GetBitMeaning | src/main/java/lsb/Message.java:126-130 | for non-negative positions, bit pos % 8 of the byte; for negative positions Java's remainder gives bit 0 or the sign bit |
| Messages.GetBitOfSetBit | src/main/java/lsb/Message.java:126-130 | getBit reads back what setBit stored at positions 0..7 |
| Messages.PackMessageBits | src/main/java/lsb/Message.java:137-156 | packing eight consecutive message bits, most significant first, gives back the message byte |
| Messages.FilledPrefix | src/main/java/lsb/Message.java:169-197 | once setNext has received eight bits for each of the first m bytes, each of those bytes is its eight received bits packed and every later byte is still zero |
| Messages.AcceptLastBit | src/main/java/lsb/Message.java:186-192 | the eighth bit of a byte stores the completed byte and restarts the accumulator |
| Messages.AcceptFinalBit | src/main/java/lsb/Message.java:186-195 | with the buffer full, the eighth extra bit sets finished |
| Messages.Message.FromFile | src/main/java/lsb/Message.java:60-75 | a message read from file content holds those bytes, is ready to read and has handed out no bit |
| Messages.Message.WithBufferSize | src/main/java/lsb/Message.java:84-93 | a message of a given size is a fresh buffer ready for setNext with nothing received |
| Messages.Message.FromBytes | src/main/java/lsb/Message.java:101-105 | a message over a byte array aliases that array, with the cursor at its start |
| Messages.Message.GetSize | src/main/java/lsb/Message.java:204-206 | the size fixed at construction |
| Messages.Message.IsFinished | src/main/java/lsb/Message.java:232-234 | whether the stream has ended |
| Messages.Message.PrepareMessage | src/main/java/lsb/Message.java:257-263 | a message is rewound to read from its first bit |
| Messages.Message.NextBit | src/main/java/lsb/Message.java:137-156 | a StreamFinished error with nothing changed once finished; otherwise the next message bit, most significant first, one more bit read; finished exactly when all 8 * size bits are read |
| Messages.Message.SetNext | src/main/java/lsb/Message.java:169-197 | a StreamFinished error with nothing changed once finished; otherwise the bit is appended to those received; finished exactly when 8 * size + 8 bits are received |
| BitUtility.SetBitEffect | src/main/java/lsb/BitUtility.java:42-49 | for positions 0..7, setBit gives the addressed bit the new value and keeps the other seven |
| BitUtility.SetBitIdempotent | src/main/java/lsb/BitUtility.java:42-49 | setting the same bit twice is the same as setting it once |
| BitUtility.IntToByteArray | src/main/java/lsb/BitUtility.java:51-55 | four bytes, most significant first, that reassemble into the value |
| BitUtility.ByteArrayToInt | src/main/java/lsb/BitUtility.java:57-60 | the first four bytes read big-endian |
| BitUtility.IntBytesRoundTrip | src/main/java/lsb/BitUtility.java:51-60 | byteArrayToInt inverts intToByteArray |
| BitUtility.JavaDivRem | src/main/java/lsb/LsbImpl.java:236 | Java's truncating quotient and remainder rebuild the dividend, with the remainder taking the dividend's sign |
| Shots.PixelShot | src/main/java/lsb/Shot.java:30-32 | the two-argument shot has bit position 0 and layer 0 |
| ImageUtility.GetRed | src/main/java/lsb/ImageUtility.java:210-212 | a value below 256 whose bits are bits 16..23 of the pixel |
| ImageUtility.GetGreen | src/main/java/lsb/ImageUtility.java:221-223 | a value below 256 whose bits are bits 8..15 of the pixel |
| ImageUtility.GetBlue | src/main/java/lsb/ImageUtility.java:232-234 | a value below 256 whose bits are bits 0..7 of the pixel |
| ImageUtility.Clamp | src/main/java/lsb/ImageUtility.java:243-245 | the value limited to 0..255, unchanged inside that range |
| ImageUtility.ClampIdempotent | src/main/java/lsb/ImageUtility.java:243-245 | clamping twice is clamping once |
| FileUtility.GetFileFormat | src/main/java/lsb/FileUtility.java:111-121 | null for null; the text after the last '.' when that dot is past position 0; null when there is no dot or the only dot starts the name |
| FileUtility.GetFileNameWithoutFormat | src/main/java/lsb/FileUtility.java:130-137 | the name up to its last '.', or the whole name without a dot |
| FileUtility.GetFileName | src/main/java/lsb/FileUtility.java:146-153 | the part after the last separator, which contains no separator |
| FileUtility.GetDirectory | src/main/java/lsb/FileUtility.java:58-73 | null for null; a directory itself; otherwise the path before the last separator |
| FileUtility.FormatSplit | src/main/java/lsb/FileUtility.java:111-137 | name without format, a dot and the format put the file name back together |
| FileUtility.DirectorySplit | src/main/java/lsb/FileUtility.java:58-73 | directory, separator and file name put the path back together |

## Left out

- Colour conversion is not modelled. `getRGB` / `setRGB` are taken as exact on packed RGB cells, so the 15/16-bit and indexed colour models' conversions are absent. So is the high byte of 16-bit grey samples beyond what `StoreSample` keeps.
- Image and message file I/O, logging, the dialogs and the `LsbImpl(String[])` command-line entry point are left out. The file content reaches `Message.FromFile` as a parameter.
- Lsb.LsbImpl.Encode: the source ends by copying the image into a new `StegoImage`; the model returns the outcome and leaves the written raster in place.
- Lsb.LsbImpl.Encode: requires width * height < 2^26 and 8 * size + 32 < 2^31, so that no Java `int` product overflows. The source's behaviour on such overflow is not modelled.
- Lsb.LsbImpl.Encode: requires the message to be prepared for reading (as `prepareMessage` or the file constructor leave it).
- Lsb.LsbImpl.Encode: on a 15/16-bit packed type with the range above bit 4, the model states only the `IllegalArgument` outcome, not the bits written before the rejected shot.
- Lsb.LsbImpl.WriteNext: the loop body asks `nextBit` for the bit before it fetches the shot. The source does the opposite, and the two calls touch disjoint state.
- Lsb.LsbImpl.Decode: requires width * height < 2^26 for the same overflow reason.
- Messages.Message.FromBytes: the bit count and other cursor fields start as in the source; the model states the cursor, not a reading state, because the source needs `prepareMessage` before reading such a message.
- The per-iteration step methods (`ShotAt`, `WriteNext`, `WriteMessageBit`, `ReadSizeBit`, `ReadNext`, `ReadInto`, `FillColumn`) are split out of the source's single methods. They do what one loop pass does.

- Lsb.LsbImpl.Decode: assumes `new Message(size2)` succeeds for a non-negative size; the `OutOfMemoryError` that Message.java:84-93 turns into an `IOException`, and that LsbImpl.java:340-344 reports as "Could not create message", is not modelled.

Behaviour of the code that the model keeps:
- getNextShot stops only after the counter passes maxBits, not when it reaches it (`Sequencer.ShotPastEnd`).
- On 15/16-bit packed types, encode can fail after writing has begun.
- decode performs both size checks on wrapping 32-bit products, exactly as written (see Findings).

## Findings

| source | as written | input that shows it | evidently intended | confidence | as-written member | corrected member |
|---|---|---|---|---|---|---|
| src/main/java/lsb/LsbImpl.java:333 (also src/main/java/lsb/LsbDecoder.java:153-156) | `size2 * 8 + 32 > maxBits` is computed in 32-bit `int`, so `size2 * 8` wraps | recovered size 0x20000001 on an image with maxBits 48: `size2 * 8` wraps to 8, 40 <= 48, the check passes, and decode returns a message of 0x20000001 bytes of which only the first is read from the image | reject every size whose frame does not fit: 8 * size2 + 32 > maxBits in unbounded arithmetic | not executed | Frame.WrappedSizeAccepted, Frame.WrappedSizeOutcomes, Lsb.LsbImpl.Decode | Frame.IntendedCheckAgrees (Frame.SizeRejected; every frame that encode writes passes it and the as-written checks alike, which Lsb.LsbImpl.DecodeFramed and Lsb.LsbImpl.EncodeThenDecode rely on) |
