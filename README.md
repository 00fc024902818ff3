# data_dispatcher: the string-table patch decoder

This project models the decoder in `crates/data_dispatcher/src/main.rs` of
imojiru_tools. The decoder reads a legacy `.arc` string-table patch from an
in-memory buffer with a `std::io::Cursor`. First comes a 16-byte
`MagicHeader`: 8 marker bytes, a little-endian `item_count` and an opaque
little-endian "magic number". Then come `item_count` records of type
`StringTableItem`, packed back to back. Each record has a little-endian
`id`, a one-byte `length`, and a reserved length-extension byte that an
`assert_eq!` requires to be zero. It ends with `length` text bytes, which
are complemented bit by bit and then handed to a Shift-JIS decoder.

The model has four modules:

- `Bytes` (bytes.dfy): `u8` and `u32` as newtypes, `u32::from_le_bytes`,
  `!` on a byte, and the in-place complement loop over the text
  (`ComplementInPlace`, an `array` method).
- `IoCursor` (cursor.dfy): the cursor as a class with the buffer and a
  mutable position. `read_exact` is a method that copies into an `array`.
- `Layout` (layout.dfy): the reference definitions as pure functions over
  the buffer and an offset. `ParseHeader`, `ParseItem`, `ParseItems` (`k`
  items back to back) and `Decode` (the whole run of `main`) are defined
  here. The lemmas state the decoded fields, the failure cases, the
  round trips, and the shape of the item run.
- `Dispatcher` (dispatcher.dfy): `MagicHeader::deserialize`,
  `StringTableItem::deserialize` and the loop in `main`, as imperative
  methods over one shared `Cursor`. Each is proved equal to its `Layout`
  function, along with the exact cursor position it leaves behind.

Each way a deserializer can end is a value of `Outcome`:

- `Ok`;
- `Err(UnexpectedEof)`, which is what `?` propagates from a short
  `read_exact`;
- `Panic(b)`, which is the `assert_eq!` on the extension byte failing with
  byte `b`.

What `main` writes out is a `Transcript`. It holds the header once it is
decoded, every item decoded before the run stopped (each was already
printed when the next one failed) and how the run ended.

The image functions `HeaderImage`, `ItemImage` and `TableImage` build the
bytes that decode to given values. They exist only to state round trips.
The program itself never encodes anything.

The comments at main.rs:87, main.rs:123 and main.rs:127 speak of alignment
padding after the text. The code reads exactly `length` bytes
(main.rs:128-129) and skips nothing, and the model follows the code: the
next item starts right after the text.

Decoding starts at offset 0 (main.rs:149-150). The 8 marker bytes are read
into `header` (main.rs:55) and never compared with anything.

## Model

| member | source | states |
|---|---|---|
| Bytes.LeU32OfU32Le | crates/data_dispatcher/src/main.rs:58-60 | reading back the four little-endian bytes of any u32 gives that u32 |
| Bytes.U32LeOfLeU32 | crates/data_dispatcher/src/main.rs:107-109 | any four bytes are the little-endian encoding of the u32 they decode to, so `from_le_bytes` loses nothing |
| Bytes.NotIsBitwise | crates/data_dispatcher/src/main.rs:130 | `Not` flips each of the eight bits of a byte, as Rust's `!` on `u8` does |
| Bytes.ComplementInvolution | crates/data_dispatcher/src/main.rs:126-130 | complementing the text twice gives back the stored bytes |
| Bytes.ComplementInjective | crates/data_dispatcher/src/main.rs:130 | two stored texts with the same complement are equal |
| Bytes.TerminatorSignatures | crates/data_dispatcher/src/main.rs:91-94 | stored `0xF5 0xFF` complements to line feed and NUL, and `0xFF 0xFF` to two NULs |
| Bytes.ComplementInPlace | crates/data_dispatcher/src/main.rs:130 | after the loop the array holds the complement of its old contents, element by element and with the same length |
| IoCursor.Cursor.constructor | crates/data_dispatcher/src/main.rs:149 | a new cursor owns the buffer and is at position 0 |
| IoCursor.Cursor.ReadExact | crates/data_dispatcher/src/main.rs:55-64 | succeeds exactly when enough bytes remain; then it fills the buffer with the next bytes and advances by its length; otherwise it leaves the buffer unchanged and moves the position to the end |
| Layout.ParseItem | crates/data_dispatcher/src/main.rs:103-135 | a decoded item lies entirely inside the buffer |
| Layout.HeaderFields | crates/data_dispatcher/src/main.rs:30-68 | the header decodes exactly when 16 bytes remain and fails with EOF exactly when fewer do; its marker is bytes 0-7, its count the LE u32 of bytes 8-11, its magic number the LE u32 of bytes 12-15 |
| Layout.HeaderRoundTrip | crates/data_dispatcher/src/main.rs:50-68 | the header decoded at `p` is `h` if and only if the 16 bytes at `p` are the image of `h` |
| Layout.ShortHeaderFails | crates/data_dispatcher/src/main.rs:50-68 | a buffer shorter than 16 bytes yields no header, no items and the EOF error |
| Layout.ItemFields | crates/data_dispatcher/src/main.rs:107-132 | a decoded item has the LE u32 of bytes 0-3 as id, byte 4 as length and a zero byte 5; it ends 6 + length bytes on with no padding; its text is the complement of the length bytes after the fixed fields, of that same length |
| Layout.ItemFailures | crates/data_dispatcher/src/main.rs:107-129 | fewer than 6 bytes is EOF; a non-zero byte 5 then panics with that byte, even when the text is truncated; a zero byte 5 with fewer than 6 + length bytes is EOF; success exactly when none of these holds |
| Layout.ItemRoundTrip | crates/data_dispatcher/src/main.rs:103-135 | an item image decodes back to its id, its length and its text, whatever follows it |
| Layout.ItemImageOfParse | crates/data_dispatcher/src/main.rs:103-135 | every decoded item is the image of its id and its text, so decoding loses no byte it read |
| Layout.ItemExample | crates/data_dispatcher/src/main.rs:126-132 | bytes 01 00 00 00 02 00 BE BD decode to id 1, length 2, text 0x41 0x42 ("AB") |
| Layout.TerminatedItemExample | crates/data_dispatcher/src/main.rs:91-94 | a stored text ending in F5 FF decodes to text ending in line feed and NUL |
| Layout.EmptyItemExample | crates/data_dispatcher/src/main.rs:128-130 | an item of length 0 decodes to an empty text and ignores the bytes after its six fixed ones |
| Layout.ReservedByteExample | crates/data_dispatcher/src/main.rs:117-121 | a non-zero extension byte panics even though the announced text is missing |
| Layout.ItemsSnoc | crates/data_dispatcher/src/main.rs:153-156 | after `k` successful items, the run of `k + 1` is the same run extended by the item read at its end offset, or stopped by that item's failure |
| Layout.ItemsAfterStop | crates/data_dispatcher/src/main.rs:153-156 | once a run has failed, asking for more items changes neither the items nor the failure |
| Layout.ItemsCount | crates/data_dispatcher/src/main.rs:153-156 | a run stays within the buffer; a successful run has exactly `k` items and ends right after them |
| Layout.ItemsLaidOut | crates/data_dispatcher/src/main.rs:153-156 | the items of a run are the items decoded back to back from its start, in buffer order |
| Layout.ItemsStop | crates/data_dispatcher/src/main.rs:153-156 | a failed run has fewer than `k` items, and the item right after them fails with the reported failure |
| Layout.ItemsOfImages | crates/data_dispatcher/src/main.rs:153-156 | item images found one after another decode back to their items, in order, and the run ends right after the last one |
| Layout.ItemsRoundTrip | crates/data_dispatcher/src/main.rs:153-156 | a table image decodes back to its items, in order, ending right after the image |
| Layout.DecodeSuccess | crates/data_dispatcher/src/main.rs:149-158 | a successful run has a header read from offset 0 and exactly `item_count` items, laid out back to back from offset 16 inside the buffer |
| Layout.DecodeFailure | crates/data_dispatcher/src/main.rs:149-158 | a run that fails after the header has fewer than `item_count` items, laid out from offset 16, and the item right after them is the one whose failure ends `main` |
| Layout.DecodeImage | crates/data_dispatcher/src/main.rs:149-158 | a buffer starting with a header image and `item_count` item images decodes to that header, those items and success |
| Layout.DecodeRoundTrip | crates/data_dispatcher/src/main.rs:149-158 | a header image, `item_count` item images and any trailing bytes decode to that header, those items and success |
| Dispatcher.DeserializeMagicHeader | crates/data_dispatcher/src/main.rs:50-68 | returns exactly ParseHeader at the old position; on success the cursor is 16 bytes further on, after a short read it is at the end |
| Dispatcher.DeserializeStringTableItem | crates/data_dispatcher/src/main.rs:103-135 | returns exactly ParseItem at the old position; the cursor ends past the text on success, past the extension byte on the panic, at the end after a short read |
| Dispatcher.DecodePatch | crates/data_dispatcher/src/main.rs:149-158 | the transcript of the header read and the `item_count` loop over one cursor equals Decode of the buffer |

## Left out

- Command-line parsing, opening, reading and creating files, the `{:#?}`
  printing and the `BufWriter` (main.rs:11-21, 139-147, 151, 155): I/O. The
  buffer is a parameter, and the transcript stands for what is printed.
- Decoding the text with `encoding_rs` (main.rs:131-132): a foreign,
  lossy library call. `StringTableItem.data` holds the complemented bytes
  handed to `SHIFT_JIS.decode`, not the `String` it returns. That call is
  more than Shift-JIS decoding: `Encoding::decode` first sniffs for a
  byte-order mark, so complemented text starting with EF BB BF, FF FE or
  FE FF is decoded as UTF-8, UTF-16LE or UTF-16BE instead. main.rs:131
  discards the encoding it reports. None of this is modelled.
- crates/utils/src/lib.rs (`IntoAnyResult`): an adapter over `anyhow` with
  no logic. It is not part of this model.
- `anyhow` error values: the only error an in-memory cursor reports is
  `UnexpectedEof`, which stands for the propagated error.
- The panic is modelled as an outcome that ends the decode. Unwinding and
  the process exit status are not modelled.
- Which bytes of the buffer a failed `read_exact` has already copied: the
  model leaves the buffer unchanged and puts the position at the end, as
  the standard cursor does. No caller uses either after the error.
- Marker search, name tables, file-name tables, padding and re-encoding:
  the source has no code for them.
