# puz-rs decoder, modelled in Dafny

puz-rs reads `.puz` crossword files. Its core is a decoder built from nom
parser combinators. In one forward pass it turns a byte buffer into a
`PuzFile` record:

- the bytes before the header (`pre_bytes`);
- a fixed 52-byte header: checksums, the `ACROSS&DOWN\0` marker, version,
  reserved blocks, grid width and height, clue count, bitmask and
  scrambled tag;
- the body: the solution and the player grid (each `width * height` cells),
  title, author, copyright, exactly `num_clues` clues and the notes, all
  NUL-terminated;
- every remaining byte (`post_bytes`).

The project has four modules:

- `Nom` (nom.dfy): bytes (`Byte`, 0..255) and 16-bit words (`U16`).
  - nom's `IResult` becomes `Done(rest, value) | Incomplete | Error(kind)`,
    and stages chain with `:-`.
  - It also holds the primitives `le_u8`, `le_u16`, `take!` and `tag!`,
    and the byte-to-character mapping `x as char`.
- `Scanner` (scanner.dfy): `pre_bytes_parser`.
  - `PreBytesParser` is the function that specifies it.
  - `ScanPreBytes` is the source's loop over the 12-byte windows, proved
    equal to that function.
- `Fields` (fields.dfy): `nul_terminated_string`, `version_parser`,
  `grid_parser`, `post_bytes_parser` and `count!(nul_terminated_string, n)`.
- `Puz` (puz.dfy): the `PuzFile` record and `full`.
  - `full` is one flat `chain!` in the source. The model writes it as the
    scanner, then `HeaderParser` (three sub-chains for offsets 0–24, 24–44
    and 44–52), then `BodyParser`, then the tail. The stages and their
    order are unchanged, and the first stage that does not succeed is
    still the result.

Every parser is specified against the bytes its value occupies on disk:

- `CString` and `CStrings` give the bytes of text fields.
- `HeaderLayout` and `BodyLayout` give the bytes of the header and body.
- `Layout(p, pad)` gives the bytes of a whole file holding document `p`.
  `pad` is the fourth version byte, which the decoder drops.

For the decoder as a whole:

- `FullSound`: decoding succeeds only on such a layout.
- `FullComplete`: every well-formed document decodes back from its layout.

Facts about the source that the model relies on:

- The marker is 12 bytes: the 11 characters of `ACROSS&DOWN` and a zero
  byte. So the header from `file_checksum` through `scrambled_tag` is 52
  bytes (0x34).
- A buffer of at most 12 bytes gives `Custom(1)`, because the offset check
  (src/main.rs:66) comes before the not-found check (src/main.rs:71).
- The header's marker re-check can never fail after the scan has succeeded
  (`Puz.MagicRecheck`).
- The source is written against nom 1.x (`chain!`, `IResult::Done`,
  `Err::Code`), and failures are reported in that release's terms:
  - `ErrorKind::Custom(1)`: the marker is at offset 0 or 1, or the buffer
    is at most 12 bytes long.
  - `ErrorKind::Custom(2)`: the buffer is longer but holds no marker.
  - `Incomplete`: a fixed-size field cut short, or a text field that meets
    an empty buffer.
  - `ErrorKind::TakeUntil`: a text field that meets a non-empty buffer with
    no zero byte.
  - `ErrorKind::Count`: any clue that is rejected rejects the clue list.
  - `ErrorKind::Tag` (`TagMismatch` here): a marker that does not match; inside `full` this
    cannot happen after a successful scan.

## Model

| member | source | states |
|---|---|---|
| Nom.U16Bytes | src/main.rs:110 | the two on-disk bytes of a word, low byte first: `b0 + 256 * b1` is the word |
| Nom.LeU8 | src/main.rs:119-120 | `le_u8` succeeds iff a byte is left, returns that byte and leaves the rest; otherwise Incomplete |
| Nom.LeU16 | src/main.rs:110 | `le_u16` succeeds iff two bytes are left; the input is the value's little-endian bytes followed by the rest; otherwise Incomplete |
| Nom.LeU16RoundTrip | src/main.rs:110 | every word is read back from its two bytes, whatever follows |
| Nom.Take | src/main.rs:113-114 | `take!(n)` succeeds iff at least n bytes are left; the value has exactly n bytes and value + rest is the input; otherwise Incomplete |
| Nom.TakeRoundTrip | src/main.rs:113-118 | `take!` returns exactly the bytes it is laid over |
| Nom.Tag | src/main.rs:111 | `tag!(t)` succeeds iff the input starts with t, and consumes exactly t; a shorter input is Incomplete; it is a tag error iff at least \|t\| bytes are left and they are not t |
| Nom.TagRoundTrip | src/main.rs:111 | `tag!(t)` accepts t whatever follows it |
| Nom.Latin1 | src/main.rs:48 | `x as char` on each byte: same length, and each character's code is its byte |
| Nom.Latin1Bytes | src/main.rs:48 | the inverse of the byte-to-char mapping on single-byte strings |
| Scanner.Magic | src/main.rs:9 | the marker: the eleven ASCII bytes of `ACROSS&DOWN` and a zero byte, 12 bytes in all |
| Scanner.WindowCount | src/main.rs:57 | `windows(12)` yields no window on a buffer shorter than 12 bytes; otherwise one per offset, the last ending at the end of the buffer |
| Scanner.FirstMarkerFrom | src/main.rs:57-63 | the first window at or after i that holds the marker, or the window count; no window in between holds it |
| Scanner.PreBytesParser | src/main.rs:53-77 | on success: pre_bytes + remainder is the input, the marker starts two bytes into the remainder, and no earlier offset holds it. A marker at offset 0 or 1, or a buffer of at most 12 bytes, gives Custom(1). A longer buffer with no marker gives Custom(2). Never Incomplete |
| Scanner.ScanFindsFirstMarker | src/main.rs:55-76 | when the first marker is at offset i ≥ 2, the buffer is split at i − 2 |
| Scanner.ScanPreBytes | src/main.rs:53-77 | the windows loop with its early break returns exactly what `PreBytesParser` specifies, error codes included |
| Fields.CString | src/main.rs:44-51 | a text field occupies its characters' bytes and then one zero byte, with no zero byte before the last |
| Fields.IndexOfNul | src/main.rs:46 | the offset of the first zero byte, or the length when there is none |
| Fields.TakeUntilNul | src/main.rs:46 | `take_until!("\0")` succeeds iff the input holds a zero byte; the value holds no zero byte and the rest starts with it; it is Incomplete iff the input is empty, and otherwise a `TakeUntil` error |
| Fields.NulTerminatedString | src/main.rs:44-51 | succeeds iff the input holds a zero byte; the value is a NUL-free single-byte string, and its bytes, the terminator and the rest make up the input; Incomplete iff the input is empty; any error is of kind `TakeUntil` |
| Fields.NulTerminatedStringLayout | src/main.rs:46-49 | the bytes before the terminator, mapped to characters, lay out as exactly the bytes consumed |
| Fields.CStringOfBytes | src/main.rs:46-49 | NUL-free bytes decode to a text field whose layout is those bytes and a zero |
| Fields.NulTerminatedStringRoundTrip | src/main.rs:44-51 | every NUL-free string is read back from its terminated layout, whatever follows |
| Fields.VersionParser | src/main.rs:79-86 | succeeds iff four bytes are left; the version is the first three, as characters; the fourth is consumed and dropped |
| Fields.VersionRoundTrip | src/main.rs:79-86 | every three-character version is read back whatever the fourth byte |
| Fields.GridParser | src/main.rs:88-96 | succeeds iff `size` bytes are left; exactly `size` cells, each equal to its byte, followed by the rest; otherwise Incomplete |
| Fields.GridRoundTrip | src/main.rs:88-96 | every single-byte grid is read back from its bytes |
| Fields.PostBytesParser | src/main.rs:98-101 | always succeeds, keeps every byte and leaves nothing |
| Fields.CountStrings | src/main.rs:131 | on success, exactly n NUL-free fields in file order, whose layouts followed by the rest make up the input; any error is of kind `Count`; with n > 0, an empty input is Incomplete and a non-empty input with no zero byte is a `Count` error |
| Fields.CStringsCons | src/main.rs:131 | the first clue's layout comes before the others' |
| Fields.CStringsLayout | src/main.rs:131 | a field in front of a list of fields lays out as the longer list |
| Fields.CountStringsField | src/main.rs:131 | `count!` reads one more field when one more stands in front |
| Fields.CountStringsRoundTrip | src/main.rs:131 | every list of fields is read back from its layout with the count equal to its length |
| Puz.HeaderLayout | src/main.rs:110-123 | a header and what follows it: 52 bytes, then the tail |
| Puz.HeaderOffsets | src/main.rs:110-123 | every header field is at its fixed offset: file checksum 0, marker 2, base checksum 14, masked checksums 16 and 20, version 24 (pad 27), reserved 28, scrambled checksum 30, reserved 32, width 44, height 45, clue count 46, bitmask 48, scrambled tag 50 |
| Puz.ChecksumFields | src/main.rs:110-114 | offsets 0–24: succeeds iff 24 bytes are left and the marker follows the checksum; a wrong marker is the only error; the fields lay out as the input |
| Puz.VersionFields | src/main.rs:115-118 | offsets 24–44: succeeds iff 20 bytes are left; the fields have their widths and lay out as the input |
| Puz.SizeFields | src/main.rs:119-123 | offsets 44–52: succeeds iff 8 bytes are left; the fields lay out as the input |
| Puz.PuzFile | src/main.rs:12-42 | the decoded record: the bytes before the header, the header, the body and the bytes after it |
| Puz.Header | src/main.rs:16-29 | the 13 header fields in file order, with their widths |
| Puz.Body | src/main.rs:31-38 | the two grids, title, author, copyright, clue list and notes |
| Puz.GridSize | src/main.rs:126-127 | cells per grid: at most 255 · 255, so the `usize` product never wraps; zero iff the width or the height is zero |
| Puz.HeaderParser | src/main.rs:110-123 | succeeds iff 52 bytes are left and bytes 2–14 are the marker, with no value range-checked; a wrong marker is the only error; the fields have their widths and 52 bytes are consumed |
| Puz.HeaderParserLayout | src/main.rs:110-123 | the input of a successful header parse is the header's layout, with the fourth version byte as read, followed by the rest |
| Puz.ChecksumFieldsRoundTrip | src/main.rs:110-114 | the checksum fields are read back from their bytes |
| Puz.VersionFieldsRoundTrip | src/main.rs:115-118 | the version and reserved fields are read back, whatever the pad byte |
| Puz.SizeFieldsRoundTrip | src/main.rs:119-123 | the size fields are read back from their bytes |
| Puz.HeaderRoundTrip | src/main.rs:110-123 | every well-formed header is read back from its layout |
| Puz.HeaderDimensions | src/main.rs:119-120 | width and height are bytes 44 and 45 of the header, and the body starts at byte 52 |
| Puz.BodyParser | src/main.rs:126-132 | on success, both grids have `width * height` cells, there are exactly `num_clues` clues, no text field holds a NUL, and the input is the body's layout followed by the rest. An input shorter than the two grids is Incomplete; any error is of kind `TakeUntil` or `Count` |
| Puz.GridFields | src/main.rs:126-127 | succeeds iff both grids fit; each has exactly `cells` cells and together they lay out as the input; otherwise Incomplete |
| Puz.NameFields | src/main.rs:128-130 | on success the title, author and copyright are NUL-free fields laid out one after another; an empty input is Incomplete; a non-empty input with no zero byte is a `TakeUntil` error, the only kind it reports |
| Puz.BodyRoundTrip | src/main.rs:126-132 | every body that fits its header is read back from its layout |
| Puz.BodyUnterminatedTitle | src/main.rs:126-128 | complete grids followed by no zero byte stop the body at the title: Incomplete if nothing follows the grids, otherwise a `TakeUntil` error |
| Puz.Full | src/main.rs:104-170 | on success nothing is left unconsumed and the document is well formed: the header fields have their widths, both grids have `width * height` cells, there are `num_clues` clues, and the text fields are NUL-free |
| Puz.MagicRecheck | src/main.rs:110-111 | after a successful scan, the header's marker re-check always passes |
| Puz.FullSound | src/main.rs:104-170 | on success, the input is exactly the layout of the decoded document. The header is at the first marker, and the dropped fourth version byte is the only byte not kept |
| Puz.FullComplete | src/main.rs:104-170 | every well-formed document whose header is at the first marker decodes from its layout to itself, whatever the dropped version byte |
| Puz.FullFailures | src/main.rs:104-170 | a scanner error is the result, with its code; `full` fails with a `Custom` code iff the scanner fails; it never reports a tag error; a scan followed by fewer than 52 bytes is Incomplete |
| Puz.FullErrorsAfterScan | src/main.rs:104-170 | after a successful scan every error of `full` comes from a text field: kind `TakeUntil` or `Count` |
| Puz.FullBodyFailure | src/main.rs:125-133 | once scanner and header succeed, a body that fails is the result of the whole decode, Incomplete or with the body's error kind: no partial document |
| Puz.FullUnterminatedTitle | src/main.rs:126-132 | a file whose header and grids are complete but with no zero byte after the grids fails at the title: Incomplete if it ends right after the grids, otherwise a `TakeUntil` error |
| Puz.MinimalFileLocatesHeader | src/main.rs:53-77 | the minimal example file's marker is its first one |
| Puz.MinimalFileLayout | src/main.rs:104-170 | the minimal example file's bytes are the layout of its document |
| Puz.MinimalFileDecodes | src/main.rs:104-170 | the example decodes as follows: checksum 0xCDAB, version "1.3", a 2-by-1 grid with solution "AB" and grid "CD", no clues, empty text fields, nothing after them |

## Left out

- `main` (src/main.rs:181-193): reads a file and unwraps the results. This is I/O glue.
- `print_grid` (src/main.rs:172-179): prints to the terminal. It indexes cells as `row*height + col` instead of `row*width + col`, which is wrong for grids that are not square. It is not modelled, and the model keeps grids as flat row-major sequences with stride `width`.
- Checksum verification, descrambling and encoding: the source has none of them.
- nom's `Needed` sizes in `Incomplete` and the input positions carried by errors: `Incomplete` carries nothing here, and an error carries only its kind.
- The nom release: the model follows nom 1.x for `tag!`, `take_until!` and `count!`, as the source's API (`chain!`, `IResult::Done`, `Err::Code`) indicates; nom's own source is not part of this model.
- Borrowed slices: `pre_bytes`, `post_bytes` and the reserved fields are views into the input buffer in the source and copies here. Aliasing and lifetimes are not modelled.
- Characters: `x as char` is modelled as a character whose code is the byte (below 256). Rust's `String` UTF-8 storage is not modelled.
