/** The decoded `.puz` document (`PuzFile`) and the decoder `full`. The
    decoder chains, in one forward pass, the scanner, the fixed 52-byte
    header, the body (two grids, the text fields and the clue list) and
    the opaque tail. `Layout` gives the bytes of a file holding a given
    document, and the decoder is proved to accept exactly such files. */
module Puz {
  import opened Nom
  import opened Scanner
  import opened Fields

  /** The fields of the file header, in file order (the marker between the
      file checksum and the base checksum is checked and not kept). */
  datatype Header = Header(
    fileChecksum: U16,
    baseChecksum: U16,
    maskedLowChecksums: seq<Byte>,
    maskedHighChecksums: seq<Byte>,
    version: string,
    reserved1c: seq<Byte>,
    scrambledChecksum: U16,
    reserved20: seq<Byte>,
    width: Byte,
    height: Byte,
    numClues: U16,
    unknownBitmask: U16,
    scrambledTag: U16)

  /** The fields of the file body, in file order. */
  datatype Body = Body(
    solution: seq<char>,
    grid: seq<char>,
    title: string,
    author: string,
    copyright: string,
    clues: seq<string>,
    notes: string)

  /** A decoded puzzle: the bytes before the file checksum, the header, the
      body and the bytes after the notes. Byte slices the source borrows from
      the input are copies here; checksum and reserved fields are kept
      uninterpreted. */
  datatype PuzFile = PuzFile(preBytes: seq<Byte>, header: Header, body: Body, postBytes: seq<Byte>)

  /** Cells in a grid: width times height, multiplied as machine words; the
      product of two bytes is at most 65025, so it never wraps. */
  function GridSize(width: Byte, height: Byte): (n: nat)
    ensures n <= 0xFF * 0xFF
    ensures n == 0 <==> width == 0 || height == 0
  {
    width as int * height as int
  }

  /** Opaque header fields have their on-disk widths and the version has three single-byte characters. */
  predicate HeaderWellFormed(h: Header) {
    && |h.maskedLowChecksums| == 4
    && |h.maskedHighChecksums| == 4
    && |h.version| == 3 && IsLatin1(h.version)
    && |h.reserved1c| == 2
    && |h.reserved20| == 12
  }

  /** Grid cells are single-byte characters and no text field holds a NUL. */
  predicate BodyText(b: Body) {
    && IsLatin1(b.solution) && IsLatin1(b.grid)
    && IsField(b.title) && IsField(b.author) && IsField(b.copyright)
    && AllFields(b.clues) && IsField(b.notes)
  }

  /** The body agrees with the header: both grids have `width * height`
      cells and there are exactly `numClues` clues. */
  predicate BodyFits(b: Body, width: Byte, height: Byte, numClues: U16) {
    && BodyText(b)
    && |b.solution| == GridSize(width, height)
    && |b.grid| == GridSize(width, height)
    && |b.clues| == numClues
  }

  /** The shape of every decoded document: the header's opaque fields have
      their widths and the body agrees with the header. */
  predicate WellFormed(p: PuzFile) {
    HeaderWellFormed(p.header) && BodyFits(p.body, p.header.width, p.header.height, p.header.numClues)
  }

  /** The header, from the file checksum through `scrambled_tag`, followed by
      `tail`. `pad` is the fourth version byte, which the decoder drops. The
      header is 52 bytes (0x34). */
  ghost function HeaderLayout(h: Header, pad: Byte, tail: seq<Byte>): (bs: seq<Byte>)
    requires HeaderWellFormed(h)
    ensures |bs| == 52 + |tail| && bs[52..] == tail
  {
    U16Bytes(h.fileChecksum) +
    (Magic +
    (U16Bytes(h.baseChecksum) +
    (h.maskedLowChecksums +
    (h.maskedHighChecksums +
    (Latin1Bytes(h.version) + ([pad] +
    (h.reserved1c +
    (U16Bytes(h.scrambledChecksum) +
    (h.reserved20 +
    ([h.width] +
    ([h.height] +
    (U16Bytes(h.numClues) +
    (U16Bytes(h.unknownBitmask) +
    (U16Bytes(h.scrambledTag) +
    tail))))))))))))))
  }

  /** `bs` holds `piece` at offset `at`. */
  lemma PieceAt(bs: seq<Byte>, at: nat, piece: seq<Byte>, rest: seq<Byte>)
    requires at <= |bs| && bs[at..] == piece + rest
    ensures at + |piece| <= |bs| && bs[at..at + |piece|] == piece && bs[at + |piece|..] == rest
  {
    assert bs[at..at + |piece|] == bs[at..][..|piece|];
  }

  /** Every header field sits at its fixed offset, as in the standard header table. */
  lemma HeaderOffsets(h: Header, pad: Byte, tail: seq<Byte>)
    requires HeaderWellFormed(h)
    ensures var bs := HeaderLayout(h, pad, tail);
      && bs[0..2] == U16Bytes(h.fileChecksum)
      && bs[2..14] == Magic
      && bs[..14] == U16Bytes(h.fileChecksum) + Magic
      && bs[14..16] == U16Bytes(h.baseChecksum)
      && bs[16..20] == h.maskedLowChecksums
      && bs[20..24] == h.maskedHighChecksums
      && bs[24..27] == Latin1Bytes(h.version) && bs[27] == pad
      && bs[28..30] == h.reserved1c
      && bs[30..32] == U16Bytes(h.scrambledChecksum)
      && bs[32..44] == h.reserved20
      && bs[44] == h.width && bs[45] == h.height
      && bs[46..48] == U16Bytes(h.numClues)
      && bs[48..50] == U16Bytes(h.unknownBitmask)
      && bs[50..52] == U16Bytes(h.scrambledTag)
  {
    var bs := HeaderLayout(h, pad, tail);
    var at50 := U16Bytes(h.scrambledTag) + tail;
    var at48 := U16Bytes(h.unknownBitmask) + at50;
    var at46 := U16Bytes(h.numClues) + at48;
    var at44 := [h.width] + ([h.height] + at46);
    var at32 := h.reserved20 + at44;
    var at30 := U16Bytes(h.scrambledChecksum) + at32;
    var at28 := h.reserved1c + at30;
    var at24 := Latin1Bytes(h.version) + ([pad] + at28);
    var at20 := h.maskedHighChecksums + at24;
    var at16 := h.maskedLowChecksums + at20;
    var at14 := U16Bytes(h.baseChecksum) + at16;
    var at2 := Magic + at14;
    PieceAt(bs, 0, U16Bytes(h.fileChecksum), at2);
    PieceAt(bs, 2, Magic, at14);
    PieceAt(bs, 14, U16Bytes(h.baseChecksum), at16);
    PieceAt(bs, 16, h.maskedLowChecksums, at20);
    PieceAt(bs, 20, h.maskedHighChecksums, at24);
    PieceAt(bs, 24, Latin1Bytes(h.version), [pad] + at28);
    PieceAt(bs, 28, h.reserved1c, at30);
    PieceAt(bs, 30, U16Bytes(h.scrambledChecksum), at32);
    PieceAt(bs, 32, h.reserved20, at44);
    PieceAt(bs, 46, U16Bytes(h.numClues), at48);
    PieceAt(bs, 48, U16Bytes(h.unknownBitmask), at50);
    PieceAt(bs, 50, U16Bytes(h.scrambledTag), tail);
    assert bs[..14] == bs[0..2] + bs[2..14];
  }

  /** Header fields at offsets 0 to 24: the file checksum, the marker
      (checked, not kept), the base checksum and the two masked checksum blocks. */
  function ChecksumFields(s: seq<Byte>): (r: IResult<(U16, U16, seq<Byte>, seq<Byte>)>)
    ensures r.Done? ==> |r.value.2| == 4 && |r.value.3| == 4
    ensures r.Done? ==> s == U16Bytes(r.value.0) + (Magic + (U16Bytes(r.value.1) + (r.value.2 + (r.value.3 + r.rest))))
    ensures r.Done? <==> 24 <= |s| && s[2..14] == Magic
    ensures r.Error? <==> 14 <= |s| && s[2..14] != Magic
    ensures r.Error? ==> r.kind == TagMismatch
  {
    var fileChecksum :- LeU16(s);
    var magic :- Tag(Magic, fileChecksum.rest);
    var baseChecksum :- LeU16(magic.rest);
    var maskedLowChecksums :- Take(baseChecksum.rest, 4);
    var maskedHighChecksums :- Take(maskedLowChecksums.rest, 4);
    Done(maskedHighChecksums.rest,
      (fileChecksum.value, baseChecksum.value, maskedLowChecksums.value, maskedHighChecksums.value))
  }

  /** Header fields at offsets 24 to 44: the version, the first reserved
      block, the scrambled checksum and the second reserved block. */
  function VersionFields(s: seq<Byte>): (r: IResult<(string, seq<Byte>, U16, seq<Byte>)>)
    ensures r.Done? <==> 20 <= |s|
    ensures r.Done? ==> |r.value.0| == 3 && IsLatin1(r.value.0) && |r.value.1| == 2 && |r.value.3| == 12
    ensures r.Done? ==> s == Latin1Bytes(r.value.0) + ([s[3]] + (r.value.1 + (U16Bytes(r.value.2) + (r.value.3 + r.rest))))
    ensures !r.Done? ==> r == Incomplete
  {
    var version :- VersionParser(s);
    var reserved1c :- Take(version.rest, 2);
    var scrambledChecksum :- LeU16(reserved1c.rest);
    var reserved20 :- Take(scrambledChecksum.rest, 12);
    Done(reserved20.rest, (version.value, reserved1c.value, scrambledChecksum.value, reserved20.value))
  }

  /** Header fields at offsets 44 to 52: the grid dimensions, the clue count,
      the bitmask and the scrambled tag. */
  function SizeFields(s: seq<Byte>): (r: IResult<(Byte, Byte, U16, U16, U16)>)
    ensures r.Done? ==> s == [r.value.0] + ([r.value.1] + (U16Bytes(r.value.2) + (U16Bytes(r.value.3) + (U16Bytes(r.value.4) + r.rest))))
    ensures r.Done? <==> 8 <= |s|
    ensures !r.Done? ==> r == Incomplete
  {
    var width :- LeU8(s);
    var height :- LeU8(width.rest);
    var numClues :- LeU16(height.rest);
    var unknownBitmask :- LeU16(numClues.rest);
    var scrambledTag :- LeU16(unknownBitmask.rest);
    Done(scrambledTag.rest, (width.value, height.value, numClues.value, unknownBitmask.value, scrambledTag.value))
  }

  /** The header part of `full`'s chain (offsets 0 to 52). It fails only on a
      short buffer or when the marker is not right after the file checksum;
      no field value is range-checked. */
  function HeaderParser(s: seq<Byte>): (r: IResult<Header>)
    ensures r.Done? <==> 52 <= |s| && s[2..14] == Magic
    ensures r.Error? <==> 14 <= |s| && s[2..14] != Magic
    ensures r.Error? ==> r.kind == TagMismatch
    ensures r.Done? ==> HeaderWellFormed(r.value) && |r.rest| == |s| - 52
  {
    var checksums :- ChecksumFields(s);
    var versions :- VersionFields(checksums.rest);
    var sizes :- SizeFields(versions.rest);
    var (fileChecksum, baseChecksum, maskedLowChecksums, maskedHighChecksums) := checksums.value;
    var (version, reserved1c, scrambledChecksum, reserved20) := versions.value;
    var (width, height, numClues, unknownBitmask, scrambledTag) := sizes.value;
    Done(sizes.rest, Header(
      fileChecksum, baseChecksum, maskedLowChecksums, maskedHighChecksums,
      version, reserved1c, scrambledChecksum, reserved20,
      width, height, numClues, unknownBitmask, scrambledTag))
  }

  /** What the header parser consumed is the layout of the header it
      returns, with the fourth version byte as it was read. */
  lemma HeaderParserLayout(s: seq<Byte>)
    requires HeaderParser(s).Done?
    ensures s == HeaderLayout(HeaderParser(s).value, s[27], HeaderParser(s).rest)
  {
  }

  /** The body followed by `tail`: both grids, the title, author and
      copyright with their terminators, the clues in order, then the notes. */
  ghost function BodyLayout(b: Body, tail: seq<Byte>): seq<Byte>
    requires BodyText(b)
  {
    Latin1Bytes(b.solution) +
    (Latin1Bytes(b.grid) +
    (CString(b.title) +
    (CString(b.author) +
    (CString(b.copyright) +
    (CStrings(b.clues) +
    (CString(b.notes) +
    tail))))))
  }

  /** The body part of `full`'s chain. Both grids take `width * height`
      bytes, and the clue list takes exactly `numClues` text fields. Grids
      cut short are Incomplete; only a text field can reject the body. */
  function BodyParser(s: seq<Byte>, width: Byte, height: Byte, numClues: U16): (r: IResult<Body>)
    ensures r.Done? ==> BodyFits(r.value, width, height, numClues) && s == BodyLayout(r.value, r.rest)
    ensures |s| < 2 * GridSize(width, height) ==> r == Incomplete
    ensures r.Error? ==> r.kind == TakeUntil || r.kind == Count
  {
    match GridFields(s, GridSize(width, height))
    case Incomplete => Incomplete
    case Error(kind) => Error(kind)
    case Done(afterGrids, grids) =>
      match NameFields(afterGrids)
      case Incomplete => Incomplete
      case Error(kind) => Error(kind)
      case Done(afterNames, names) =>
        match CountStrings(afterNames, numClues)
        case Incomplete => Incomplete
        case Error(kind) => Error(kind)
        case Done(afterClues, clues) =>
          match NulTerminatedString(afterClues)
          case Incomplete => Incomplete
          case Error(kind) => Error(kind)
          case Done(afterNotes, notes) =>
            Done(afterNotes, Body(grids.0, grids.1, names.0, names.1, names.2, clues, notes))
  }

  /** The solution and the player grid, `cells` bytes each, one after the other. */
  function GridFields(s: seq<Byte>, cells: nat): (r: IResult<(seq<char>, seq<char>)>)
    ensures r.Done? <==> 2 * cells <= |s|
    ensures r.Done? ==>
      && |r.value.0| == cells && |r.value.1| == cells
      && IsLatin1(r.value.0) && IsLatin1(r.value.1)
      && s == Latin1Bytes(r.value.0) + (Latin1Bytes(r.value.1) + r.rest)
    ensures !r.Done? ==> r == Incomplete
  {
    var solution :- GridParser(s, cells);
    var grid :- GridParser(solution.rest, cells);
    Done(grid.rest, (solution.value, grid.value))
  }

  /** The title, author and copyright, each a NUL-terminated text field. */
  function NameFields(s: seq<Byte>): (r: IResult<(string, string, string)>)
    ensures r.Done? ==>
      && IsField(r.value.0) && IsField(r.value.1) && IsField(r.value.2)
      && s == CString(r.value.0) + (CString(r.value.1) + (CString(r.value.2) + r.rest))
    ensures s == [] ==> r == Incomplete
    ensures s != [] && 0 !in s ==> r == Error(TakeUntil)
    ensures r.Error? ==> r.kind == TakeUntil
  {
    var title :- NulTerminatedString(s);
    var author :- NulTerminatedString(title.rest);
    var copyright :- NulTerminatedString(author.rest);
    Done(copyright.rest, (title.value, author.value, copyright.value))
  }

  /** The checksum fields read back from their bytes. */
  lemma ChecksumFieldsRoundTrip(h: Header, rest: seq<Byte>)
    requires HeaderWellFormed(h)
    ensures ChecksumFields(U16Bytes(h.fileChecksum) + (Magic + (U16Bytes(h.baseChecksum) +
      (h.maskedLowChecksums + (h.maskedHighChecksums + rest)))))
      == Done(rest, (h.fileChecksum, h.baseChecksum, h.maskedLowChecksums, h.maskedHighChecksums))
  {
    var atHigh := h.maskedHighChecksums + rest;
    var atLow := h.maskedLowChecksums + atHigh;
    var atBase := U16Bytes(h.baseChecksum) + atLow;
    LeU16RoundTrip(h.fileChecksum, Magic + atBase);
    TagRoundTrip(Magic, atBase);
    LeU16RoundTrip(h.baseChecksum, atLow);
    TakeRoundTrip(h.maskedLowChecksums, atHigh);
    TakeRoundTrip(h.maskedHighChecksums, rest);
  }

  /** The version and reserved fields read back from their bytes, whatever the fourth version byte. */
  lemma VersionFieldsRoundTrip(h: Header, pad: Byte, rest: seq<Byte>)
    requires HeaderWellFormed(h)
    ensures VersionFields(Latin1Bytes(h.version) + ([pad] + (h.reserved1c + (U16Bytes(h.scrambledChecksum) +
      (h.reserved20 + rest)))))
      == Done(rest, (h.version, h.reserved1c, h.scrambledChecksum, h.reserved20))
  {
    var at20 := h.reserved20 + rest;
    var atScrambled := U16Bytes(h.scrambledChecksum) + at20;
    var at1c := h.reserved1c + atScrambled;
    VersionRoundTrip(h.version, pad, at1c);
    TakeRoundTrip(h.reserved1c, atScrambled);
    LeU16RoundTrip(h.scrambledChecksum, at20);
    TakeRoundTrip(h.reserved20, rest);
  }

  /** The size fields read back from their bytes. */
  lemma SizeFieldsRoundTrip(h: Header, rest: seq<Byte>)
    ensures SizeFields([h.width] + ([h.height] + (U16Bytes(h.numClues) + (U16Bytes(h.unknownBitmask) +
      (U16Bytes(h.scrambledTag) + rest)))))
      == Done(rest, (h.width, h.height, h.numClues, h.unknownBitmask, h.scrambledTag))
  {
    var atTag := U16Bytes(h.scrambledTag) + rest;
    var atBitmask := U16Bytes(h.unknownBitmask) + atTag;
    var atClues := U16Bytes(h.numClues) + atBitmask;
    assert ([h.width] + ([h.height] + atClues))[1..] == [h.height] + atClues;
    assert ([h.height] + atClues)[1..] == atClues;
    LeU16RoundTrip(h.numClues, atBitmask);
    LeU16RoundTrip(h.unknownBitmask, atTag);
    LeU16RoundTrip(h.scrambledTag, rest);
  }

  /** The header parser reads back every header from its layout, whatever
      the fourth version byte and whatever follows. */
  lemma HeaderRoundTrip(h: Header, pad: Byte, tail: seq<Byte>)
    requires HeaderWellFormed(h)
    ensures HeaderParser(HeaderLayout(h, pad, tail)) == Done(tail, h)
  {
    var atSizes := [h.width] + ([h.height] + (U16Bytes(h.numClues) + (U16Bytes(h.unknownBitmask) +
      (U16Bytes(h.scrambledTag) + tail))));
    var atVersion := Latin1Bytes(h.version) + ([pad] + (h.reserved1c + (U16Bytes(h.scrambledChecksum) +
      (h.reserved20 + atSizes))));
    ChecksumFieldsRoundTrip(h, atVersion);
    VersionFieldsRoundTrip(h, pad, atSizes);
    SizeFieldsRoundTrip(h, tail);
  }

  /** The body parser reads back every body that fits the header from its
      layout, whatever follows. */
  lemma BodyRoundTrip(b: Body, width: Byte, height: Byte, numClues: U16, tail: seq<Byte>)
    requires BodyFits(b, width, height, numClues)
    ensures BodyParser(BodyLayout(b, tail), width, height, numClues) == Done(tail, b)
  {
    var atNotes := CString(b.notes) + tail;
    var atClues := CStrings(b.clues) + atNotes;
    var atCopyright := CString(b.copyright) + atClues;
    var atAuthor := CString(b.author) + atCopyright;
    var atTitle := CString(b.title) + atAuthor;
    var atGrid := Latin1Bytes(b.grid) + atTitle;
    GridRoundTrip(b.solution, atGrid);
    GridRoundTrip(b.grid, atTitle);
    NulTerminatedStringRoundTrip(b.title, atAuthor);
    NulTerminatedStringRoundTrip(b.author, atCopyright);
    NulTerminatedStringRoundTrip(b.copyright, atClues);
    CountStringsRoundTrip(b.clues, atNotes);
    NulTerminatedStringRoundTrip(b.notes, tail);
  }

  /** `full`: the scanner, the header, the body and the tail, in that order.
      The first stage that fails is the result, so no partial document is
      ever produced; on success nothing is left unconsumed. */
  function Full(s: seq<Byte>): (r: IResult<PuzFile>)
    ensures r.Done? ==> r.rest == [] && WellFormed(r.value)
  {
    // extra bytes at the beginning
    match PreBytesParser(s)
    case Incomplete => Incomplete
    case Error(kind) => Error(kind)
    case Done(afterPreBytes, preBytes) =>
      // file header
      match HeaderParser(afterPreBytes)
      case Incomplete => Incomplete
      case Error(kind) => Error(kind)
      case Done(afterHeader, header) =>
        // file body
        match BodyParser(afterHeader, header.width, header.height, header.numClues)
        case Incomplete => Incomplete
        case Error(kind) => Error(kind)
        case Done(afterBody, body) =>
          // extra bytes at the end
          var postBytes := PostBytesParser(afterBody);
          Done(postBytes.rest, PuzFile(preBytes, header, body, postBytes.value))
  }

  /** The marker right after the file checksum is the first one in the file:
      no earlier window holds it (every such window ends inside this prefix). */
  predicate LocatesHeader(p: PuzFile) {
    NoMarkerBefore(p.preBytes + (U16Bytes(p.header.fileChecksum) + Magic), |p.preBytes| + 2)
  }

  /** The bytes of a `.puz` file holding document `p`, with `pad` as the
      fourth version byte. */
  ghost function Layout(p: PuzFile, pad: Byte): seq<Byte>
    requires WellFormed(p)
  {
    p.preBytes + HeaderLayout(p.header, pad, BodyLayout(p.body, p.postBytes))
  }

  /** Whether a window holds the marker depends only on the bytes under it. */
  lemma MarkerAtPrefix(a: seq<Byte>, b: seq<Byte>, j: int)
    requires 0 <= j && j + |Magic| <= |a|
    ensures MarkerAt(a + b, j) <==> MarkerAt(a, j)
  {
    assert (a + b)[j..j + |Magic|] == a[j..j + |Magic|];
  }

  /** After a successful scan the header's marker re-check cannot fail: the
      two checksum bytes are followed by the marker the scanner found. */
  lemma MagicRecheck(s: seq<Byte>)
    requires PreBytesParser(s).Done?
    ensures var rest := PreBytesParser(s).rest; 14 <= |rest| && rest[2..14] == Magic
  {
    var r := PreBytesParser(s);
    var i := |r.value| + 2;
    assert s[i..i + |Magic|] == Magic;
    assert r.rest == s[i - 2..];
    assert r.rest[2..14] == s[i..i + |Magic|];
  }

  /** Offsets in the second part of a concatenation are shifted by the first part's length. */
  lemma IndexAfter(a: seq<Byte>, b: seq<Byte>, i: nat)
    requires i < |b|
    ensures (a + b)[|a| + i] == b[i]
  {
  }

  /** Whether the marker after the checksum is the first one is decided by
      the bytes up to the end of that marker. */
  lemma ScanPrefix(pre: seq<Byte>, fileChecksum: U16, hs: seq<Byte>)
    requires 14 <= |hs| && hs[..14] == U16Bytes(fileChecksum) + Magic
    ensures NoMarkerBefore(pre + hs, |pre| + 2) <==> NoMarkerBefore(pre + (U16Bytes(fileChecksum) + Magic), |pre| + 2)
  {
    var prefix := pre + (U16Bytes(fileChecksum) + Magic);
    assert pre + hs == prefix + hs[14..];
    forall j | 0 <= j < |pre| + 2
      ensures MarkerAt(pre + hs, j) <==> MarkerAt(prefix, j)
    {
      MarkerAtPrefix(prefix, hs[14..], j);
    }
  }

  /** Decoding succeeds only on the layout of a well-formed document whose
      header follows the first marker in the file; the fourth version byte
      is the only byte not kept. */
  lemma FullSound(s: seq<Byte>)
    requires Full(s).Done?
    ensures var p := Full(s).value;
      && |p.preBytes| + 27 < |s|
      && LocatesHeader(p)
      && s == Layout(p, s[|p.preBytes| + 27])
  {
    var pre := PreBytesParser(s);
    var h := HeaderParser(pre.rest);
    var b := BodyParser(h.rest, h.value.width, h.value.height, h.value.numClues);
    var p := PuzFile(pre.value, h.value, b.value, b.rest);
    assert Full(s).value == p;
    HeaderParserLayout(pre.rest);
    HeaderOffsets(h.value, pre.rest[27], h.rest);
    ScanPrefix(pre.value, h.value.fileChecksum, pre.rest);
    IndexAfter(pre.value, pre.rest, 27);
  }

  /** Every well-formed document whose header follows the first marker is
      decoded back from its layout, whatever the fourth version byte. */
  lemma FullComplete(p: PuzFile, pad: Byte)
    requires WellFormed(p) && LocatesHeader(p)
    ensures Full(Layout(p, pad)) == Done([], p)
  {
    var s := Layout(p, pad);
    var o := |p.preBytes|;
    var tail := BodyLayout(p.body, p.postBytes);
    var hs := HeaderLayout(p.header, pad, tail);
    HeaderOffsets(p.header, pad, tail);
    ScanPrefix(p.preBytes, p.header.fileChecksum, hs);
    assert s[o + 2..o + 14] == hs[2..14];
    ScanFindsFirstMarker(s, o + 2);
    HeaderRoundTrip(p.header, pad, tail);
    BodyRoundTrip(p.body, p.header.width, p.header.height, p.header.numClues, p.postBytes);
  }

  /** How `full` fails. A scanner error is the result. Once the scanner has
      succeeded, the marker re-check in the header always passes, a header
      cut short is Incomplete, and the only errors left are those of the
      text fields, never a `Custom` code. */
  lemma FullFailures(s: seq<Byte>)
    ensures PreBytesParser(s).Error? ==> Full(s) == Error(PreBytesParser(s).kind)
    ensures Full(s).Error? && Full(s).kind.Custom? <==> PreBytesParser(s).Error?
    ensures Full(s).Error? ==> Full(s).kind != TagMismatch
    ensures PreBytesParser(s).Done? && |PreBytesParser(s).rest| < 52 ==> Full(s) == Incomplete
  {
    if PreBytesParser(s).Done? {
      MagicRecheck(s);
      FullErrorsAfterScan(s);
    }
  }

  /** After a successful scan every error comes from a text field: a
      terminator missing (`TakeUntil`) or a clue rejected (`Count`). */
  lemma FullErrorsAfterScan(s: seq<Byte>)
    requires PreBytesParser(s).Done?
    ensures Full(s).Error? ==> Full(s).kind == TakeUntil || Full(s).kind == Count
  {
    MagicRecheck(s);
  }

  /** A body whose grids are present but whose title has no terminator
      fails at the title: Incomplete when nothing follows the grids, an
      error of kind `TakeUntil` otherwise. The later fields are never reached. */
  lemma BodyUnterminatedTitle(t: seq<Byte>, width: Byte, height: Byte, numClues: U16)
    requires 2 * GridSize(width, height) <= |t| && 0 !in t[2 * GridSize(width, height)..]
    ensures BodyParser(t, width, height, numClues)
      == if |t| == 2 * GridSize(width, height) then Incomplete else Error(TakeUntil)
  {
    var cells := GridSize(width, height);
    var solution := GridParser(t, cells);
    assert solution.rest == t[cells..];
    var grid := GridParser(solution.rest, cells);
    assert grid.rest == t[2 * cells..];
  }

  /** The grid dimensions are the bytes at offsets 44 and 45 of the header,
      and the body starts at offset 52. */
  lemma HeaderDimensions(hs: seq<Byte>)
    requires HeaderParser(hs).Done?
    ensures var h := HeaderParser(hs);
      && h.value.width == hs[44] && h.value.height == hs[45] && h.rest == hs[52..]
  {
    var h := HeaderParser(hs);
    HeaderParserLayout(hs);
    HeaderOffsets(h.value, hs[27], h.rest);
  }

  /** A file whose header and grids are complete but which has no zero byte
      after the grids fails at the title, as the body does. */
  lemma FullUnterminatedTitle(s: seq<Byte>)
    requires PreBytesParser(s).Done?
    requires var hs := PreBytesParser(s).rest;
      && 52 <= |hs|
      && 52 + 2 * GridSize(hs[44], hs[45]) <= |hs|
      && 0 !in hs[52 + 2 * GridSize(hs[44], hs[45])..]
    ensures var hs := PreBytesParser(s).rest;
      Full(s) == if |hs| == 52 + 2 * GridSize(hs[44], hs[45]) then Incomplete else Error(TakeUntil)
  {
    var hs := PreBytesParser(s).rest;
    MagicRecheck(s);
    HeaderDimensions(hs);
    var h := HeaderParser(hs);
    DropTwice(hs, 52, 2 * GridSize(hs[44], hs[45]));
    BodyUnterminatedTitle(h.rest, h.value.width, h.value.height, h.value.numClues);
    FullBodyFailure(s, hs);
  }

  /** Once the scanner and the header have succeeded, a body that fails is
      the result of the whole file: no partial document is returned. */
  lemma FullBodyFailure(s: seq<Byte>, hs: seq<Byte>)
    requires PreBytesParser(s).Done? && hs == PreBytesParser(s).rest
    requires HeaderParser(hs).Done?
    requires !BodyParser(HeaderParser(hs).rest, HeaderParser(hs).value.width,
      HeaderParser(hs).value.height, HeaderParser(hs).value.numClues).Done?
    ensures var body := BodyParser(HeaderParser(hs).rest, HeaderParser(hs).value.width,
      HeaderParser(hs).value.height, HeaderParser(hs).value.numClues);
      Full(s) == if body.Incomplete? then Incomplete else Error(body.kind)
  {
  }

  /** Dropping `i` bytes and then `j` more drops `i + j`. */
  lemma DropTwice(a: seq<Byte>, i: nat, j: nat)
    requires i + j <= |a|
    ensures a[i..][j..] == a[i + j..]
  {
  }

  /** The bytes of a minimal file: no bytes before the checksum 0xCDAB,
      version "1.3", a 2-by-1 puzzle with solution "AB" and grid "CD", no
      clues, four empty text fields and nothing after them. */
  function MinimalFileBytes(): seq<Byte> {
    MinimalHeaderBytes(MinimalBodyBytes())
  }

  /** The minimal file's 52 header bytes, followed by `tail`. */
  function MinimalHeaderBytes(tail: seq<Byte>): seq<Byte> {
    [0xAB, 0xCD] + (Magic + ([0, 0] + ([0, 0, 0, 0] + ([0, 0, 0, 0] + ([0x31, 0x2E, 0x33] + ([0] +
    ([0, 0] + ([0, 0] + ([0, 0, 0, 0, 0, 0, 0, 0, 0, 0, 0, 0] + ([2] + ([1] + ([0, 0] + ([0, 0] + ([0, 0] +
    tail))))))))))))))
  }

  /** The minimal file's body bytes: the two grids and four empty text fields. */
  function MinimalBodyBytes(): seq<Byte> {
    [0x41, 0x42] + ([0x43, 0x44] + ([0] + ([0] + ([0] + [0]))))
  }

  /** The document the minimal file holds. */
  function MinimalFile(): PuzFile {
    PuzFile([],
      Header(0xCDAB, 0, [0, 0, 0, 0], [0, 0, 0, 0], "1.3", [0, 0], 0,
        [0, 0, 0, 0, 0, 0, 0, 0, 0, 0, 0, 0], 2, 1, 0, 0, 0),
      Body(['A', 'B'], ['C', 'D'], "", "", "", [], ""),
      [])
  }

  /** The minimal file's marker is its first one. */
  lemma MinimalFileLocatesHeader()
    ensures WellFormed(MinimalFile()) && LocatesHeader(MinimalFile())
  {
    var prefix := U16Bytes(0xCDAB) + Magic;
    assert prefix[0..12][0] == 0xAB != Magic[0];
    assert prefix[1..13][0] == 0xCD != Magic[0];
  }

  /** The minimal file is the layout of its document with a zero fourth version byte. */
  lemma MinimalFileLayout()
    ensures WellFormed(MinimalFile()) && MinimalFileBytes() == Layout(MinimalFile(), 0)
  {
    var p := MinimalFile();
    MinimalBodyLayout();
    MinimalHeaderLayout(BodyLayout(p.body, p.postBytes));
  }

  /** The minimal document's header lays out as the minimal file's header bytes. */
  lemma MinimalHeaderLayout(tail: seq<Byte>)
    ensures HeaderWellFormed(MinimalFile().header)
    ensures HeaderLayout(MinimalFile().header, 0, tail) == MinimalHeaderBytes(tail)
  {
    assert U16Bytes(0xCDAB) == [0xAB, 0xCD];
    assert U16Bytes(0) == [0, 0];
    assert Latin1Bytes("1.3") == [0x31, 0x2E, 0x33];
  }

  /** The minimal document's body fits its header and lays out as the minimal file's body bytes. */
  lemma MinimalBodyLayout()
    ensures var p := MinimalFile();
      BodyFits(p.body, p.header.width, p.header.height, p.header.numClues)
      && BodyLayout(p.body, p.postBytes) == MinimalBodyBytes()
  {
    assert Latin1Bytes(['A', 'B']) == [0x41, 0x42];
    assert Latin1Bytes(['C', 'D']) == [0x43, 0x44];
    assert CString("") == [0];
    assert CStrings([]) == [];
  }


  /** The minimal file decodes to its document with nothing left over. */
  lemma MinimalFileDecodes()
    ensures Full(MinimalFileBytes()) == Done([], MinimalFile())
  {
    MinimalFileLocatesHeader();
    MinimalFileLayout();
    FullComplete(MinimalFile(), 0);
  }
}
