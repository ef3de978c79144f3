/** The field parsers of the decoder body: `nul_terminated_string`,
    `version_parser`, `grid_parser`, `post_bytes_parser`, and
    `count!(nul_terminated_string, n)` for the clue list. Each one is
    specified against the bytes its value occupies on disk. */
module Fields {
  import opened Nom

  /** A text field read up to its terminator: single-byte characters, none of them NUL. */
  predicate IsField(cs: string) {
    IsLatin1(cs) && forall i :: 0 <= i < |cs| ==> cs[i] != '\0'
  }

  /** Every string of a list is a text field. */
  predicate AllFields(css: seq<string>) {
    forall i :: 0 <= i < |css| ==> IsField(css[i])
  }

  /** The bytes a NUL-terminated field occupies: its characters, then the zero byte. */
  function CString(cs: string): (bs: seq<Byte>)
    requires IsField(cs)
    ensures |bs| == |cs| + 1 && bs[..|cs|] == Latin1Bytes(cs) && bs[|cs|] == 0
    ensures forall i :: 0 <= i < |cs| ==> bs[i] != 0
  {
    Latin1Bytes(cs) + [0]
  }

  /** The bytes a list of NUL-terminated fields occupies, in list order. */
  function CStrings(css: seq<string>): seq<Byte>
    requires AllFields(css)
  {
    if css == [] then [] else CString(css[0]) + CStrings(css[1..])
  }

  /** The offset of the first zero byte, or `|s|` when there is none. */
  function IndexOfNul(s: seq<Byte>): (k: nat)
    ensures k <= |s|
    ensures k < |s| ==> s[k] == 0
    ensures forall j :: 0 <= j < k ==> s[j] != 0
  {
    if s == [] then 0
    else if s[0] == 0 then 0
    else 1 + IndexOfNul(s[1..])
  }

  /** `take_until!("\0")` as nom 1.x defines it: the bytes before the first
      zero byte, which is left unconsumed. An empty buffer is shorter than
      the delimiter and so Incomplete; a non-empty buffer with no zero byte
      is rejected. */
  function TakeUntilNul(s: seq<Byte>): (r: IResult<seq<Byte>>)
    ensures r.Done? <==> 0 in s
    ensures r.Done? ==> s == r.value + r.rest && 0 !in r.value && |r.rest| > 0 && r.rest[0] == 0
    ensures r.Incomplete? <==> s == []
    ensures r.Error? ==> r.kind == TakeUntil
  {
    if |s| < 1 then Incomplete
    else
      var k := IndexOfNul(s);
      if k == |s| then Error(TakeUntil) else Done(s[k..], s[..k])
  }

  /** `nul_terminated_string`: the characters before the next zero byte; the
      zero byte is consumed and is not part of the value. */
  function NulTerminatedString(s: seq<Byte>): (r: IResult<string>)
    ensures r.Done? <==> 0 in s
    ensures r.Done? ==> IsField(r.value) && s == CString(r.value) + r.rest
    ensures r.Incomplete? <==> s == []
    ensures r.Error? ==> r.kind == TakeUntil
  {
    var text :- TakeUntilNul(s);
    var nul :- Tag([0], text.rest);
    NulTerminatedStringLayout(s, text.value, nul.rest);
    Done(nul.rest, Latin1(text.value))
  }

  /** What `nul_terminated_string` consumed is the layout of the field it returns. */
  lemma NulTerminatedStringLayout(s: seq<Byte>, v: seq<Byte>, rest: seq<Byte>)
    requires 0 !in v && s == v + ([0] + rest)
    ensures IsField(Latin1(v)) && s == CString(Latin1(v)) + rest
  {
    CStringOfBytes(v);
  }

  /** Bytes with no zero among them decode to a text field that lays out as those bytes and a zero. */
  lemma CStringOfBytes(bs: seq<Byte>)
    requires 0 !in bs
    ensures IsField(Latin1(bs)) && CString(Latin1(bs)) == bs + [0]
  {
    Latin1RoundTrip(bs);
    forall i | 0 <= i < |bs| ensures Latin1(bs)[i] != '\0' {
      assert bs[i] != 0;
    }
  }

  /** A field laid out with its terminator reads back as itself, whatever follows it. */
  lemma NulTerminatedStringRoundTrip(cs: string, rest: seq<Byte>)
    requires IsField(cs)
    ensures NulTerminatedString(CString(cs) + rest) == Done(rest, cs)
  {
    var s := CString(cs) + rest;
    assert s[|cs|] == 0;
    var k := IndexOfNul(s);
    assert k == |cs|;
    assert s[..k] == Latin1Bytes(cs);
    assert s[k + 1..] == rest;
  }

  /** `version_parser`: four bytes are taken and the first three kept; the
      fourth is dropped whatever its value. */
  function VersionParser(s: seq<Byte>): (r: IResult<string>)
    ensures r.Done? <==> |s| >= 4
    ensures r.Done? ==> |r.value| == 3 && IsLatin1(r.value) && s == Latin1Bytes(r.value) + ([s[3]] + r.rest)
    ensures !r.Done? ==> r == Incomplete
  {
    var bytes :- Take(s, 4);
    Done(bytes.rest, Latin1(bytes.value[..|bytes.value| - 1]))
  }

  /** The version reads back from its three characters and any fourth byte. */
  lemma VersionRoundTrip(cs: string, pad: Byte, rest: seq<Byte>)
    requires |cs| == 3 && IsLatin1(cs)
    ensures VersionParser(Latin1Bytes(cs) + ([pad] + rest)) == Done(rest, cs)
  {
    var s := Latin1Bytes(cs) + ([pad] + rest);
    assert s[..4][..3] == Latin1Bytes(cs);
    assert s[4..] == rest;
  }

  /** `grid_parser(size)`: exactly `size` bytes, each mapped to one character. */
  function GridParser(s: seq<Byte>, size: nat): (r: IResult<seq<char>>)
    ensures r.Done? <==> size <= |s|
    ensures r.Done? ==> |r.value| == size && IsLatin1(r.value) && s == Latin1Bytes(r.value) + r.rest
    ensures !r.Done? ==> r == Incomplete
  {
    var bytes :- Take(s, size);
    Done(bytes.rest, Latin1(bytes.value))
  }

  /** A grid reads back from its cells, whatever follows them. */
  lemma GridRoundTrip(cs: seq<char>, rest: seq<Byte>)
    requires IsLatin1(cs)
    ensures GridParser(Latin1Bytes(cs) + rest, |cs|) == Done(rest, cs)
  {
    TakeRoundTrip(Latin1Bytes(cs), rest);
  }

  /** `post_bytes_parser`: always succeeds, keeps every byte and leaves nothing. */
  function PostBytesParser(s: seq<Byte>): (r: IResult<seq<Byte>>)
    ensures r.Done? && r.value == s && r.rest == []
  {
    Done([], s)
  }

  /** `count!(nul_terminated_string, n)` as nom 1.x defines it: exactly `n`
      text fields in file order. The first field that fails decides the
      outcome: a rejected field makes the list an error of kind `Count`, a
      field cut short makes it Incomplete. */
  function CountStrings(s: seq<Byte>, n: nat): (r: IResult<seq<string>>)
    ensures r.Done? ==> |r.value| == n && AllFields(r.value) && s == CStrings(r.value) + r.rest
    ensures r.Error? ==> r.kind == Count
    ensures n > 0 && s == [] ==> r == Incomplete
    ensures n > 0 && s != [] && 0 !in s ==> r == Error(Count)
    decreases n
  {
    if n == 0 then Done(s, [])
    else
      match NulTerminatedString(s)
      case Incomplete => Incomplete
      case Error(_) => Error(Count)
      case Done(afterFirst, first) =>
        match CountStrings(afterFirst, n - 1)
        case Incomplete => Incomplete
        case Error(_) => Error(Count)
        case Done(afterOthers, others) =>
          CStringsLayout(s, first, afterFirst, others, afterOthers);
          Done(afterOthers, [first] + others)
  }

  /** Laying out a list puts its first field in front of the others. */
  lemma CStringsCons(cs: string, css: seq<string>)
    requires IsField(cs) && AllFields(css)
    ensures AllFields([cs] + css) && CStrings([cs] + css) == CString(cs) + CStrings(css)
  {
    assert ([cs] + css)[1..] == css;
  }

  /** A field laid out in front of a list of fields is the layout of the longer list. */
  lemma CStringsLayout(s: seq<Byte>, cs: string, tail: seq<Byte>, css: seq<string>, rest: seq<Byte>)
    requires IsField(cs) && AllFields(css)
    requires s == CString(cs) + tail && tail == CStrings(css) + rest
    ensures AllFields([cs] + css) && s == CStrings([cs] + css) + rest
  {
    CStringsCons(cs, css);
  }

  /** A list of fields laid out one after another reads back as that list. */
  lemma {:induction false} CountStringsRoundTrip(css: seq<string>, rest: seq<Byte>)
    requires AllFields(css)
    ensures CountStrings(CStrings(css) + rest, |css|) == Done(rest, css)
    decreases |css|
  {
    if css != [] {
      var tail := CStrings(css[1..]) + rest;
      CountStringsRoundTrip(css[1..], rest);
      CountStringsField(css[0], tail, |css| - 1, css[1..], rest);
      CStringsCons(css[0], css[1..]);
      assert [css[0]] + css[1..] == css;
    }
  }

  /** `count!` reads one field more when one more field stands in front of the others. */
  lemma CountStringsField(cs: string, tail: seq<Byte>, n: nat, css: seq<string>, rest: seq<Byte>)
    requires IsField(cs)
    requires CountStrings(tail, n) == Done(rest, css)
    ensures CountStrings(CString(cs) + tail, n + 1) == Done(rest, [cs] + css)
  {
    NulTerminatedStringRoundTrip(cs, tail);
  }
}
