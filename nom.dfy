/** Byte-level vocabulary of the .puz decoder: bytes and 16-bit words, the
    three-way parse result of the nom combinator library with its `Needed`
    sizes dropped, the Latin-1 byte/char mapping (`x as char`), and the
    primitive parsers the decoder is chained from: `le_u8`, `le_u16`,
    `take!` and `tag!`. */
module Nom {

  /** One byte of the input buffer (a Rust `u8`). */
  type Byte = x: int | 0 <= x < 0x100

  /** A Rust `u16`. */
  type U16 = x: int | 0 <= x < 0x1_0000

  /** Why a parser rejected its input, as nom 1.x names it: a code chosen by
      a hand-written parser (`ErrorKind::Custom`), a literal that did not
      match (`ErrorKind::Tag`), a `take_until!` that found no delimiter
      (`ErrorKind::TakeUntil`), or a `count!` whose element parser failed
      (`ErrorKind::Count`). */
  datatype ErrorKind = Custom(code: nat) | TagMismatch | TakeUntil | Count

  /** What a successful stage hands to the next one. */
  datatype Parsed<+T> = Parsed(rest: seq<Byte>, value: T)

  /** nom's `IResult`: the unconsumed input and the value, more input needed,
      or a rejection. Failure-compatible, so stages chain with `:-` the way
      nom's `chain!` chains them: the first stage that does not succeed is
      the result of the whole chain. */
  datatype IResult<+T> = Done(rest: seq<Byte>, value: T) | Incomplete | Error(kind: ErrorKind)
  {
    predicate IsFailure() {
      !Done?
    }

    /** The failure handed on by `:-`; it is only ever asked of a failure. */
    function PropagateFailure<U>(): IResult<U> {
      if Error? then Error(kind) else Incomplete
    }

    function Extract(): Parsed<T>
      requires Done?
    {
      Parsed(rest, value)
    }
  }

  /** The two bytes of `v` in little-endian order, as they lie on disk. */
  function U16Bytes(v: U16): (bs: seq<Byte>)
    ensures |bs| == 2 && bs[0] as int + 0x100 * bs[1] as int == v
  {
    [v % 0x100, v / 0x100]
  }

  /** `le_u8`: one byte; a buffer with no byte left is Incomplete. */
  function LeU8(s: seq<Byte>): (r: IResult<Byte>)
    ensures r.Done? <==> |s| >= 1
    ensures r.Done? ==> s == [r.value] + r.rest
    ensures !r.Done? ==> r == Incomplete
  {
    if |s| < 1 then Incomplete else Done(s[1..], s[0])
  }

  /** `le_u16`: a little-endian word from the next two bytes. */
  function LeU16(s: seq<Byte>): (r: IResult<U16>)
    ensures r.Done? <==> |s| >= 2
    ensures r.Done? ==> s == U16Bytes(r.value) + r.rest
    ensures !r.Done? ==> r == Incomplete
  {
    if |s| < 2 then Incomplete else Done(s[2..], s[1] as int * 0x100 + s[0] as int)
  }

  /** `le_u16` reads back every word from its two on-disk bytes. */
  lemma LeU16RoundTrip(v: U16, rest: seq<Byte>)
    ensures LeU16(U16Bytes(v) + rest) == Done(rest, v)
  {
    var s := U16Bytes(v) + rest;
    assert s[0] == v % 0x100 && s[1] == v / 0x100;
    assert s[2..] == rest;
  }

  /** `take!(n)`: exactly the next `n` bytes. */
  function Take(s: seq<Byte>, n: nat): (r: IResult<seq<Byte>>)
    ensures r.Done? <==> n <= |s|
    ensures r.Done? ==> |r.value| == n && s == r.value + r.rest
    ensures !r.Done? ==> r == Incomplete
  {
    if |s| < n then Incomplete else Done(s[n..], s[..n])
  }

  /** `take!(n)` returns exactly the bytes it was laid over. */
  lemma TakeRoundTrip(bs: seq<Byte>, rest: seq<Byte>)
    ensures Take(bs + rest, |bs|) == Done(rest, bs)
  {
    assert (bs + rest)[..|bs|] == bs && (bs + rest)[|bs|..] == rest;
  }

  /** `tag!(t)`: the literal `t`; a buffer shorter than `t` is Incomplete, one
      that starts with other bytes is rejected. */
  function Tag(t: seq<Byte>, s: seq<Byte>): (r: IResult<seq<Byte>>)
    ensures r.Done? <==> |t| <= |s| && s[..|t|] == t
    ensures r.Done? ==> r.value == t && s == t + r.rest
    ensures |s| < |t| ==> r == Incomplete
    ensures r.Error? <==> |t| <= |s| && s[..|t|] != t
    ensures r.Error? ==> r.kind == TagMismatch
  {
    if |s| < |t| then Incomplete
    else if s[..|t|] == t then Done(s[|t|..], t)
    else Error(TagMismatch)
  }

  /** `tag!(t)` accepts the literal itself, whatever follows it. */
  lemma TagRoundTrip(t: seq<Byte>, rest: seq<Byte>)
    ensures Tag(t, t + rest) == Done(rest, t)
  {
    assert (t + rest)[..|t|] == t && (t + rest)[|t|..] == rest;
  }

  /** `x as char` on every byte: a single-byte character set, never UTF-8. */
  function Latin1(bs: seq<Byte>): (cs: string)
    ensures |cs| == |bs|
    ensures forall i :: 0 <= i < |bs| ==> cs[i] as int == bs[i]
  {
    seq(|bs|, i requires 0 <= i < |bs| => bs[i] as char)
  }

  /** Every character has a code point below 256, so it came from one byte. */
  predicate IsLatin1(cs: string) {
    forall i :: 0 <= i < |cs| ==> cs[i] as int < 0x100
  }

  /** The bytes a single-byte string occupies on disk; the inverse of `Latin1`. */
  function Latin1Bytes(cs: string): (bs: seq<Byte>)
    requires IsLatin1(cs)
    ensures Latin1(bs) == cs
  {
    seq(|cs|, i requires 0 <= i < |cs| => cs[i] as int)
  }

  /** Decoding bytes as characters loses nothing: the characters give the bytes back. */
  lemma Latin1RoundTrip(bs: seq<Byte>)
    ensures IsLatin1(Latin1(bs)) && Latin1Bytes(Latin1(bs)) == bs
  {
  }
}
