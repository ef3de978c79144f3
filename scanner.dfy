/** The byte scanner (`pre_bytes_parser`): finds the first occurrence of the
    marker "ACROSS&DOWN\0" and splits the buffer two bytes before it, since
    those two bytes hold the file checksum. */
module Scanner {
  import opened Nom

  /** `MAGIC_STRING`: the eleven ASCII bytes of "ACROSS&DOWN" and a zero byte. */
  const Magic: seq<Byte> := [0x41, 0x43, 0x52, 0x4F, 0x53, 0x53, 0x26, 0x44, 0x4F, 0x57, 0x4E, 0x00]

  /** The marker occupies `s[i..i + |Magic|]`. */
  predicate MarkerAt(s: seq<Byte>, i: int) {
    0 <= i && i + |Magic| <= |s| && s[i..i + |Magic|] == Magic
  }

  /** No occurrence of the marker starts before offset `n`. */
  predicate NoMarkerBefore(s: seq<Byte>, n: int) {
    forall j :: 0 <= j < n ==> !MarkerAt(s, j)
  }

  /** How many windows `bytes.windows(12)` yields: none when the buffer is
      shorter than the marker, otherwise one per offset, the last window
      ending at the end of the buffer. */
  function WindowCount(s: seq<Byte>): (n: nat)
    ensures n == 0 <==> |s| < |Magic|
    ensures n > 0 ==> n - 1 + |Magic| == |s|
  {
    if |s| < |Magic| then 0 else |s| - |Magic| + 1
  }

  /** The offset of the first window at or after `i` that holds the marker,
      or the window count when no later window does. */
  function FirstMarkerFrom(s: seq<Byte>, i: nat): (k: nat)
    requires i <= WindowCount(s)
    ensures i <= k <= WindowCount(s)
    ensures k < WindowCount(s) ==> MarkerAt(s, k)
    ensures forall j :: i <= j < k ==> !MarkerAt(s, j)
    decreases WindowCount(s) - i
  {
    if i == WindowCount(s) then i
    else if s[i..i + |Magic|] == Magic then i
    else FirstMarkerFrom(s, i + 1)
  }

  /** What `pre_bytes_parser` returns: the bytes before the checksum as the
      value and everything from the checksum on as the rest. The offset
      check comes before the not-found check, so a buffer too short to hold
      the marker after two bytes is reported as Custom(1) even when it holds
      no marker at all. */
  function PreBytesParser(s: seq<Byte>): (r: IResult<seq<Byte>>)
    ensures r.Done? ==>
      && r.value + r.rest == s
      && MarkerAt(s, |r.value| + 2)
      && NoMarkerBefore(s, |r.value| + 2)
    ensures MarkerAt(s, 0) || MarkerAt(s, 1) ==> r == Error(Custom(1))
    ensures |s| <= |Magic| ==> r == Error(Custom(1))
    ensures NoMarkerBefore(s, |s|) && |s| > |Magic| ==> r == Error(Custom(2))
    ensures !r.Incomplete?
  {
    var index := FirstMarkerFrom(s, 0);
    var found := index < WindowCount(s);
    if index < 2 then Error(Custom(1))
    else if !found then Error(Custom(2))
    else Done(s[index - 2..], s[..index - 2])
  }

  /** The first marker at an offset of at least 2 is where the buffer is split. */
  lemma ScanFindsFirstMarker(s: seq<Byte>, i: int)
    requires 2 <= i && MarkerAt(s, i) && NoMarkerBefore(s, i)
    ensures PreBytesParser(s) == Done(s[i - 2..], s[..i - 2])
  {
    var k := FirstMarkerFrom(s, 0);
    assert !MarkerAt(s, k) ==> k >= i;
    assert k <= i;
  }

  /** The scanner as the source writes it: a loop over the windows that counts
      the windows without the marker and stops at the first one with it. */
  method ScanPreBytes(bytes: seq<Byte>) returns (r: IResult<seq<Byte>>)
    ensures r == PreBytesParser(bytes)
  {
    var windows := if |bytes| < |Magic| then 0 else |bytes| - |Magic| + 1;
    var index := 0;
    var found := false;
    while index < windows
      invariant index <= windows
      invariant NoMarkerBefore(bytes, index)
      invariant !found
    {
      if bytes[index..index + |Magic|] == Magic {
        found := true;
        break;
      }
      index := index + 1;
    }
    assert index == FirstMarkerFrom(bytes, 0) by {
      var k := FirstMarkerFrom(bytes, 0);
      assert found ==> MarkerAt(bytes, index);
      assert !found ==> index == windows == WindowCount(bytes);
      assert !MarkerAt(bytes, k) ==> k >= index;
    }
    assert found <==> index < windows;

    // there needs to be a two byte checksum before the marker
    if index < 2 {
      return Error(Custom(1));
    }
    if !found {
      return Error(Custom(2));
    }
    var startsAt := index - 2;
    return Done(bytes[startsAt..], bytes[..startsAt]);
  }
}
