/** Tuning trouble: the first position in a datastream after a window of
    `size` pairwise different letters (a start-of-packet marker for
    size 4, a start-of-message marker for size 14).

    The solver ORs one bit per letter, `1 << (byte - 'a')`, into a `u32`
    and compares the number of set bits with the window size. The mask
    is modelled as the set of its set bits, which is exact as long as
    every shift is below 32; a byte below 'a' (an unsigned underflow)
    and a shift of 32 or more (a shift overflow) are errors, as they
    panic in the solver.
 */
module Marker {
  import opened Wrappers

  newtype byte = x: int | 0 <= x < 256

  const LowerA: byte := 97

  /** `1 << 32` does not fit a `u32`. */
  const MaskBits: nat := 32

  datatype MarkerError =
    | ShorterThanMarker   // `len - size` underflows
    | BelowLowercase      // `byte - 'a'` underflows
    | ShiftTooWide        // `1 << (byte - 'a')` shifts out of a `u32`

  /** Position of `b`'s bit in the mask. */
  function Bit(b: byte): (r: Result<nat, MarkerError>)
    ensures r.Ok? <==> LowerA <= b && (b - LowerA) as int < MaskBits
    ensures r.Ok? ==> r.value == (b - LowerA) as int
  {
    if b < LowerA then Err(BelowLowercase)
    else if (b - LowerA) as int >= MaskBits then Err(ShiftTooWide)
    else Ok((b - LowerA) as int)
  }

  /** The bits of a window ORed together, left to right: the first byte
      without a bit stops the fold. */
  function WindowMask(w: seq<byte>): (r: Result<set<nat>, MarkerError>)
    ensures r.Ok? <==> forall k :: 0 <= k < |w| ==> Bit(w[k]).Ok?
    ensures r.Err? ==> r.error != ShorterThanMarker
    decreases |w|
  {
    if w == [] then Ok({})
    else
      var first :- Bit(w[0]);
      var rest :- WindowMask(w[1..]);
      assert forall k :: 1 <= k < |w| ==> w[k] == w[1..][k - 1];
      Ok({first} + rest)
  }

  /** `marker_size as u32`. */
  function AsU32(n: nat): nat {
    if n < 0x1_0000_0000 then n else n % 0x1_0000_0000
  }

  /** The window is a marker when its mask has `size` bits set. */
  function WindowHit(w: seq<byte>, size: nat): (r: Result<bool, MarkerError>)
    ensures r.Ok? <==> WindowMask(w).Ok?
    ensures r.Err? ==> r.error != ShorterThanMarker
  {
    var mask :- WindowMask(w);
    Ok(|mask| == AsU32(size))
  }

  /** Windows starting at `i`, `i + 1`, ..., `end - 1`, in order. */
  function SearchFrom(bytes: seq<byte>, size: nat, i: nat, end: nat): (r: Result<Option<nat>, MarkerError>)
    requires end + size <= |bytes| + 1 && (end > 0 ==> end - 1 + size <= |bytes|)
    ensures r.Ok? && r.value.Some? ==> i + size <= r.value.value && r.value.value < end + size
    ensures r.Err? ==> r.error != ShorterThanMarker
    decreases end - i
  {
    if i >= end then Ok(None)
    else
      var hit :- WindowHit(bytes[i..i + size], size);
      if hit then Ok(Some(i + size)) else SearchFrom(bytes, size, i + 1, end)
  }

  /** The search as written: starts `0 .. len - size`, the upper bound
      excluded, so the window ending at the last byte is never looked
      at; and `len - size` underflows on input shorter than a marker. */
  function SearchForMarkerAsWritten(bytes: seq<byte>, size: nat): (r: Result<Option<nat>, MarkerError>)
    ensures |bytes| < size <==> r == Err(ShorterThanMarker)
    ensures r.Ok? && r.value.Some? ==> size <= r.value.value < |bytes|
  {
    if |bytes| < size then Err(ShorterThanMarker)
    else SearchFrom(bytes, size, 0, |bytes| - size)
  }

  /** The search as intended: every window, the last one included; input
      shorter than a marker has none. */
  function SearchForMarker(bytes: seq<byte>, size: nat): (r: Result<Option<nat>, MarkerError>)
    ensures |bytes| < size ==> r == Ok(None)
    ensures r.Ok? && r.value.Some? ==> size <= r.value.value <= |bytes|
  {
    if |bytes| < size then Ok(None)
    else SearchFrom(bytes, size, 0, |bytes| - size + 1)
  }

  // ---------------------------------------------------------------------
  // What the bit count means
  // ---------------------------------------------------------------------

  predicate IsLowercase(b: byte) {
    LowerA <= b <= LowerA + 25
  }

  predicate Distinct(w: seq<byte>) {
    forall j, k :: 0 <= j < k < |w| ==> w[j] != w[k]
  }

  /** A letter's bit is in a window's mask exactly when the letter is
      in the window. */
  lemma {:induction false} LetterBitIn(b: byte, w: seq<byte>)
    requires IsLowercase(b) && AllLowercase(w)
    ensures WindowMask(w).Ok?
    ensures Bit(b).value in WindowMask(w).value <==> b in w
    decreases |w|
  {
    if w != [] {
      var rest := w[1..];
      assert AllLowercase(rest) by {
        assert forall k :: 0 <= k < |rest| ==> rest[k] == w[k + 1];
      }
      LetterBitIn(b, rest);
      assert WindowMask(w).value == {Bit(w[0]).value} + WindowMask(rest).value;
      assert b in w <==> b == w[0] || b in rest by {
        assert w == [w[0]] + rest;
      }
    }
  }

  lemma DistinctCons(w: seq<byte>)
    requires w != []
    ensures Distinct(w) <==> w[0] !in w[1..] && Distinct(w[1..])
  {
    var rest := w[1..];
    assert forall k :: 0 <= k < |rest| ==> rest[k] == w[k + 1];
    if !Distinct(w) && w[0] !in rest {
      var j, k :| 0 <= j < k < |w| && w[j] == w[k];
      assert rest[j - 1] == rest[k - 1];
    }
  }

  /** On lowercase letters the mask has as many bits as the window has
      letters exactly when no letter repeats; never more. */
  lemma {:induction false} MaskCountsDistinct(w: seq<byte>)
    requires AllLowercase(w)
    ensures WindowMask(w).Ok?
    ensures |WindowMask(w).value| <= |w|
    ensures |WindowMask(w).value| == |w| <==> Distinct(w)
    decreases |w|
  {
    if w != [] {
      var rest := w[1..];
      assert AllLowercase(rest) by {
        assert forall k :: 0 <= k < |rest| ==> rest[k] == w[k + 1];
      }
      MaskCountsDistinct(rest);
      LetterBitIn(w[0], rest);
      DistinctCons(w);
      var first := Bit(w[0]).value;
      var restMask := WindowMask(rest).value;
      assert WindowMask(w).value == {first} + restMask;
      if first !in restMask {
        assert |{first} + restMask| == 1 + |restMask|;
      }
    }
  }

  /** A window of lowercase letters is a marker exactly when its letters
      are pairwise different. */
  lemma WindowHitMeans(w: seq<byte>, size: nat)
    requires AllLowercase(w)
    requires |w| == size && size < 0x1_0000_0000
    ensures WindowHit(w, size) == Ok(Distinct(w))
  {
    MaskCountsDistinct(w);
  }

  // ---------------------------------------------------------------------
  // What the search finds
  // ---------------------------------------------------------------------

  predicate AllLowercase(bytes: seq<byte>) {
    forall k :: 0 <= k < |bytes| ==> IsLowercase(bytes[k])
  }

  /** The window starting at `i` is a marker. */
  predicate MarkerAt(bytes: seq<byte>, size: nat, i: nat)
    requires i + size <= |bytes|
  {
    Distinct(bytes[i..i + size])
  }

  /** `WindowHitMeans` for the window starting at `i`. */
  lemma WindowHitAt(bytes: seq<byte>, size: nat, i: nat)
    requires AllLowercase(bytes) && size < 0x1_0000_0000 && i + size <= |bytes|
    ensures WindowHit(bytes[i..i + size], size) == Ok(MarkerAt(bytes, size, i))
  {
    WindowHitMeans(bytes[i..i + size], size);
  }

  /** On lowercase input every window has a mask, so the scan never
      stops on an error. */
  lemma {:induction false} SearchFromOk(bytes: seq<byte>, size: nat, i: nat, end: nat)
    requires AllLowercase(bytes)
    requires end + size <= |bytes| + 1 && (end > 0 ==> end - 1 + size <= |bytes|)
    ensures SearchFrom(bytes, size, i, end).Ok?
    decreases end - i
  {
    if i < end {
      MaskCountsDistinct(bytes[i..i + size]);
      SearchFromOk(bytes, size, i + 1, end);
    }
  }

  /** What the scan reports is the end of a marker ... */
  lemma {:induction false} SearchFromMarker(bytes: seq<byte>, size: nat, i: nat, end: nat, r: nat)
    requires AllLowercase(bytes) && size < 0x1_0000_0000
    requires end + size <= |bytes| + 1 && (end > 0 ==> end - 1 + size <= |bytes|)
    requires SearchFrom(bytes, size, i, end) == Ok(Some(r))
    ensures i + size <= r < end + size && MarkerAt(bytes, size, r - size)
    decreases end - i
  {
    WindowHitAt(bytes, size, i);
    if r != i + size {
      SearchFromMarker(bytes, size, i + 1, end, r);
    }
  }

  /** ... and no start before it is one. */
  lemma {:induction false} SearchFromFirst(bytes: seq<byte>, size: nat, i: nat, end: nat, r: nat)
    requires AllLowercase(bytes) && size < 0x1_0000_0000
    requires end + size <= |bytes| + 1 && (end > 0 ==> end - 1 + size <= |bytes|)
    requires SearchFrom(bytes, size, i, end) == Ok(Some(r))
    ensures forall k :: i <= k && k + size < r ==> !MarkerAt(bytes, size, k)
    decreases end - i
  {
    WindowHitAt(bytes, size, i);
    if r != i + size {
      assert !MarkerAt(bytes, size, i);
      assert SearchFrom(bytes, size, i + 1, end) == Ok(Some(r));
      SearchFromFirst(bytes, size, i + 1, end, r);
      forall k | i <= k && k + size < r
        ensures !MarkerAt(bytes, size, k)
      {
        if k == i {
          assert !MarkerAt(bytes, size, i);
        }
      }
    }
  }

  /** When the scan reports nothing, no start among `i .. end - 1` is a
      marker. */
  lemma {:induction false} SearchFromNone(bytes: seq<byte>, size: nat, i: nat, end: nat)
    requires AllLowercase(bytes) && size < 0x1_0000_0000
    requires end + size <= |bytes| + 1 && (end > 0 ==> end - 1 + size <= |bytes|)
    requires SearchFrom(bytes, size, i, end) == Ok(None)
    ensures forall k :: i <= k < end ==> !MarkerAt(bytes, size, k)
    decreases end - i
  {
    if i < end {
      WindowHitAt(bytes, size, i);
      assert !MarkerAt(bytes, size, i);
      SearchFromNone(bytes, size, i + 1, end);
    }
  }

  /** The intended search returns the end of a marker, and no earlier
      start is one ... */
  lemma SearchForMarkerFirst(bytes: seq<byte>, size: nat, r: nat)
    requires AllLowercase(bytes) && size < 0x1_0000_0000
    requires SearchForMarker(bytes, size) == Ok(Some(r))
    ensures size <= r <= |bytes| && MarkerAt(bytes, size, r - size)
    ensures forall k :: 0 <= k && k + size < r ==> !MarkerAt(bytes, size, k)
  {
    var end := |bytes| - size + 1;
    SearchFromMarker(bytes, size, 0, end, r);
    SearchFromFirst(bytes, size, 0, end, r);
  }

  /** ... and it returns nothing exactly when the input holds no marker. */
  lemma SearchForMarkerNone(bytes: seq<byte>, size: nat)
    requires AllLowercase(bytes) && size < 0x1_0000_0000
    ensures SearchForMarker(bytes, size).Ok?
    ensures SearchForMarker(bytes, size) == Ok(None) <==> forall j :: 0 <= j && j + size <= |bytes| ==> !MarkerAt(bytes, size, j)
  {
    if |bytes| >= size {
      var end := |bytes| - size + 1;
      SearchFromOk(bytes, size, 0, end);
      var r := SearchFrom(bytes, size, 0, end);
      if r.value.Some? {
        SearchFromMarker(bytes, size, 0, end, r.value.value);
      } else {
        SearchFromNone(bytes, size, 0, end);
      }
    }
  }

  /** Scanning one more start changes the outcome only when the scan
      without it found nothing: then the outcome is that of the extra
      window alone. */
  lemma {:induction false} SearchFromExtend(bytes: seq<byte>, size: nat, i: nat, end: nat)
    requires end + size <= |bytes| && i <= end
    ensures SearchFrom(bytes, size, i, end) != Ok(None) ==> SearchFrom(bytes, size, i, end + 1) == SearchFrom(bytes, size, i, end)
    ensures SearchFrom(bytes, size, i, end) == Ok(None) ==> SearchFrom(bytes, size, i, end + 1) == SearchFrom(bytes, size, end, end + 1)
    decreases end - i
  {
    if i < end {
      var hit := WindowHit(bytes[i..i + size], size);
      if hit.Ok? && !hit.value {
        SearchFromExtend(bytes, size, i + 1, end);
      }
    }
  }

  /** On lowercase input the search as written agrees with the intended
      one except when the first marker ends exactly at the end of the
      input: then it reports none. */
  lemma AsWrittenMissesLastWindow(bytes: seq<byte>, size: nat)
    requires AllLowercase(bytes) && size <= |bytes|
    ensures SearchForMarker(bytes, size) == Ok(Some(|bytes|)) ==> SearchForMarkerAsWritten(bytes, size) == Ok(None)
    ensures SearchForMarker(bytes, size) != Ok(Some(|bytes|)) ==> SearchForMarkerAsWritten(bytes, size) == SearchForMarker(bytes, size)
  {
    var end := |bytes| - size;
    SearchFromExtend(bytes, size, 0, end);
    MaskCountsDistinct(bytes[end..end + size]);
  }

  /** The intended search as a loop over window starts, stopping at the
      first window that is a marker or has no mask. */
  method FindMarker(bytes: seq<byte>, size: nat) returns (r: Result<Option<nat>, MarkerError>)
    ensures r == SearchForMarker(bytes, size)
  {
    if |bytes| < size {
      return Ok(None);
    }
    var end := |bytes| - size + 1;
    var i := 0;
    while i < end
      invariant 0 <= i <= end
      invariant SearchFrom(bytes, size, i, end) == SearchFrom(bytes, size, 0, end)
    {
      var mask := WindowMask(bytes[i..i + size]);
      if mask.Err? {
        return Err(mask.error);
      }
      if |mask.value| == AsU32(size) {
        return Ok(Some(i + size));
      }
      i := i + 1;
    }
    return Ok(None);
  }

  // ---------------------------------------------------------------------
  // Markers and examples
  // ---------------------------------------------------------------------

  const StartOfPacketSize: nat := 4
  const StartOfMessageSize: nat := 14

  /** Part one: the end of the first start-of-packet marker. This uses
      the corrected search, which also looks at the window ending at the
      last byte; the solver's loop skips that window. On lowercase input
      the two agree unless that last window is the first marker. */
  function GetAnswerA(bytes: seq<byte>): (r: Result<Option<nat>, MarkerError>)
    ensures |bytes| < StartOfPacketSize ==> r == Ok(None)
    ensures r.Ok? && r.value.Some? ==> StartOfPacketSize <= r.value.value <= |bytes|
    ensures AllLowercase(bytes) ==> r.Ok?
    ensures AllLowercase(bytes) && StartOfPacketSize <= |bytes| && r != Ok(Some(|bytes|)) ==>
      r == SearchForMarkerAsWritten(bytes, StartOfPacketSize)
  {
    if AllLowercase(bytes) then
      SearchForMarkerNone(bytes, StartOfPacketSize);
      if StartOfPacketSize <= |bytes| then
        AsWrittenMissesLastWindow(bytes, StartOfPacketSize);
        SearchForMarker(bytes, StartOfPacketSize)
      else SearchForMarker(bytes, StartOfPacketSize)
    else SearchForMarker(bytes, StartOfPacketSize)
  }

  /** Part two: the end of the first start-of-message marker, with the
      same correction as part one. */
  function GetAnswerB(bytes: seq<byte>): (r: Result<Option<nat>, MarkerError>)
    ensures |bytes| < StartOfMessageSize ==> r == Ok(None)
    ensures r.Ok? && r.value.Some? ==> StartOfMessageSize <= r.value.value <= |bytes|
    ensures AllLowercase(bytes) ==> r.Ok?
    ensures AllLowercase(bytes) && StartOfMessageSize <= |bytes| && r != Ok(Some(|bytes|)) ==>
      r == SearchForMarkerAsWritten(bytes, StartOfMessageSize)
  {
    if AllLowercase(bytes) then
      SearchForMarkerNone(bytes, StartOfMessageSize);
      if StartOfMessageSize <= |bytes| then
        AsWrittenMissesLastWindow(bytes, StartOfMessageSize);
        SearchForMarker(bytes, StartOfMessageSize)
      else SearchForMarker(bytes, StartOfMessageSize)
    else SearchForMarker(bytes, StartOfMessageSize)
  }

  /** The bytes of an ASCII string. */
  function Ascii(s: string): (bytes: seq<byte>)
    requires forall k :: 0 <= k < |s| ==> s[k] as int < 128
    ensures |bytes| == |s| && forall k :: 0 <= k < |s| ==> bytes[k] as int == s[k] as int
  {
    seq(|s|, k requires 0 <= k < |s| => s[k] as int as byte)
  }

  /** Four different letters and nothing after them: the marker ends at
      the last byte. */
  lemma LastWindowExample()
    ensures SearchForMarkerAsWritten(Ascii("abcd"), 4) == Ok(None)
    ensures SearchForMarker(Ascii("abcd"), 4) == Ok(Some(4))
  {
    var bytes := Ascii("abcd");
    assert bytes[0..4] == bytes;
    MaskCountsDistinct(bytes);
  }

  /** "bvwb" repeats a letter ... */
  lemma BvwbIsNoMarker()
    ensures WindowHit([98, 118, 119, 98], 4) == Ok(false)
  {
    var w: seq<byte> := [98, 118, 119, 98];
    assert !Distinct(w) by {
      assert w[0] == w[3];
    }
    WindowHitMeans(w, 4);
  }

  /** ... "vwbj" does not. */
  lemma VwbjIsMarker()
    ensures WindowHit([118, 119, 98, 106], 4) == Ok(true)
  {
    var w: seq<byte> := [118, 119, 98, 106];
    assert Distinct(w);
    WindowHitMeans(w, 4);
  }

  /** In any datastream opening with "bvwbj" the first packet marker ends
      after byte 5. The search as written agrees once a sixth byte
      follows; on exactly "bvwbj" it never looks at the window "vwbj"
      and reports none. */
  lemma OpensWithBvwbj(bytes: seq<byte>)
    requires |bytes| >= 5 && bytes[..5] == [98, 118, 119, 98, 106]
    ensures GetAnswerA(bytes) == Ok(Some(5))
    ensures |bytes| >= 6 ==> SearchForMarkerAsWritten(bytes, 4) == Ok(Some(5))
    ensures |bytes| == 5 ==> SearchForMarkerAsWritten(bytes, 4) == Ok(None)
  {
    OpensWithBvwbjWindows(bytes);
    AnswerAScans(bytes, |bytes| - 4 + 1);
    OpensWithBvwbjUpTo(bytes, |bytes| - 4 + 1);
    OpensWithBvwbjAsWritten(bytes);
  }

  lemma OpensWithBvwbjWindows(bytes: seq<byte>)
    requires |bytes| >= 5 && bytes[..5] == [98, 118, 119, 98, 106]
    ensures WindowHit(bytes[0..4], 4) == Ok(false) && WindowHit(bytes[1..5], 4) == Ok(true)
  {
    assert bytes[0..4] == bytes[..5][0..4] == [98, 118, 119, 98];
    assert bytes[1..5] == bytes[..5][1..5] == [118, 119, 98, 106];
    BvwbIsNoMarker();
    VwbjIsMarker();
  }

  lemma OpensWithBvwbjAsWritten(bytes: seq<byte>)
    requires |bytes| >= 5 && bytes[..5] == [98, 118, 119, 98, 106]
    ensures |bytes| >= 6 ==> SearchForMarkerAsWritten(bytes, 4) == Ok(Some(5))
    ensures |bytes| == 5 ==> SearchForMarkerAsWritten(bytes, 4) == Ok(None)
  {
    OpensWithBvwbjWindows(bytes);
    if |bytes| >= 6 {
      OpensWithBvwbjUpTo(bytes, |bytes| - 4);
    } else {
      MissThenHit(bytes, 4, 0, 4, 1, 1);
    }
  }

  /** A scan over at least the first two starts of such a datastream stops
      at the second window. */
  lemma OpensWithBvwbjUpTo(bytes: seq<byte>, end: nat)
    requires |bytes| >= 5 && 2 <= end && end + 4 <= |bytes| + 1
    requires WindowHit(bytes[0..4], 4) == Ok(false) && WindowHit(bytes[1..5], 4) == Ok(true)
    ensures SearchFrom(bytes, 4, 0, end) == Ok(Some(5))
  {
    MissThenHit(bytes, 4, 0, 4, 1, end);
    HitStops(bytes, 4, 1, 5, end);
  }

  /** The first answer scans every start of a four-byte window. */
  lemma AnswerAScans(bytes: seq<byte>, end: nat)
    requires |bytes| >= 4 && end == |bytes| - 4 + 1
    ensures GetAnswerA(bytes) == SearchFrom(bytes, 4, 0, end)
  {
  }

  /** A window that is a marker ends the scan. */
  lemma HitStops(bytes: seq<byte>, size: nat, i: nat, stop: nat, end: nat)
    requires end + size <= |bytes| + 1 && (end > 0 ==> end - 1 + size <= |bytes|)
    requires stop == i + size && i < end && WindowHit(bytes[i..stop], size) == Ok(true)
    ensures SearchFrom(bytes, size, i, end) == Ok(Some(stop))
  {
  }

  /** A window that is no marker hands the scan on to the next start. */
  lemma MissThenHit(bytes: seq<byte>, size: nat, i: nat, stop: nat, next: nat, end: nat)
    requires end + size <= |bytes| + 1 && (end > 0 ==> end - 1 + size <= |bytes|)
    requires stop == i + size && next == i + 1
    requires i < end && WindowHit(bytes[i..stop], size) == Ok(false)
    ensures SearchFrom(bytes, size, i, end) == SearchFrom(bytes, size, next, end)
  {
  }

  /** The first start-of-packet example. */
  lemma PacketExample()
    ensures GetAnswerA(Ascii("bvwbjplbgvbhsrlpgdmjqwftvncz")) == Ok(Some(5))
  {
    var bytes := Ascii("bvwbjplbgvbhsrlpgdmjqwftvncz");
    assert bytes[..5] == [98, 118, 119, 98, 106];
    OpensWithBvwbj(bytes);
  }
}
