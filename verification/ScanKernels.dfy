/**
 The word-at-a-time scan kernels. Eight bytes are loaded little-endian into a 64-bit word, a borrow trick raises the
 high bit of every matching lane, and the lowest raised lane is reported. A borrow can also raise a lane whose byte
 does not match, but only above a lane that does, which is what `Exact` says.
 */
module ScanKernels {
  import opened Bytes

  const SWAR_ONES: bv64 := 0x0101010101010101
  const SWAR_HIGHS: bv64 := 0x8080808080808080

  function HasZero(w: bv64): bv64 {
    (w - SWAR_ONES) & !w & SWAR_HIGHS
  }

  /** The byte in every lane. */
  function Broadcast(c: bv8): bv64 {
    (c as bv64) * SWAR_ONES
  }

  function HasByteEq(w: bv64, c: bv8): bv64 {
    HasZero(w ^ Broadcast(c))
  }

  function HasByteLessThan(w: bv64, n: bv8): bv64 {
    (w - Broadcast(n)) & !w & SWAR_HIGHS
  }

  function TrailingZeros64(m: bv64): nat
    decreases m
  {
    if m == 0 then 64
    else if m & 1 != 0 then 0
    else Halves(m); 1 + TrailingZeros64(m >> 1)
  }

  lemma Halves(m: bv64)
    requires m != 0
    ensures m >> 1 < m
  {
  }

  // ----- Lanes -----

  function Lane(w: bv64, lane: nat): bv8
    requires lane < 8
  {
    if lane == 0 then (w & 0xFF) as bv8
    else if lane == 1 then ((w >> 8) & 0xFF) as bv8
    else if lane == 2 then ((w >> 16) & 0xFF) as bv8
    else if lane == 3 then ((w >> 24) & 0xFF) as bv8
    else if lane == 4 then ((w >> 32) & 0xFF) as bv8
    else if lane == 5 then ((w >> 40) & 0xFF) as bv8
    else if lane == 6 then ((w >> 48) & 0xFF) as bv8
    else ((w >> 56) & 0xFF) as bv8
  }

  /** The bits of the lanes below `lane`. */
  function Below(lane: nat): bv64
    requires lane <= 8
  {
    if lane == 0 then 0
    else if lane == 1 then 0xFF
    else if lane == 2 then 0xFFFF
    else if lane == 3 then 0xFF_FFFF
    else if lane == 4 then 0xFFFF_FFFF
    else if lane == 5 then 0xFF_FFFF_FFFF
    else if lane == 6 then 0xFFFF_FFFF_FFFF
    else if lane == 7 then 0xFF_FFFF_FFFF_FFFF
    else 0xFFFF_FFFF_FFFF_FFFF
  }

  predicate Raised(m: bv64, lane: nat)
    requires lane < 8
  {
    Lane(m, lane) != 0
  }

  predicate Clear(m: bv64, bits: bv64) {
    m & bits == 0
  }

  predicate ClearBelow(m: bv64, lane: nat)
    requires lane <= 8
  {
    Clear(m, Below(lane))
  }

  predicate LowestLane(m: bv64, lane: nat)
    requires lane < 8
  {
    ClearBelow(m, lane) && Raised(m, lane)
  }

  lemma ShiftByte(m: bv64)
    requires m & 0xFF == 0 && m != 0
    ensures TrailingZeros64(m) == 8 + TrailingZeros64(m >> 8)
  {
    assert TrailingZeros64(m) == 1 + TrailingZeros64(m >> 1);
    assert TrailingZeros64(m >> 1) == 1 + TrailingZeros64((m >> 1) >> 1);
    assert (m >> 1) >> 1 == m >> 2;
    assert TrailingZeros64(m >> 2) == 1 + TrailingZeros64((m >> 2) >> 1);
    assert (m >> 2) >> 1 == m >> 3;
    assert TrailingZeros64(m >> 3) == 1 + TrailingZeros64((m >> 3) >> 1);
    assert (m >> 3) >> 1 == m >> 4;
    assert TrailingZeros64(m >> 4) == 1 + TrailingZeros64((m >> 4) >> 1);
    assert (m >> 4) >> 1 == m >> 5;
    assert TrailingZeros64(m >> 5) == 1 + TrailingZeros64((m >> 5) >> 1);
    assert (m >> 5) >> 1 == m >> 6;
    assert TrailingZeros64(m >> 6) == 1 + TrailingZeros64((m >> 6) >> 1);
    assert (m >> 6) >> 1 == m >> 7;
    assert TrailingZeros64(m >> 7) == 1 + TrailingZeros64((m >> 7) >> 1);
    assert (m >> 7) >> 1 == m >> 8;
  }

  lemma LowByte(m: bv64)
    requires m & 0xFF != 0
    ensures TrailingZeros64(m) < 8
  {
    if m & 0x0F != 0 {
      LowNibble(m);
    } else {
      LowNibble(m >> 4);
      assert TrailingZeros64(m) == 1 + TrailingZeros64(m >> 1);
      assert (m >> 1) >> 1 == m >> 2 && (m >> 2) >> 1 == m >> 3 && (m >> 3) >> 1 == m >> 4;
      assert TrailingZeros64(m >> 1) == 1 + TrailingZeros64(m >> 2);
      assert TrailingZeros64(m >> 2) == 1 + TrailingZeros64(m >> 3);
      assert TrailingZeros64(m >> 3) == 1 + TrailingZeros64(m >> 4);
    }
  }

  lemma LowNibble(m: bv64)
    requires m & 0x0F != 0
    ensures TrailingZeros64(m) < 4
  {
    assert (m >> 1) >> 1 == m >> 2 && (m >> 2) >> 1 == m >> 3;
    assert m & 1 == 0 ==> TrailingZeros64(m) == 1 + TrailingZeros64(m >> 1);
    assert m & 3 == 0 ==> TrailingZeros64(m >> 1) == 1 + TrailingZeros64(m >> 2);
    assert m & 7 == 0 ==> TrailingZeros64(m >> 2) == 1 + TrailingZeros64(m >> 3);
  }

  lemma LowestLaneShifts(m: bv64, lane: nat)
    requires 0 < lane < 8 && LowestLane(m, lane)
    ensures m & 0xFF == 0 && m != 0 && LowestLane(m >> 8, lane - 1)
  {
    if lane == 1 {
    } else if lane == 2 {
    } else if lane == 3 {
    } else if lane == 4 {
    } else if lane == 5 {
    } else if lane == 6 {
    } else {
    }
  }

  /** Dividing the trailing-zero count by eight finds the lowest raised lane. */
  lemma {:induction false} TrailingZerosFindLane(m: bv64, lane: nat)
    requires lane < 8 && LowestLane(m, lane)
    ensures TrailingZeros64(m) / 8 == lane
    decreases lane
  {
    if lane == 0 {
      LowByte(m);
    } else {
      LowestLaneShifts(m, lane);
      ShiftByte(m);
      TrailingZerosFindLane(m >> 8, lane - 1);
    }
  }

  // ----- Loading a word -----

  function Octet(b: Byte): bv8 {
    b as int as bv8
  }

  lemma OctetFaithful(a: Byte, b: Byte)
    ensures Octet(a) == Octet(b) <==> a == b
    ensures Octet(a) < Octet(b) <==> a < b
  {
    OctetValue(a);
    OctetValue(b);
  }

  lemma OctetValue(b: Byte)
    ensures Octet(b) as int == b as int
  {
  }

  type Word8 = s: seq<Byte> | |s| == 8 witness ['a', 'a', 'a', 'a', 'a', 'a', 'a', 'a']

  /** Eight bytes, the first in the lowest lane. */
  function Load(s: Word8): bv64 {
    Pack(Octet(s[0]), Octet(s[1]), Octet(s[2]), Octet(s[3]), Octet(s[4]), Octet(s[5]), Octet(s[6]), Octet(s[7]))
  }

  function Pack(b0: bv8, b1: bv8, b2: bv8, b3: bv8, b4: bv8, b5: bv8, b6: bv8, b7: bv8): bv64 {
    (b0 as bv64) | ((b1 as bv64) << 8) | ((b2 as bv64) << 16) | ((b3 as bv64) << 24)
    | ((b4 as bv64) << 32) | ((b5 as bv64) << 40) | ((b6 as bv64) << 48) | ((b7 as bv64) << 56)
  }

  lemma LanesOfPack(b0: bv8, b1: bv8, b2: bv8, b3: bv8, b4: bv8, b5: bv8, b6: bv8, b7: bv8)
    ensures var w := Pack(b0, b1, b2, b3, b4, b5, b6, b7);
      && Lane(w, 0) == b0 && Lane(w, 1) == b1 && Lane(w, 2) == b2 && Lane(w, 3) == b3
      && Lane(w, 4) == b4 && Lane(w, 5) == b5 && Lane(w, 6) == b6 && Lane(w, 7) == b7
  {
  }

  lemma LaneOfLoad(s: Word8, lane: nat)
    requires lane < 8
    ensures Lane(Load(s), lane) == Octet(s[lane])
  {
    hide Pack, Lane;
    LanesOfPack(Octet(s[0]), Octet(s[1]), Octet(s[2]), Octet(s[3]), Octet(s[4]), Octet(s[5]), Octet(s[6]), Octet(s[7]));
  }

  // ----- Masks -----

  function Is(c: char): char -> bool {
    b => b == c
  }

  function Either(p: char -> bool, q: char -> bool): char -> bool {
    b => p(b) || q(b)
  }

  predicate Control(b: char) {
    b as int < 0x20
  }

  predicate High(b: char) {
    b as int >= 0x80
  }

  /** As long as no lower lane is raised, a lane is raised exactly when its byte stops the scan. */
  ghost predicate Exact(m: bv64, s: Word8, stop: char -> bool) {
    forall lane: nat :: lane < 8 && ClearBelow(m, lane) ==> (Raised(m, lane) <==> stop(s[lane]))
  }

  lemma ZeroLane(w: bv64, lane: nat)
    requires lane < 8 && ClearBelow(HasZero(w), lane)
    ensures Raised(HasZero(w), lane) <==> Lane(w, lane) == 0
  {
    if lane == 0 {
    } else if lane == 1 {
    } else if lane == 2 {
    } else if lane == 3 {
    } else if lane == 4 {
    } else if lane == 5 {
    } else if lane == 6 {
    } else {
    }
  }

  lemma BroadcastLane(c: bv8, lane: nat)
    requires lane < 8
    ensures Lane(Broadcast(c), lane) == c
  {
    if lane == 0 {
    } else if lane == 1 {
    } else if lane == 2 {
    } else if lane == 3 {
    } else if lane == 4 {
    } else if lane == 5 {
    } else if lane == 6 {
    } else {
    }
  }

  lemma XorLane(a: bv64, b: bv64, lane: nat)
    requires lane < 8
    ensures Lane(a ^ b, lane) == Lane(a, lane) ^ Lane(b, lane)
  {
    if lane == 0 {
    } else if lane == 1 {
    } else if lane == 2 {
    } else if lane == 3 {
    } else if lane == 4 {
    } else if lane == 5 {
    } else if lane == 6 {
    } else {
    }
  }

  lemma LaneOfXorIsZero(a: bv64, b: bv64, lane: nat)
    requires lane < 8
    ensures Lane(a ^ b, lane) == 0 <==> Lane(a, lane) == Lane(b, lane)
  {
    hide Lane;
    XorLane(a, b, lane);
    XorIsZero(Lane(a, lane), Lane(b, lane));
  }

  lemma XorIsZero(a: bv8, b: bv8)
    ensures a ^ b == 0 <==> a == b
  {
  }

  lemma ByteEqLane(w: bv64, c: bv8, lane: nat)
    requires lane < 8 && ClearBelow(HasByteEq(w, c), lane)
    ensures Raised(HasByteEq(w, c), lane) <==> Lane(w, lane) == c
  {
    hide HasZero, Lane, ClearBelow, Raised, Broadcast;
    var spread := Broadcast(c);
    ZeroLane(w ^ spread, lane);
    BroadcastLane(c, lane);
    LaneOfXorIsZero(w, spread, lane);
  }

  lemma ControlLane(w: bv64, lane: nat)
    requires lane < 8 && ClearBelow(HasByteLessThan(w, 0x20), lane)
    ensures Raised(HasByteLessThan(w, 0x20), lane) <==> Lane(w, lane) < 0x20
  {
    if lane == 0 {
    } else if lane == 1 {
    } else if lane == 2 {
    } else if lane == 3 {
    } else if lane == 4 {
    } else if lane == 5 {
    } else if lane == 6 {
    } else {
    }
  }

  lemma HighLane(w: bv64, lane: nat)
    requires lane < 8
    ensures Raised(w & SWAR_HIGHS, lane) <==> Lane(w, lane) >= 0x80
  {
  }

  lemma OrLane(m1: bv64, m2: bv64, lane: nat)
    requires lane < 8
    ensures Lane(m1 | m2, lane) == Lane(m1, lane) | Lane(m2, lane)
  {
    if lane == 0 {
    } else if lane == 1 {
    } else if lane == 2 {
    } else if lane == 3 {
    } else if lane == 4 {
    } else if lane == 5 {
    } else if lane == 6 {
    } else {
    }
  }

  lemma OrIsZero(a: bv8, b: bv8)
    ensures a | b == 0 <==> a == 0 && b == 0
  {
  }

  lemma RaisedOr(m1: bv64, m2: bv64, lane: nat)
    requires lane < 8
    ensures Raised(m1 | m2, lane) <==> Raised(m1, lane) || Raised(m2, lane)
  {
    hide Lane;
    OrLane(m1, m2, lane);
    OrIsZero(Lane(m1, lane), Lane(m2, lane));
  }

  lemma ClearOr(m1: bv64, m2: bv64, bits: bv64)
    requires Clear(m1 | m2, bits)
    ensures Clear(m1, bits) && Clear(m2, bits)
  {
    assert (m1 | m2) & bits == (m1 & bits) | (m2 & bits);
  }

  lemma ClearBelowOr(m1: bv64, m2: bv64, lane: nat)
    requires lane <= 8 && ClearBelow(m1 | m2, lane)
    ensures ClearBelow(m1, lane) && ClearBelow(m2, lane)
  {
    hide Below, Clear;
    ClearOr(m1, m2, Below(lane));
  }

  lemma ExactOr(m1: bv64, m2: bv64, s: Word8, stop1: char -> bool, stop2: char -> bool)
    requires Exact(m1, s, stop1) && Exact(m2, s, stop2)
    ensures Exact(m1 | m2, s, Either(stop1, stop2))
  {
    hide Raised, ClearBelow;
    forall lane: nat | lane < 8 && ClearBelow(m1 | m2, lane)
      ensures Raised(m1 | m2, lane) <==> stop1(s[lane]) || stop2(s[lane])
    {
      ClearBelowOr(m1, m2, lane);
      RaisedOr(m1, m2, lane);
    }
  }

  lemma ExactByteEq(s: Word8, c: Byte)
    ensures Exact(HasByteEq(Load(s), Octet(c)), s, Is(c))
  {
    hide Lane, ClearBelow, Raised, HasByteEq, Load, Octet;
    var m := HasByteEq(Load(s), Octet(c));
    forall lane: nat | lane < 8 && ClearBelow(m, lane) ensures Raised(m, lane) <==> s[lane] == c {
      ByteEqLane(Load(s), Octet(c), lane);
      LaneOfLoad(s, lane);
      OctetFaithful(s[lane], c);
    }
  }

  lemma ExactControl(s: Word8)
    ensures Exact(HasByteLessThan(Load(s), 0x20), s, Control)
  {
    hide Lane, ClearBelow, Raised, HasByteLessThan, Load;
    var m := HasByteLessThan(Load(s), 0x20);
    forall lane: nat | lane < 8 && ClearBelow(m, lane) ensures Raised(m, lane) <==> s[lane] as int < 0x20 {
      ControlLane(Load(s), lane);
      LaneOfLoad(s, lane);
      OctetValue(s[lane]);
    }
  }

  lemma ExactHigh(s: Word8)
    ensures Exact(Load(s) & SWAR_HIGHS, s, High)
  {
    hide Lane, ClearBelow, Raised, Load;
    var m := Load(s) & SWAR_HIGHS;
    forall lane: nat | lane < 8 && ClearBelow(m, lane) ensures Raised(m, lane) <==> s[lane] as int >= 0x80 {
      HighLane(Load(s), lane);
      LaneOfLoad(s, lane);
      OctetValue(s[lane]);
    }
  }

  lemma SomeLowestLane(m: bv64) returns (lane: nat)
    requires m != 0
    ensures lane < 8 && LowestLane(m, lane)
  {
    if m & 0xFF != 0 {
      lane := 0;
    } else if m & 0xFFFF != 0 {
      lane := 1;
    } else if m & 0xFF_FFFF != 0 {
      lane := 2;
    } else if m & 0xFFFF_FFFF != 0 {
      lane := 3;
    } else if m & 0xFF_FFFF_FFFF != 0 {
      lane := 4;
    } else if m & 0xFFFF_FFFF_FFFF != 0 {
      lane := 5;
    } else if m & 0xFF_FFFF_FFFF_FFFF != 0 {
      lane := 6;
    } else {
      lane := 7;
    }
  }

  lemma LowerLanesAreZero(m: bv64, lane: nat, lower: nat)
    requires lower < lane <= 8 && ClearBelow(m, lane)
    ensures ClearBelow(m, lower) && !Raised(m, lower)
  {
    if lower == 0 {
    } else if lower == 1 {
    } else if lower == 2 {
    } else if lower == 3 {
    } else if lower == 4 {
    } else if lower == 5 {
    } else if lower == 6 {
    } else {
    }
  }

  /** A raised lane of an exact mask: its index is the first stop of the word, whatever borrows raised above it. */
  lemma ExactFindsFirst(m: bv64, s: Word8, stop: char -> bool)
    requires Exact(m, s, stop)
    ensures m != 0 ==> TrailingZeros64(m) / 8 == FirstStop(s, stop) < 8
    ensures m == 0 ==> FirstStop(s, stop) == 8
  {
    hide Raised, ClearBelow, TrailingZeros64;
    var lane: nat := 8;
    if m != 0 {
      lane := SomeLowestLane(m);
      TrailingZerosFindLane(m, lane);
    }
    AllZeroBelow(m);
    forall lower: nat | lower < lane ensures !stop(s[lower]) {
      LowerLanesAreZero(m, lane, lower);
    }
    FirstStopUnique(s, stop, lane);
  }

  lemma AllZeroBelow(m: bv64)
    ensures m == 0 ==> ClearBelow(m, 8)
  {
  }

  // ----- The kernels -----

  /** Scanning on from `i` when nothing before it stops. */
  lemma FirstStopFrom(s: string, stop: char -> bool, i: nat)
    requires i <= |s| && forall j :: 0 <= j < i ==> !stop(s[j])
    ensures FirstStop(s, stop) == i + FirstStop(s[i..], stop)
  {
    var rest := s[i..];
    var n := FirstStop(rest, stop);
    forall j | i <= j < i + n ensures !stop(s[j]) {
      assert s[j] == rest[j - i];
    }
    assert n < |rest| ==> s[i + n] == rest[n];
    FirstStopUnique(s, stop, i + n);
  }

  /** What an exact mask of the word at `i` tells the loop: the answer, or that the word holds no stop. */
  lemma WordDecides(s: seq<Byte>, i: nat, m: bv64, stop: char -> bool)
    requires i + 8 <= |s| && (forall j :: 0 <= j < i ==> !stop(s[j]))
    requires Exact(m, s[i..i + 8], stop)
    ensures m != 0 ==> FirstStop(s, stop) == i + TrailingZeros64(m) / 8
    ensures m == 0 ==> forall j :: 0 <= j < i + 8 ==> !stop(s[j])
  {
    hide Exact, TrailingZeros64;
    var word := s[i..i + 8];
    ExactFindsFirst(m, word, stop);
    var n := FirstStop(word, stop);
    forall j | i <= j < i + n ensures !stop(s[j]) {
      assert s[j] == word[j - i];
    }
    if m != 0 {
      assert s[i + n] == word[n];
      FirstStopUnique(s, stop, i + n);
    }
  }

  lemma ExactAgrees(m: bv64, s: Word8, stop: char -> bool, stop': char -> bool)
    requires Exact(m, s, stop) && forall i :: 0 <= i < 8 ==> stop(s[i]) == stop'(s[i])
    ensures Exact(m, s, stop')
  {
    hide Raised, ClearBelow;
  }

  /** One more byte in the class, and its mask in the word's. */
  lemma ExactOrByte(m: bv64, s: Word8, stop: char -> bool, c: Byte)
    requires Exact(m, s, stop)
    ensures Exact(m | HasByteEq(Load(s), Octet(c)), s, Either(stop, Is(c)))
  {
    hide HasByteEq, Load, Octet, Exact;
    ExactByteEq(s, c);
    ExactOr(m, HasByteEq(Load(s), Octet(c)), s, stop, Is(c));
  }

  /** The byte-by-byte scan: the oracle of a class, and the tail of its kernel. */
  method ScanScalar(s: string, stop: char -> bool) returns (r: nat)
    ensures r == FirstStop(s, stop)
  {
    var i := 0;
    while i < |s|
      invariant 0 <= i <= |s| && forall j :: 0 <= j < i ==> !stop(s[j])
    {
      if stop(s[i]) {
        FirstStopUnique(s, stop, i);
        return i;
      }
      i := i + 1;
    }
    FirstStopUnique(s, stop, |s|);
    return |s|;
  }

  function BasicStringMask(w: bv64): bv64 {
    HasByteEq(w, Octet('"')) | HasByteEq(w, Octet('\\'))
  }

  lemma BasicStringMaskExact(s: Word8)
    ensures Exact(BasicStringMask(Load(s)), s, BasicStringStop)
  {
    hide HasByteEq, Load, Octet, Exact;
    var w := Load(s);
    ExactByteEq(s, '"');
    ExactOrByte(HasByteEq(w, Octet('"')), s, Is('"'), '\\');
    ExactAgrees(BasicStringMask(w), s, Either(Is('"'), Is('\\')), BasicStringStop);
  }

  method ScanBasicString(s: seq<Byte>) returns (r: nat)
    ensures r == FirstStop(s, BasicStringStop)
  {
    hide BasicStringMask, Load, TrailingZeros64;
    var i := 0;
    while i + 8 <= |s|
      invariant 0 <= i <= |s| && forall j :: 0 <= j < i ==> !BasicStringStop(s[j])
    {
      var m := BasicStringMask(Load(s[i..i + 8]));
      BasicStringMaskExact(s[i..i + 8]);
      WordDecides(s, i, m, BasicStringStop);
      if m != 0 {
        return i + TrailingZeros64(m) / 8;
      }
      i := i + 8;
    }
    while i < |s|
      invariant 0 <= i <= |s| && forall j :: 0 <= j < i ==> !BasicStringStop(s[j])
    {
      if s[i] == '"' || s[i] == '\\' {
        FirstStopUnique(s, BasicStringStop, i);
        return i;
      }
      i := i + 1;
    }
    FirstStopUnique(s, BasicStringStop, |s|);
    return |s|;
  }

  function EscapeMask(w: bv64): bv64 {
    BasicStringMask(w) | HasByteLessThan(w, 0x20) | (w & SWAR_HIGHS)
  }

  lemma EscapeMaskExact(s: Word8)
    ensures Exact(EscapeMask(Load(s)), s, BasicStringEscapeStop)
  {
    hide BasicStringMask, HasByteLessThan, Load, Exact;
    var w := Load(s);
    BasicStringMaskExact(s);
    ExactControl(s);
    ExactHigh(s);
    ExactOr(BasicStringMask(w), HasByteLessThan(w, 0x20), s, BasicStringStop, Control);
    ExactOr(BasicStringMask(w) | HasByteLessThan(w, 0x20), w & SWAR_HIGHS, s, Either(BasicStringStop, Control), High);
    ExactAgrees(EscapeMask(w), s, Either(Either(BasicStringStop, Control), High), BasicStringEscapeStop);
  }

  method ScanBasicStringEscape(s: seq<Byte>) returns (r: nat)
    ensures r == FirstStop(s, BasicStringEscapeStop)
  {
    hide EscapeMask, Load, TrailingZeros64;
    var i := 0;
    while i + 8 <= |s|
      invariant 0 <= i <= |s| && forall j :: 0 <= j < i ==> !BasicStringEscapeStop(s[j])
    {
      var m := EscapeMask(Load(s[i..i + 8]));
      EscapeMaskExact(s[i..i + 8]);
      WordDecides(s, i, m, BasicStringEscapeStop);
      if m != 0 {
        return i + TrailingZeros64(m) / 8;
      }
      i := i + 8;
    }
    var tail := ScanScalar(s[i..], BasicStringEscapeStop);
    FirstStopFrom(s, BasicStringEscapeStop, i);
    return i + tail;
  }

  // The next two kernels let a mask raise lanes of a larger class, tab included, and confirm the word byte by byte.

  function ControlOrDelMask(w: bv64): bv64 {
    HasByteEq(w, Octet(0x7f as char)) | HasByteLessThan(w, 0x20)
  }

  predicate ControlOrDel(b: char) {
    b as int == 0x7f || b as int < 0x20
  }

  lemma ControlOrDelMaskExact(s: Word8)
    ensures Exact(ControlOrDelMask(Load(s)), s, ControlOrDel)
  {
    hide HasByteEq, HasByteLessThan, Load, Octet, Exact;
    var w, del: Byte := Load(s), 0x7f as char;
    ExactByteEq(s, del);
    ExactControl(s);
    ExactOr(HasByteEq(w, Octet(del)), HasByteLessThan(w, 0x20), s, Is(del), Control);
    ExactAgrees(ControlOrDelMask(w), s, Either(Is(del), Control), ControlOrDel);
  }

  /** The byte-by-byte confirmation of the word at `i`: the answer, or that the word holds no stop. */
  lemma WordConfirmed(s: seq<Byte>, i: nat, stop: char -> bool)
    requires i + 8 <= |s| && (forall j :: 0 <= j < i ==> !stop(s[j]))
    ensures var n := FirstStop(s[i..i + 8], stop);
      && (n == 8 ==> forall j :: 0 <= j < i + 8 ==> !stop(s[j]))
      && (n < 8 ==> FirstStop(s, stop) == i + n)
  {
    var word := s[i..i + 8];
    var n := FirstStop(word, stop);
    forall j | i <= j < i + n ensures !stop(s[j]) {
      assert s[j] == word[j - i];
    }
    if n < 8 {
      assert s[i + n] == word[n];
      FirstStopUnique(s, stop, i + n);
    }
  }

  /** A word whose mask for a larger class is zero needs no confirmation. */
  lemma WordSkipped(word: Word8, m: bv64, wide: char -> bool, stop: char -> bool)
    requires Exact(m, word, wide) && forall b :: stop(b) ==> wide(b)
    ensures m == 0 ==> FirstStop(word, stop) == 8
  {
    hide Exact, TrailingZeros64;
    ExactFindsFirst(m, word, wide);
    if FirstStop(word, wide) == 8 {
      FirstStopUnique(word, stop, 8);
    }
  }

  function StrictMask(w: bv64): bv64 {
    BasicStringMask(w) | ControlOrDelMask(w)
  }

  predicate StrictWide(b: char) {
    BasicStringStop(b) || ControlOrDel(b)
  }

  lemma StrictMaskExact(s: Word8)
    ensures Exact(StrictMask(Load(s)), s, StrictWide)
  {
    hide BasicStringMask, ControlOrDelMask, Load, Exact;
    var w := Load(s);
    BasicStringMaskExact(s);
    ControlOrDelMaskExact(s);
    ExactOr(BasicStringMask(w), ControlOrDelMask(w), s, BasicStringStop, ControlOrDel);
    ExactAgrees(StrictMask(w), s, Either(BasicStringStop, ControlOrDel), StrictWide);
  }

  method ScanBasicStringStrict(s: seq<Byte>) returns (r: nat)
    ensures r == FirstStop(s, BasicStringStrictStop)
  {
    hide StrictMask, Load, TrailingZeros64, Exact;
    var i := 0;
    while i + 8 <= |s|
      invariant 0 <= i <= |s| && forall j :: 0 <= j < i ==> !BasicStringStrictStop(s[j])
    {
      var m := StrictMask(Load(s[i..i + 8]));
      StrictMaskExact(s[i..i + 8]);
      WordSkipped(s[i..i + 8], m, StrictWide, BasicStringStrictStop);
      WordConfirmed(s, i, BasicStringStrictStop);
      if m != 0 {
        var n := ScanScalar(s[i..i + 8], BasicStringStrictStop);
        if n < 8 {
          return i + n;
        }
      }
      i := i + 8;
    }
    var tail := ScanScalar(s[i..], BasicStringStrictStop);
    FirstStopFrom(s, BasicStringStrictStop, i);
    return i + tail;
  }

  method ScanCommentBody(s: seq<Byte>) returns (r: nat)
    ensures r == FirstStop(s, CommentBodyStop)
  {
    hide ControlOrDelMask, Load, TrailingZeros64, Exact;
    var i := 0;
    while i + 8 <= |s|
      invariant 0 <= i <= |s| && forall j :: 0 <= j < i ==> !CommentBodyStop(s[j])
    {
      var m := ControlOrDelMask(Load(s[i..i + 8]));
      ControlOrDelMaskExact(s[i..i + 8]);
      WordSkipped(s[i..i + 8], m, ControlOrDel, CommentBodyStop);
      WordConfirmed(s, i, CommentBodyStop);
      if m != 0 {
        var n := ScanScalar(s[i..i + 8], CommentBodyStop);
        if n < 8 {
          return i + n;
        }
      }
      i := i + 8;
    }
    var tail := ScanScalar(s[i..], CommentBodyStop);
    FirstStopFrom(s, CommentBodyStop, i);
    return i + tail;
  }

  /** The union of the masks of some bytes, and the class it raises. */
  function MaskOf(w: bv64, bytes: seq<Byte>): bv64
    requires bytes != []
  {
    var last := HasByteEq(w, Octet(bytes[|bytes| - 1]));
    if |bytes| == 1 then last else MaskOf(w, bytes[..|bytes| - 1]) | last
  }

  function AnyOf(bytes: seq<Byte>): char -> bool
    requires bytes != []
  {
    var last := Is(bytes[|bytes| - 1]);
    if |bytes| == 1 then last else Either(AnyOf(bytes[..|bytes| - 1]), last)
  }

  lemma {:induction false} AnyOfIsMembership(bytes: seq<Byte>, b: char)
    requires bytes != []
    ensures AnyOf(bytes)(b) <==> b in bytes
  {
    if |bytes| > 1 {
      AnyOfIsMembership(bytes[..|bytes| - 1], b);
      assert bytes == bytes[..|bytes| - 1] + [bytes[|bytes| - 1]];
    }
  }

  lemma {:induction false} MaskOfExact(s: Word8, bytes: seq<Byte>)
    requires bytes != []
    ensures Exact(MaskOf(Load(s), bytes), s, AnyOf(bytes))
  {
    hide HasByteEq, Load, Octet, Exact;
    var last := bytes[|bytes| - 1];
    if |bytes| == 1 {
      ExactByteEq(s, last);
    } else {
      MaskOfExact(s, bytes[..|bytes| - 1]);
      ExactOrByte(MaskOf(Load(s), bytes[..|bytes| - 1]), s, AnyOf(bytes[..|bytes| - 1]), last);
    }
  }

  const DELIMITERS: seq<Byte> := [' ', '\t', '\r', '\n', ',', ']', '}', '#', '=']

  function BareValueMask(w: bv64): bv64 {
    MaskOf(w, DELIMITERS)
  }

  lemma BareValueMaskExact(s: Word8)
    ensures Exact(BareValueMask(Load(s)), s, BareValueDelimiter)
  {
    hide MaskOf, AnyOf, Load, Exact;
    MaskOfExact(s, DELIMITERS);
    forall i | 0 <= i < 8 ensures AnyOf(DELIMITERS)(s[i]) == BareValueDelimiter(s[i]) {
      AnyOfIsMembership(DELIMITERS, s[i]);
    }
    ExactAgrees(BareValueMask(Load(s)), s, AnyOf(DELIMITERS), BareValueDelimiter);
  }

  method ScanBareValueEnd(s: seq<Byte>) returns (r: nat)
    ensures r == FirstStop(s, BareValueDelimiter)
  {
    hide BareValueMask, Load, TrailingZeros64;
    var i := 0;
    while i + 8 <= |s|
      invariant 0 <= i <= |s| && forall j :: 0 <= j < i ==> !BareValueDelimiter(s[j])
    {
      var m := BareValueMask(Load(s[i..i + 8]));
      BareValueMaskExact(s[i..i + 8]);
      WordDecides(s, i, m, BareValueDelimiter);
      if m != 0 {
        return i + TrailingZeros64(m) / 8;
      }
      i := i + 8;
    }
    var tail := ScanScalar(s[i..], BareValueDelimiter);
    FirstStopFrom(s, BareValueDelimiter, i);
    return i + tail;
  }

  method ScanLiteralString(s: seq<Byte>) returns (r: nat)
    ensures r == FirstStop(s, LiteralStringStop)
  {
    hide HasByteEq, Load, Octet, TrailingZeros64;
    var i := 0;
    while i + 8 <= |s|
      invariant 0 <= i <= |s| && forall j :: 0 <= j < i ==> !LiteralStringStop(s[j])
    {
      var m := HasByteEq(Load(s[i..i + 8]), Octet('\''));
      ExactByteEq(s[i..i + 8], '\'');
      ExactAgrees(m, s[i..i + 8], Is('\''), LiteralStringStop);
      WordDecides(s, i, m, LiteralStringStop);
      if m != 0 {
        return i + TrailingZeros64(m) / 8;
      }
      i := i + 8;
    }
    var tail := ScanScalar(s[i..], LiteralStringStop);
    FirstStopFrom(s, LiteralStringStop, i);
    return i + tail;
  }

  /** Unlike the other kernels, this one answers -1 when there is no newline. */
  method LocateNewline(s: seq<Byte>) returns (r: int)
    ensures r == if '\n' in s then FirstStop(s, NewlineStop) else -1
  {
    hide HasByteEq, Load, Octet, TrailingZeros64;
    var i := 0;
    while i + 8 <= |s|
      invariant 0 <= i <= |s| && forall j :: 0 <= j < i ==> !NewlineStop(s[j])
    {
      var m := HasByteEq(Load(s[i..i + 8]), Octet('\n'));
      ExactByteEq(s[i..i + 8], '\n');
      ExactAgrees(m, s[i..i + 8], Is('\n'), NewlineStop);
      WordDecides(s, i, m, NewlineStop);
      if m != 0 {
        ExactFindsFirst(m, s[i..i + 8], NewlineStop);
        return i + TrailingZeros64(m) / 8;
      }
      i := i + 8;
    }
    while i < |s|
      invariant 0 <= i <= |s| && forall j :: 0 <= j < i ==> !NewlineStop(s[j])
    {
      if s[i] == '\n' {
        FirstStopUnique(s, NewlineStop, i);
        return i;
      }
      i := i + 1;
    }
    return -1;
  }
}
