/**
 Recovering texts from raw bytes: Base 128 varints and the scan for length-prefixed UTF-8 texts behind a
 three-byte marker. Byte operations are written out bit by bit where the code uses bitwise operators.
 */
module WireScan {
  import opened Common
  import Text

  type Byte = b: int | 0 <= b < 256

  // ---------------------------------------------------------------- bits

  /** Bitwise or of two natural numbers. */
  function BitOr(a: nat, b: nat): nat {
    if a == 0 && b == 0 then 0
    else 2 * BitOr(a / 2, b / 2) + (if a % 2 == 1 || b % 2 == 1 then 1 else 0)
  }

  function BitAnd(a: nat, b: nat): nat {
    if a == 0 && b == 0 then 0
    else 2 * BitAnd(a / 2, b / 2) + (if a % 2 == 1 && b % 2 == 1 then 1 else 0)
  }

  function Pow2(n: nat): (p: nat)
    ensures p > 0
  {
    if n == 0 then 1 else 2 * Pow2(n - 1)
  }

  function ShiftLeft(a: nat, n: nat): nat { a * Pow2(n) }

  lemma {:induction false} OrZero(b: nat)
    ensures BitOr(0, b) == b && BitOr(b, 0) == b
  {
    if b > 0 { OrZero(b / 2); }
  }

  /** Setting bits that are above all bits of `a` is adding them. */
  lemma {:induction false} OrIsAdd(a: nat, c: nat, n: nat)
    requires a < Pow2(n)
    ensures BitOr(a, ShiftLeft(c, n)) == a + ShiftLeft(c, n)
  {
    if n == 0 {
      OrZero(c);
    } else {
      var high := ShiftLeft(c, n - 1);
      assert ShiftLeft(c, n) == 2 * high;
      OrIsAdd(a / 2, c, n - 1);
      if a == 0 && high == 0 {
        OrZero(0);
      }
    }
  }

  lemma {:induction false} AndZero(a: nat)
    ensures BitAnd(a, 0) == 0
  {
    if a > 0 { AndZero(a / 2); }
  }

  /** Masking with `2^n - 1` keeps the low `n` bits. */
  lemma {:induction false} AndIsMod(a: nat, n: nat)
    ensures BitAnd(a, Pow2(n) - 1) == a % Pow2(n)
  {
    if n == 0 {
      AndZero(a);
    } else {
      AndIsMod(a / 2, n - 1);
      HalfMod(a, Pow2(n - 1));
    }
  }

  lemma HalfMod(a: nat, p: nat)
    requires p > 0
    ensures a % (2 * p) == 2 * ((a / 2) % p) + a % 2
  {
    var q, r := (a / 2) / p, (a / 2) % p;
    assert a / 2 == q * p + r;
    assert a == 2 * (q * p + r) + a % 2 == q * (2 * p) + (2 * r + a % 2);
    ModUnique(a, 2 * p, q, 2 * r + a % 2);
  }

  lemma ModUnique(a: nat, d: nat, q: nat, r: nat)
    requires d > 0 && r < d && a == q * d + r
    ensures a % d == r && a / d == q
  {
    var q', r' := a / d, a % d;
    assert a == q' * d + r';
    SmallMultiple(q - q', d, r' - r);
  }

  lemma Negate(k: int, d: int)
    ensures (-k) * d == -(k * d)
  {
  }

  lemma SmallMultiple(k: int, d: int, x: int)
    requires k * d == x && -d < x < d
    ensures k == 0
  {
    if k > 0 {
      AtLeast(k, d);
    } else if k < 0 {
      AtLeast(-k, d);
      Negate(k, d);
    }
  }

  lemma {:induction false} AtLeast(k: int, d: int)
    requires k > 0 && d > 0
    ensures k * d >= d
  {
    if k > 1 {
      AtLeast(k - 1, d);
      assert k * d == (k - 1) * d + d;
    }
  }

  // ---------------------------------------------------------------- varints

  /** The Base 128 encoding: seven bits a byte, least significant first, the top bit set on all bytes but the last. */
  function Encode(value: nat): seq<Byte> {
    if value < 128 then [value] else [value % 128 + 128] + Encode(value / 128)
  }

  /** What the bytes of a varint stand for and how many there are, if it ends within `room` bytes. */
  function Decode(data: seq<Byte>, room: nat): Option<(nat, nat)> {
    if room == 0 || data == [] then None
    else if data[0] < 128 then Some((data[0], 1))
    else
      var rest := Decode(data[1..], room - 1);
      if rest.Some? then Some((data[0] % 128 + 128 * rest.value.0, rest.value.1 + 1)) else None
  }

  const MAX_BYTES: nat := 10

  lemma PowSeven(n: nat)
    ensures Pow2(n + 7) == 128 * Pow2(n)
  {
    assert Pow2(n + 1) == 2 * Pow2(n) && Pow2(n + 2) == 4 * Pow2(n) && Pow2(n + 3) == 8 * Pow2(n);
    assert Pow2(n + 4) == 16 * Pow2(n) && Pow2(n + 5) == 32 * Pow2(n) && Pow2(n + 6) == 64 * Pow2(n);
  }

  lemma MaskLow(b: Byte)
    ensures BitAnd(b, 0x7F) == b % 128
  {
    assert Pow2(7) == 128 by { PowSeven(0); }
    AndIsMod(b, 7);
  }

  /** Or-ing in the low bits of the next byte adds them, seven bits up each time. */
  lemma Accumulate(value: nat, byte: Byte, shift: nat)
    requires value < Pow2(shift)
    ensures var value' := BitOr(value, ShiftLeft(BitAnd(byte, 0x7F), shift));
      value' == value + (byte % 128) * Pow2(shift) && value' < Pow2(shift + 7)
    ensures Pow2(shift + 7) == 128 * Pow2(shift)
  {
    MaskLow(byte);
    OrIsAdd(value, byte % 128, shift);
    AddBits(value, byte % 128, shift);
    PowSeven(shift);
  }

  /** The loop of the decoder, from an offset into a buffer: the value and the offset after its last byte. */
  method DecodeVarint(data: seq<Byte>, offset: nat) returns (r: Option<(nat, nat)>)
    requires offset <= |data|
    ensures var d := Decode(data[offset..], MAX_BYTES);
      r == if d.Some? then Some((d.value.0, offset + d.value.1)) else None
  {
    var value: nat, shift: nat := 0, 0;
    var end := if offset + 10 < |data| then offset + 10 else |data|;
    ghost var all, rest, count: nat := data[offset..], data[offset..], 0;
    for index := offset to end
      invariant count == index - offset && rest == data[index..]
      invariant value < Pow2(shift)
      invariant Tail(all, MAX_BYTES, rest, 10 - count, value, Pow2(shift), count)
    {
      var byte := data[index];
      LoopStep(all, rest, count, value, shift);
      DropDrop(data, index, 1);
      value := BitOr(value, ShiftLeft(BitAnd(byte, 0x7F), shift));
      if byte < 0x80 {
        return Some((value, index + 1));
      }
      shift := shift + 7;
      rest, count := rest[1..], count + 1;
    }
    return None;
  }

  lemma LoopStep(all: seq<Byte>, rest: seq<Byte>, count: nat, value: nat, shift: nat)
    requires count < 10 && rest != [] && value < Pow2(shift)
    requires Tail(all, MAX_BYTES, rest, 10 - count, value, Pow2(shift), count)
    ensures var value' := BitOr(value, ShiftLeft(BitAnd(rest[0], 0x7F), shift));
      && value' < Pow2(shift + 7)
      && (rest[0] < 128 ==> Decode(all, MAX_BYTES) == Some((value', count + 1)))
      && (rest[0] >= 128 ==> Tail(all, MAX_BYTES, rest[1..], 9 - count, value', Pow2(shift + 7), count + 1))
  {
    var unit := Pow2(shift);
    DecodeStep(all, MAX_BYTES, rest, 10 - count, value, unit, count);
    Accumulate(value, rest[0], shift);
  }

  lemma AddBits(value: nat, low: nat, shift: nat)
    requires value < Pow2(shift) && low < 128
    ensures value + ShiftLeft(low, shift) < Pow2(shift + 7)
  {
    PowSeven(shift);
    assert low * Pow2(shift) <= 127 * Pow2(shift);
  }

  /** Decoding the whole is decoding what is left, `value` and `count` bytes having been read. */
  ghost predicate Tail(all: seq<Byte>, room: nat, rest: seq<Byte>, left: int, value: nat, unit: nat, count: nat) {
    && left >= 0
    && var d := Decode(rest, left);
       Decode(all, room) == if d.Some? then Some((value + unit * d.value.0, count + d.value.1)) else None
  }

  lemma DecodeStep(all: seq<Byte>, room: nat, rest: seq<Byte>, left: int, value: nat, unit: nat, count: nat)
    requires Tail(all, room, rest, left, value, unit, count) && left > 0 && rest != []
    ensures rest[0] < 128 ==> Decode(all, room) == Some((value + (rest[0] % 128) * unit, count + 1))
    ensures rest[0] >= 128 ==>
      Tail(all, room, rest[1..], left - 1, value + (rest[0] % 128) * unit, 128 * unit, count + 1)
  {
    if rest[0] < 128 {
      assert rest[0] % 128 == rest[0];
    } else {
      var d := Decode(rest[1..], left - 1);
      if d.Some? { Distribute(unit, rest[0] % 128, d.value.0); }
    }
  }

  lemma Distribute(unit: nat, low: nat, high: nat)
    ensures unit * (low + 128 * high) == low * unit + 128 * unit * high
  {
  }

  /** How many bytes the encoding takes: one for every seven bits begun. */
  lemma {:induction false} EncodeLength(value: nat, n: nat)
    requires n > 0 && value < Pow2(7 * n)
    ensures 0 < |Encode(value)| <= n
  {
    if value >= 128 {
      assert Pow2(7) == 128 by { PowSeven(0); }
      assert n > 1;
      PowSeven(7 * (n - 1));
      DivBelow(value, Pow2(7 * (n - 1)));
      EncodeLength(value / 128, n - 1);
    }
  }

  lemma DivBelow(value: nat, p: nat)
    requires value < 128 * p
    ensures value / 128 < p
  {
  }

  /** Decoding what was encoded gives it back and consumes exactly its bytes, whatever follows them. */
  lemma {:induction false} DecodeEncode(value: nat, rest: seq<Byte>, room: nat)
    requires |Encode(value)| <= room
    ensures Decode(Encode(value) + rest, room) == Some((value, |Encode(value)|))
  {
    if value >= 128 {
      var tail := Encode(value / 128);
      DecodeEncode(value / 128, rest, room - 1);
      assert Encode(value) == [value % 128 + 128] + tail;
      assert (Encode(value) + rest)[1..] == tail + rest;
      assert value % 128 + 128 * (value / 128) == value;
    }
  }

  /** Every value below 2^70 survives encoding and decoding. */
  lemma VarintRoundTrip(value: nat, rest: seq<Byte>)
    requires value < Pow2(70)
    ensures Decode(Encode(value) + rest, MAX_BYTES) == Some((value, |Encode(value)|))
  {
    EncodeLength(value, 10);
    DecodeEncode(value, rest, MAX_BYTES);
  }

  /** Decoding reads at most ten bytes, stays in the buffer, depends on nothing after the bytes it reads. */
  lemma {:induction false} DecodeIsLocal(data: seq<Byte>, room: nat, other: seq<Byte>)
    requires Decode(data, room).Some?
    ensures var (value, count) := Decode(data, room).value;
      && 0 < count <= room && count <= |data| && value < Pow2(7 * count)
      && data[count - 1] < 128 && (forall i | 0 <= i < count - 1 :: data[i] >= 128)
      && Decode(data[..count] + other, room) == Some((value, count))
  {
    assert Pow2(7) == 128 by { PowSeven(0); }
    if data[0] >= 128 {
      DecodeIsLocal(data[1..], room - 1, other);
      var (value, count) := Decode(data[1..], room - 1).value;
      PowSeven(7 * count);
      assert (data[..count + 1] + other)[1..] == data[1..][..count] + other;
      assert forall i | 1 <= i < count :: data[i] == data[1..][i - 1];
    }
  }

  /** No value: the first ten bytes, or all there are, ask for another byte. */
  lemma {:induction false} DecodeFailsExactly(data: seq<Byte>, room: nat)
    ensures Decode(data, room).None?
       <==> forall i | 0 <= i < |data| && i < room :: data[i] >= 128
  {
    if room > 0 && data != [] && data[0] >= 128 {
      DecodeFailsExactly(data[1..], room - 1);
      assert forall i | 1 <= i < |data| :: data[i] == data[1..][i - 1];
    }
  }

  // ---------------------------------------------------------------- framed texts

  const MARKER: seq<Byte> := [0x10, 0x02, 0x1A]

  const MAX_LENGTH: nat := 2_000_000

  predicate MarkerAt(data: seq<Byte>, p: nat) { p + 3 <= |data| && data[p..p + 3] == MARKER }

  /** What the scan makes of bytes: UTF-8 decoding and the check that the result looks like text. */
  datatype Texts = Texts(utf8: seq<Byte> -> Option<string>, plausible: string -> bool)

  /** Line ends made uniform and white space at the ends removed. */
  function Normalize(text: string): string { Text.Strip(UniformLineEnds(text)) }

  function UniformLineEnds(text: string): string {
    if |text| >= 2 && text[0] == '\r' && text[1] == '\n' then ['\n'] + UniformLineEnds(text[2..])
    else if text != "" then [text[0]] + UniformLineEnds(text[1..])
    else ""
  }

  /** The text framed by a marker at `p`, if there is a valid one. */
  function TextAt(data: seq<Byte>, t: Texts, p: nat): Option<string>
    requires p + 3 <= |data|
  {
    var length := Decode(data[p + 3..], MAX_BYTES);
    if length.None? || length.value.0 == 0 || length.value.0 > MAX_LENGTH then None
    else
      var start := p + 3 + length.value.1;
      var end := start + length.value.0;
      if end > |data| then None
      else
        var text := t.utf8(data[start..end]);
        if text.None? || !t.plausible(text.value) then None else text
  }

  function AppendNew(items: seq<string>, normalized: string): seq<string> {
    if normalized == "" || normalized in items then items else items + [normalized]
  }

  method UniqueAppend(items: seq<string>, value: string) returns (r: seq<string>)
    ensures r == AppendNew(items, Normalize(value))
  {
    r := items;
    var normalized := Normalize(value);
    if normalized != "" && normalized !in items {
      r := r + [normalized];
    }
  }

  /** The texts of all markers before `p`, each once, in first-seen order. */
  function TextsBefore(data: seq<Byte>, t: Texts, p: nat): seq<string>
    requires p <= |data|
  {
    if p == 0 then []
    else
      var earlier := TextsBefore(data, t, p - 1);
      if MarkerAt(data, p - 1) && TextAt(data, t, p - 1).Some? then
        AppendNew(earlier, Normalize(TextAt(data, t, p - 1).value))
      else earlier
  }

  /** The next marker at or after `p`, as the pattern search finds it. */
  function NextMarker(data: seq<Byte>, p: nat): Option<nat>
    decreases |data| - p
  {
    if p + 3 > |data| then None else if MarkerAt(data, p) then Some(p) else NextMarker(data, p + 1)
  }

  lemma {:induction false} NextMarkerIsFirst(data: seq<Byte>, t: Texts, p: nat)
    requires p <= |data|
    ensures var next := NextMarker(data, p);
      && (next.Some? ==> p <= next.value && MarkerAt(data, next.value))
      && (next.Some? ==> TextsBefore(data, t, next.value) == TextsBefore(data, t, p))
      && (next.None? ==> TextsBefore(data, t, |data|) == TextsBefore(data, t, p))
    decreases |data| - p
  {
    if p < |data| && !MarkerAt(data, p) { NextMarkerIsFirst(data, t, p + 1); }
  }

  /** A marker cannot overlap with itself, so resuming the search behind it misses none. */
  lemma MarkersDoNotOverlap(data: seq<Byte>, p: nat)
    requires MarkerAt(data, p)
    ensures !MarkerAt(data, p + 1) && !MarkerAt(data, p + 2)
  {
    assert data[p + 1] == data[p..p + 3][1] && data[p + 2] == data[p..p + 3][2];
    MarkerStarts(data, p + 1);
    MarkerStarts(data, p + 2);
  }

  lemma MarkerStarts(data: seq<Byte>, p: nat)
    ensures MarkerAt(data, p) ==> p < |data| && data[p] == MARKER[0]
  {
    if MarkerAt(data, p) { assert data[p] == data[p..p + 3][0]; }
  }

  lemma SkipMarker(data: seq<Byte>, t: Texts, p: nat)
    requires MarkerAt(data, p)
    ensures var earlier, text := TextsBefore(data, t, p), TextAt(data, t, p);
      TextsBefore(data, t, p + 3) == if text.Some? then AppendNew(earlier, Normalize(text.value)) else earlier
  {
    MarkersDoNotOverlap(data, p);
    assert TextsBefore(data, t, p + 3) == TextsBefore(data, t, p + 2);
    assert TextsBefore(data, t, p + 2) == TextsBefore(data, t, p + 1);
  }

  method ReadText(data: seq<Byte>, t: Texts, p: nat) returns (text: Option<string>)
    requires p + 3 <= |data|
    ensures text == TextAt(data, t, p)
  {
    var decoded := DecodeVarint(data, p + 3);
    if decoded.None? {
      return None;
    }
    var (length, start) := decoded.value;
    if length <= 0 || length > MAX_LENGTH {
      return None;
    }
    var end := start + length;
    if end > |data| {
      return None;
    }
    var raw := t.utf8(data[start..end]);
    if raw.None? || !t.plausible(raw.value) {
      return None;
    }
    return raw;
  }

  /** Scans a buffer from marker to marker. */
  method ExtractTexts(data: seq<Byte>, t: Texts) returns (texts: seq<string>)
    ensures texts == TextsBefore(data, t, |data|)
  {
    hide MarkerAt, TextAt, Normalize, AppendNew;
    texts := [];
    var p := 0;
    while true
      invariant p <= |data| && texts == TextsBefore(data, t, p)
      decreases |data| - p
    {
      NextMarkerIsFirst(data, t, p);
      var found := NextMarker(data, p);
      if found.None? {
        return;
      }
      var start := found.value;
      ghost var earlier := TextsBefore(data, t, start);
      var text := ReadText(data, t, start);
      SkipMarker(data, t, start);
      p := start + 3;
      if text.Some? {
        texts := UniqueAppend(texts, text.value);
        assert texts == AppendNew(earlier, Normalize(text.value));
      }
    }
  }

  /** A marker at `q` frames a valid text whose normalised form is `text`. */
  ghost predicate Frames(data: seq<Byte>, t: Texts, q: nat, text: string) {
    MarkerAt(data, q) && TextAt(data, t, q).Some? && Normalize(TextAt(data, t, q).value) == text
  }

  /** The scan returns every framed text of the buffer, wherever it is, once and nothing else. */
  lemma TextsAreExact(data: seq<Byte>, t: Texts, p: nat)
    requires p <= |data|
    ensures forall text ::
      text in TextsBefore(data, t, p) <==> text != "" && exists q: nat :: q < p && Frames(data, t, q, text)
    ensures forall i, j | 0 <= i < j < |TextsBefore(data, t, p)| ::
      TextsBefore(data, t, p)[i] != TextsBefore(data, t, p)[j]
  {
    forall text
      ensures text in TextsBefore(data, t, p) <==> text != "" && exists q: nat :: q < p && Frames(data, t, q, text)
    {
      TextIsFramed(data, t, p, text);
    }
    TextsAreDistinct(data, t, p);
  }

  lemma {:induction false} TextIsFramed(data: seq<Byte>, t: Texts, p: nat, text: string)
    requires p <= |data|
    ensures text in TextsBefore(data, t, p) <==> text != "" && exists q: nat :: q < p && Frames(data, t, q, text)
  {
    hide MarkerAt, TextAt, Normalize;
    if p > 0 {
      TextIsFramed(data, t, p - 1, text);
      assert Frames(data, t, p - 1, text) && text != "" ==> text in TextsBefore(data, t, p);
    }
  }

  lemma {:induction false} TextsAreDistinct(data: seq<Byte>, t: Texts, p: nat)
    requires p <= |data|
    ensures forall i, j | 0 <= i < j < |TextsBefore(data, t, p)| ::
      TextsBefore(data, t, p)[i] != TextsBefore(data, t, p)[j]
  {
    hide MarkerAt, TextAt, Normalize;
    if p > 0 { TextsAreDistinct(data, t, p - 1); }
  }

  /** What comes first in the result comes first in the buffer. */
  lemma {:induction false} TextsGrow(data: seq<Byte>, t: Texts, p: nat, q: nat)
    requires p <= q <= |data|
    ensures TextsBefore(data, t, p) <= TextsBefore(data, t, q)
  {
    if p < q { TextsGrow(data, t, p, q - 1); }
  }

  /** A text framed by the encoder is read back. */
  lemma FramedTextIsFound(before: seq<Byte>, payload: seq<Byte>, after: seq<Byte>, t: Texts)
    requires 0 < |payload| <= 2_000_000 && t.utf8(payload).Some? && t.plausible(t.utf8(payload).value)
    requires Normalize(t.utf8(payload).value) != ""
    ensures var data := before + MARKER + Encode(|payload|) + payload + after;
      Normalize(t.utf8(payload).value) in TextsBefore(data, t, |data|)
  {
    var data, p := before + MARKER + Encode(|payload|) + payload + after, |before|;
    var head := Encode(|payload|);
    FrameShape(before, head, payload, after);
    assert |payload| < Pow2(70) by { Below70(|payload|); }
    VarintRoundTrip(|payload|, payload + after);
    assert Frames(data, t, p, Normalize(t.utf8(payload).value));
    TextsAreExact(data, t, |data|);
  }

  lemma Below70(length: nat)
    requires length <= MAX_LENGTH
    ensures length < Pow2(70)
  {
    PowSeven(0);
    PowSeven(7);
    PowSeven(14);
    PowMonotone(21, 70);
  }

  lemma {:induction false} PowMonotone(a: nat, b: nat)
    requires a <= b
    ensures Pow2(a) <= Pow2(b)
  {
    if a < b { PowMonotone(a, b - 1); }
  }

  lemma FrameShape(before: seq<Byte>, head: seq<Byte>, payload: seq<Byte>, after: seq<Byte>)
    ensures var data, p := before + MARKER + head + payload + after, |before|;
      && p + 3 + |head| + |payload| <= |data|
      && MarkerAt(data, p) && data[p + 3..] == head + (payload + after)
      && data[p + 3 + |head|..p + 3 + |head| + |payload|] == payload
  {
  }

  // ---------------------------------------------------------------- frames that are not texts

  /** An encoded frame that is empty or longer than two million bytes is no text, whatever stands in it. */
  lemma OtherFramesAreIgnored(before: seq<Byte>, payload: seq<Byte>, after: seq<Byte>, t: Texts)
    requires |payload| < Pow2(70) && (payload == [] || |payload| > 2_000_000)
    ensures TextAt(before + MARKER + Encode(|payload|) + payload + after, t, |before|).None?
  {
    FrameShape(before, Encode(|payload|), payload, after);
    VarintRoundTrip(|payload|, payload + after);
  }

  /** Nor is one that announces more bytes than there are, or whose bytes are not a plausible text. */
  lemma BrokenFramesAreIgnored(before: seq<Byte>, length: nat, rest: seq<Byte>, t: Texts)
    requires length < Pow2(70)
    requires length > |rest| || t.utf8(rest[..length]).None? || !t.plausible(t.utf8(rest[..length]).value)
    ensures TextAt(before + MARKER + Encode(length) + rest, t, |before|).None?
  {
    OpenFrameShape(before, Encode(length), rest, length);
    VarintRoundTrip(length, rest);
    hide Encode, Decode, MarkerAt, Pow2;
  }

  lemma OpenFrameShape(before: seq<Byte>, head: seq<Byte>, rest: seq<Byte>, length: nat)
    ensures var data, p := before + MARKER + head + rest, |before|;
      && |data| == p + 3 + |head| + |rest| && data[p + 3..] == head + rest
      && (length <= |rest| ==> data[p + 3 + |head|..p + 3 + |head| + length] == rest[..length])
  {
  }

  // ---------------------------------------------------------------- line ends

  predicate HasCrLf(s: string) { exists i :: 0 <= i < |s| - 1 && s[i] == '\r' && s[i + 1] == '\n' }

  lemma {:induction false} NoCrLfStays(s: string)
    requires !HasCrLf(s)
    ensures UniformLineEnds(s) == s
    decreases |s|
  {
    if s != "" {
      CrLfOfRest(s);
      NoCrLfStays(s[1..]);
      assert s == [s[0]] + s[1..];
      assert |s| >= 2 ==> !(s[0] == '\r' && s[1] == '\n');
    }
  }

  lemma CrLfOfRest(s: string)
    requires s != ""
    ensures HasCrLf(s[1..]) ==> HasCrLf(s)
  {
    var rest := s[1..];
    if i :| 0 <= i < |rest| - 1 && rest[i] == '\r' && rest[i + 1] == '\n' {
      var j := i + 1;
      assert s[j] == '\r' && s[j + 1] == '\n';
    }
  }

  /** A carriage return is dropped where a line feed follows it, and nothing else changes. */
  lemma {:induction false} CrLfBecomesLf(a: string, b: string)
    ensures UniformLineEnds(a + "\r\n" + b) == UniformLineEnds(a) + "\n" + UniformLineEnds(b)
    decreases |a|
  {
    var s := a + "\r\n" + b;
    if a == "" {
      assert s == "\r\n" + b && s[2..] == b;
    } else if |a| >= 2 && a[0] == '\r' && a[1] == '\n' {
      CrLfBecomesLf(a[2..], b);
      assert s[2..] == a[2..] + "\r\n" + b;
    } else {
      CrLfBecomesLf(a[1..], b);
      assert s[1..] == a[1..] + "\r\n" + b;
      assert s[0] == a[0] && (|a| >= 2 ==> s[1] == a[1]) && (|a| == 1 ==> s[1] == '\r');
    }
  }
}
