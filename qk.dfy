/**
 * The quadkey codec of the `qk` crate: a tile (x, y, z) of the Web Mercator
 * grid becomes a string of z base-4 digits, most significant first, whose
 * digit at each level is the x bit plus twice the y bit; and back.
 *
 * The Rust functions panic where this model returns `Err`.
 */
module Qk {
  import opened Bits

  /** A tile: column x, row y, zoom z, held as floats (reals here). */
  datatype Tile = Tile(x: real, y: real, z: real)

  /** The panics of the codec. */
  datatype Panic =
    | ShiftOverflow                    // `1 << n` with n at least the bit width of the mask's type
    | InvalidDigit(index: nat, c: char)  // `parse().unwrap()` of a character that is no decimal digit

  datatype Result<T> = Ok(value: T) | Err(panic: Panic)

  datatype Option<T> = None | Some(value: T)

  // ---------------------------------------------------------------------
  // Digits

  predicate IsDigit(c: char) {
    '0' <= c <= '9'
  }

  predicate AllDigits(s: string) {
    forall p :: 0 <= p < |s| ==> IsDigit(s[p])
  }

  /** The number of bytes of c in UTF-8. */
  function Utf8Width(c: char): (w: nat)
    ensures 1 <= w <= 4
    ensures w == 1 <==> c as int < 0x80
  {
    if c as int < 0x80 then 1
    else if c as int < 0x800 then 2
    else if c as int < 0x1_0000 then 3
    else 4
  }

  /**
   * `String::len`: the length of s in UTF-8 bytes. It is never below the
   * number of characters and equals it for a string of decimal digits.
   */
  function ByteLen(s: string): (n: nat)
    ensures n >= |s|
    ensures AllDigits(s) ==> n == |s|
  {
    if s == [] then 0
    else
      var pre := s[..|s| - 1];
      assert AllDigits(s) ==> AllDigits(pre) by {
        if AllDigits(s) {
          forall p | 0 <= p < |pre|
            ensures IsDigit(pre[p])
          {
            assert pre[p] == s[p];
          }
        }
      }
      ByteLen(pre) + Utf8Width(s[|s| - 1])
  }

  /** The byte length equals the character count exactly for ASCII strings. */
  lemma {:induction false} ByteLenAscii(s: string)
    ensures ByteLen(s) == |s| <==> forall p :: 0 <= p < |s| ==> s[p] as int < 0x80
  {
    if s != [] {
      var pre, c := s[..|s| - 1], s[|s| - 1];
      ByteLenAscii(pre);
      assert forall p :: 0 <= p < |pre| ==> pre[p] == s[p];
      if ByteLen(s) == |s| {
        assert ByteLen(pre) == |pre| && Utf8Width(c) == 1;
      }
    }
  }

  /** Byte lengths add up over a split of the string. */
  lemma {:induction false} ByteLenSplit(s: string, p: nat)
    requires p <= |s|
    ensures ByteLen(s) == ByteLen(s[..p]) + ByteLen(s[p..])
    decreases |s|
  {
    if p == |s| {
      assert s[..p] == s && s[p..] == [];
    } else {
      var pre := s[..|s| - 1];
      ByteLenSplit(pre, p);
      assert pre[..p] == s[..p];
      var t := s[p..];
      assert t[..|t| - 1] == pre[p..] && t[|t| - 1] == s[|s| - 1];
    }
  }

  /**
   * After j digits, one byte each, the byte count still ahead is positive
   * exactly when characters are still ahead.
   */
  lemma DigitPrefixBytes(key: string, j: nat)
    requires j <= |key| && AllDigits(key[..j])
    ensures j <= ByteLen(key)
    ensures j < ByteLen(key) <==> j < |key|
  {
    ByteLenSplit(key, j);
  }

  /** Parsing a one-character string as a decimal integer. */
  function ParseDigit(c: char): (q: Option<int>)
    ensures q.Some? <==> IsDigit(c)
    ensures q.Some? ==> 0 <= q.value <= 9
  {
    if IsDigit(c) then Some(c as int - '0' as int) else None
  }

  /** The decimal rendering of a one-digit number (`b.to_string()`). */
  function DigitChar(b: int): (c: char)
    requires 0 <= b <= 9
    ensures ParseDigit(c) == Some(b)
  {
    ('0' as int + b) as char
  }

  /** Whether the digit sets the x bit of its level: parsed value 1 or 3. */
  function XBit(c: char): (b: nat)
    ensures b <= 1
  {
    if c == '1' || c == '3' then 1 else 0
  }

  /** Whether the digit sets the y bit of its level: parsed value 2 or 3. */
  function YBit(c: char): (b: nat)
    ensures b <= 1
  {
    if c == '2' || c == '3' then 1 else 0
  }

  // ---------------------------------------------------------------------
  // Encoding

  /** The digit for bit k of x and y. */
  function Digit(x: int, y: int, k: nat): (c: char)
    ensures c in "0123"
    ensures XBit(c) == Bit(x, k) && YBit(c) == Bit(y, k)
  {
    DigitChar(Bit(x, k) + 2 * Bit(y, k))
  }

  /**
   * The n-digit quadkey of integer coordinates x and y: the digit at
   * position p (from the left) carries bit n-1-p of each.
   */
  function Digits(x: int, y: int, n: nat): (key: string)
    ensures |key| == n
    ensures forall p :: 0 <= p < n ==> key[p] in "0123"
    ensures forall p :: 0 <= p < n ==>
              XBit(key[p]) == Bit(x, n - 1 - p) && YBit(key[p]) == Bit(y, n - 1 - p)
  {
    seq(n, p requires 0 <= p < n => Digit(x, y, n - 1 - p))
  }

  /**
   * What `tile_to_quadkey` returns: the coordinates are floored and cast
   * to i64; a zoom above 64 makes the first mask `1 << (z - 1)` overflow
   * i64; a zoom of 0 or below gives the empty key.
   */
  function QuadkeyOf(tile: Tile): (r: Result<string>)
    ensures r.Err? <==> tile.z.Floor > 64
    ensures r.Err? ==> r.panic == ShiftOverflow
    ensures r.Ok? ==> |r.value| == (if tile.z.Floor > 0 then tile.z.Floor else 0)
    ensures r.Ok? ==> forall p :: 0 <= p < |r.value| ==> r.value[p] in "0123"
  {
    var x := SaturatingCastI64(tile.x.Floor);
    var y := SaturatingCastI64(tile.y.Floor);
    var z := SaturatingCastI64(tile.z.Floor);
    if z > 64 then Err(ShiftOverflow)
    else Ok(Digits(x, y, if z > 0 then z else 0))
  }

  /** `tile_to_quadkey`: one digit per level, from level z down to level 1. */
  method TileToQuadkey(tile: Tile) returns (r: Result<string>)
    ensures r == QuadkeyOf(tile)
  {
    var key := "";
    var x := SaturatingCastI64(tile.x.Floor);
    var y := SaturatingCastI64(tile.y.Floor);
    var z := SaturatingCastI64(tile.z.Floor);
    ghost var n := z;
    while z > 0
      invariant z <= n
      invariant n <= 0 || n > 64 ==> z == n && key == ""
      invariant 0 < n <= 64 ==> 0 <= z && key == Digits(x, y, n)[..n - z]
    {
      if z - 1 >= 64 {
        return Err(ShiftOverflow);
      }
      var b := 0;
      if Bit(x, z - 1) == 1 {  // x & (1 << (z - 1)) != 0
        b := b + 1;
      }
      if Bit(y, z - 1) == 1 {  // y & (1 << (z - 1)) != 0
        b := b + 2;
      }
      key := key + [DigitChar(b)];
      z := z - 1;
    }
    assert 0 < n <= 64 ==> key == Digits(x, y, n);
    assert n <= 0 ==> key == Digits(x, y, 0);
    return Ok(key);
  }

  // ---------------------------------------------------------------------
  // Decoding

  /** The x bits the digits of key set, the first digit the most significant. */
  function XVal(key: string): (v: nat)
  {
    if key == [] then 0 else 2 * XVal(key[..|key| - 1]) + XBit(key[|key| - 1])
  }

  /** The y bits the digits of key set, the first digit the most significant. */
  function YVal(key: string): (v: nat)
  {
    if key == [] then 0 else 2 * YVal(key[..|key| - 1]) + YBit(key[|key| - 1])
  }

  /** The position of the first character of key that is no decimal digit. */
  function FirstNonDigit(key: string): (r: Option<nat>)
    ensures r.None? <==> AllDigits(key)
    ensures r.Some? ==> r.value < |key| && !IsDigit(key[r.value]) && AllDigits(key[..r.value])
  {
    if key == [] then None
    else if !IsDigit(key[0]) then Some(0)
    else match FirstNonDigit(key[1..])
      case None => None
      case Some(p) => Some(p + 1)
  }

  /**
   * What `quadkey_to_tile` returns. The level count z is `key.len()`, a
   * count of bytes, and the accumulators are i32, so a key of 33 bytes or
   * more overflows its first mask `1 << (z - 1)`; otherwise the first
   * character that is no decimal digit panics in `parse().unwrap()`; the
   * digits 4 to 9 set no bit. A key that passes is ASCII, so z is also
   * its number of characters.
   */
  function TileOf(key: string): (r: Result<Tile>)
    ensures r.Err? <==> ByteLen(key) > 32 || !AllDigits(key)
    ensures r.Err? && ByteLen(key) > 32 ==> r.panic == ShiftOverflow
    ensures r.Err? && ByteLen(key) <= 32 ==>
              r.panic.InvalidDigit? && r.panic.index < |key| && r.panic.c == key[r.panic.index]
              && !IsDigit(r.panic.c) && AllDigits(key[..r.panic.index])
    ensures r.Ok? ==> r.value.z == |key| as real
    ensures r.Ok? && |key| <= 31 ==>
              0.0 <= r.value.x < Pow2(|key|) as real && 0.0 <= r.value.y < Pow2(|key|) as real
  {
    if ByteLen(key) > 32 then Err(ShiftOverflow)
    else match FirstNonDigit(key)
      case Some(p) => Err(InvalidDigit(p, key[p]))
      case None =>
        DecodedRange(key);
        Ok(Tile(SignedI32(XVal(key)) as real, SignedI32(YVal(key)) as real, |key| as real))
  }

  /**
   * `quadkey_to_tile`: for the digit at position z - i, the mask
   * `1 << (i - 1)` is ORed into x for digits 1 and 3, into y for 2 and 3.
   * x and y hold the bit patterns of the i32 accumulators.
   */
  method QuadkeyToTile(key: string) returns (r: Result<Tile>)
    ensures r == TileOf(key)
  {
    var x: nat, y: nat := 0, 0;
    var z := ByteLen(key);
    var i := z;
    while i > 0
      invariant 0 <= i <= z
      invariant z > 32 ==> i == z
      invariant Decoded(key, z - i, i, x, y)
    {
      if i - 1 >= 32 {
        return Err(ShiftOverflow);
      }
      DigitPrefixBytes(key, z - i);  // so `nth(z - i)` finds a character
      var c := key[z - i];
      var q := ParseDigit(c);
      if q.None? {
        NonDigitExit(key, z - i);
        return Err(InvalidDigit(z - i, c));
      }
      DecodeInvariant(key, z, i, x, y);
      x, y := OrDigit(x, y, q.value, i - 1);
      i := i - 1;
    }
    DecodedExit(key, x, y);
    r := Ok(Tile(SignedI32(x) as real, SignedI32(y) as real, z as real));
  }

  /**
   * The body of one decoder iteration: the mask of level k is ORed into x
   * for digit 1, into y for digit 2, and into both for digit 3.
   */
  method OrDigit(x: nat, y: nat, q: int, k: nat) returns (x': nat, y': nat)
    ensures x' == (if q == 1 || q == 3 then SetBit(x, k) else x)
    ensures y' == (if q == 2 || q == 3 then SetBit(y, k) else y)
  {
    x', y' := x, y;
    if q == 1 {
      x' := SetBit(x', k);
    }
    if q == 2 {
      y' := SetBit(y', k);
    }
    if q == 3 {
      x' := SetBit(x', k);
      y' := SetBit(y', k);
    }
  }

  /** An all-digit key of at most 32 bytes decodes to the values of its digits. */
  lemma DecodedTile(key: string)
    requires AllDigits(key) && ByteLen(key) <= 32
    ensures XVal(key) < 0x1_0000_0000 && YVal(key) < 0x1_0000_0000
    ensures TileOf(key) == Ok(Tile(SignedI32(XVal(key)) as real, SignedI32(YVal(key)) as real, |key| as real))
  {
    DecodedRange(key);
  }

  /**
   * The decoder's loop invariant: the first j characters of key are digits,
   * and x and y hold the bits they set, shifted up by the i levels still
   * to come.
   */
  ghost predicate Decoded(key: string, j: nat, i: nat, x: nat, y: nat) {
    j <= |key| && AllDigits(key[..j])
    && x == XVal(key[..j]) * Pow2(i) && y == YVal(key[..j]) * Pow2(i)
  }

  /** The decoder's loop invariant carries over one iteration. */
  lemma DecodeInvariant(key: string, z: nat, i: nat, x: nat, y: nat)
    requires 0 < i <= z && z - i < |key| && IsDigit(key[z - i])
    requires Decoded(key, z - i, i, x, y)
    ensures var q := ParseDigit(key[z - i]).value;
            Decoded(key, z - (i - 1), i - 1,
                    if q == 1 || q == 3 then SetBit(x, i - 1) else x,
                    if q == 2 || q == 3 then SetBit(y, i - 1) else y)
  {
    var pre, c := key[..z - i], key[z - i];
    assert key[..z - (i - 1)] == pre + [c];
    DecodeStep(pre, c, i, x, y);
  }

  /** A decoder that stops at a non-digit returns what `TileOf` says. */
  lemma NonDigitExit(key: string, p: nat)
    requires ByteLen(key) <= 32
    requires p < |key| && !IsDigit(key[p]) && AllDigits(key[..p])
    ensures TileOf(key) == Err(InvalidDigit(p, key[p]))
  {
    FirstNonDigitAt(key, p);
  }

  /** A decoder that runs through all ByteLen(key) levels returns what `TileOf` says. */
  lemma DecodedExit(key: string, x: nat, y: nat)
    requires ByteLen(key) <= 32 && Decoded(key, ByteLen(key), 0, x, y)
    ensures x < 0x1_0000_0000 && y < 0x1_0000_0000
    ensures TileOf(key) == Ok(Tile(SignedI32(x) as real, SignedI32(y) as real, ByteLen(key) as real))
  {
    var z := ByteLen(key);
    DigitPrefixBytes(key, z);
    assert key[..z] == key && Pow2(0) == 1;
    DecodedTile(key);
  }

  /**
   * One loop step of the decoder: ORing the mask of level i - 1 into the
   * accumulators as digit c says yields the values of pre + [c].
   */
  lemma DecodeStep(pre: string, c: char, i: nat, x: nat, y: nat)
    requires i >= 1 && IsDigit(c)
    requires x == XVal(pre) * Pow2(i) && y == YVal(pre) * Pow2(i)
    ensures var q := ParseDigit(c).value;
            (if q == 1 || q == 3 then SetBit(x, i - 1) else x) == XVal(pre + [c]) * Pow2(i - 1)
    ensures var q := ParseDigit(c).value;
            (if q == 2 || q == 3 then SetBit(y, i - 1) else y) == YVal(pre + [c]) * Pow2(i - 1)
  {
    BitOfMultiple(XVal(pre), i, i - 1);
    BitOfMultiple(YVal(pre), i, i - 1);
    AppendStep(pre, c, i);
  }

  /** One loop step: appending digit c to pre, the bit i-1 is set as c says. */
  lemma AppendStep(pre: string, c: char, i: nat)
    requires i >= 1
    ensures XVal(pre + [c]) * Pow2(i - 1) == XVal(pre) * Pow2(i) + XBit(c) * Pow2(i - 1)
    ensures YVal(pre + [c]) * Pow2(i - 1) == YVal(pre) * Pow2(i) + YBit(c) * Pow2(i - 1)
  {
    var s := pre + [c];
    assert s[..|s| - 1] == pre;
    assert XVal(s) == 2 * XVal(pre) + XBit(c);
    assert YVal(s) == 2 * YVal(pre) + YBit(c);
    var P := Pow2(i - 1);
    assert Pow2(i) == 2 * P;
    Distribute(XVal(pre), XBit(c), P);
    Distribute(YVal(pre), YBit(c), P);
  }

  lemma Distribute(v: int, b: int, P: int)
    ensures (2 * v + b) * P == v * (2 * P) + b * P
  {
  }

  /** A non-digit after an all-digit prefix is the first non-digit. */
  lemma FirstNonDigitAt(key: string, p: nat)
    requires p < |key| && !IsDigit(key[p]) && AllDigits(key[..p])
    ensures FirstNonDigit(key) == Some(p)
  {
  }

  /** Decoded values of keys the decoder accepts fit the i32 bit pattern. */
  lemma DecodedRange(key: string)
    requires |key| <= 32
    ensures XVal(key) < 0x1_0000_0000 && YVal(key) < 0x1_0000_0000
    ensures |key| <= 31 ==> SignedI32(XVal(key)) == XVal(key) < Pow2(|key|)
    ensures |key| <= 31 ==> SignedI32(YVal(key)) == YVal(key) < Pow2(|key|)
  {
    XValBound(key);
    Pow2Constants();
    Pow2Monotone(|key|, 32);
    if |key| <= 31 {
      Pow2Monotone(|key|, 31);
    }
  }

  /** The decoded values have no more bits than the key has digits. */
  lemma {:induction false} XValBound(key: string)
    ensures XVal(key) < Pow2(|key|) && YVal(key) < Pow2(|key|)
  {
    if key != [] {
      XValBound(key[..|key| - 1]);
    }
  }

  // ---------------------------------------------------------------------
  // Properties of the codec

  /** Dropping the last digit of a key is halving its coordinates. */
  lemma DigitsSnoc(x: int, y: int, n: nat)
    requires n > 0
    ensures Digits(x, y, n) == Digits(x / 2, y / 2, n - 1) + [Digit(x, y, 0)]
  {
    var a, b := Digits(x, y, n), Digits(x / 2, y / 2, n - 1) + [Digit(x, y, 0)];
    forall p | 0 <= p < n
      ensures a[p] == b[p]
    {
      if p < n - 1 {
        assert a[p] == Digit(x, y, n - 1 - p);
        assert b[p] == Digit(x / 2, y / 2, n - 2 - p);
      }
    }
  }

  /** Only the low n bits of x and y reach an n-digit key. */
  lemma {:induction false} DigitsLowBits(x: int, y: int, n: nat)
    ensures Digits(x, y, n) == Digits(x % Pow2(n), y % Pow2(n), n)
  {
    var a, b := Digits(x, y, n), Digits(x % Pow2(n), y % Pow2(n), n);
    forall p | 0 <= p < n
      ensures a[p] == b[p]
    {
      LowBits(x, n, n - 1 - p);
      LowBits(y, n, n - 1 - p);
    }
  }

  /** An n-digit key decodes to the coordinates it was made from, if they fit n bits. */
  lemma {:induction false} DigitsDecode(x: int, y: int, n: nat)
    requires 0 <= x < Pow2(n) && 0 <= y < Pow2(n)
    ensures XVal(Digits(x, y, n)) == x && YVal(Digits(x, y, n)) == y
  {
    var key := Digits(x, y, n);
    if n > 0 {
      DigitsSnoc(x, y, n);
      DigitsDecode(x / 2, y / 2, n - 1);
      assert key[..n - 1] == Digits(x / 2, y / 2, n - 1);
    } else {
      assert key == [];
    }
  }

  /** A key over 0..3 is the key of the values it decodes to. */
  lemma {:induction false} DigitsOfDecoded(key: string)
    requires forall p :: 0 <= p < |key| ==> key[p] in "0123"
    ensures Digits(XVal(key), YVal(key), |key|) == key
  {
    var n := |key|;
    if n > 0 {
      var pre, c := key[..n - 1], key[n - 1];
      assert pre[..] == pre;
      assert forall p :: 0 <= p < |pre| ==> pre[p] == key[p];
      DigitsOfDecoded(pre);
      var x, y := XVal(key), YVal(key);
      assert x == 2 * XVal(pre) + XBit(c) && y == 2 * YVal(pre) + YBit(c);
      DigitsSnoc(x, y, n);
      assert x / 2 == XVal(pre) && y / 2 == YVal(pre);
      assert Bit(x, 0) == XBit(c) && Bit(y, 0) == YBit(c);
      DigitOfBits(c);
      assert key == pre + [c];
    }
  }

  /** Keys over the quadkey alphabet consist of decimal digits only. */
  lemma QuadDigits(key: string)
    requires forall p :: 0 <= p < |key| ==> key[p] in "0123"
    ensures AllDigits(key) && ByteLen(key) == |key|
  {
    forall p | 0 <= p < |key|
      ensures IsDigit(key[p])
    {
      assert key[p] in "0123";
    }
  }

  lemma DigitOfBits(c: char)
    requires c in "0123"
    ensures DigitChar(XBit(c) + 2 * YBit(c)) == c
  {
  }

  /**
   * Each digit sets its own level's bits and nothing else: the bit of x at
   * the level of position p is set exactly when key[p] is '1' or '3', the
   * bit of y exactly when it is '2' or '3'.
   */
  lemma {:induction false} DecodedBits(key: string, p: nat)
    requires p < |key|
    ensures Bit(XVal(key), |key| - 1 - p) == XBit(key[p])
    ensures Bit(YVal(key), |key| - 1 - p) == YBit(key[p])
  {
    var n := |key|;
    var pre, c := key[..n - 1], key[n - 1];
    assert key == pre + [c];
    ValuesSnoc(pre, c);
    var x, y := XVal(key), YVal(key);
    assert x / 2 == XVal(pre) && x % 2 == XBit(c);
    assert y / 2 == YVal(pre) && y % 2 == YBit(c);
    if p < n - 1 {
      DecodedBits(pre, p);
      assert pre[p] == key[p];
      assert Bit(x, n - 1 - p) == Bit(x / 2, n - 2 - p);
      assert Bit(y, n - 1 - p) == Bit(y / 2, n - 2 - p);
    }
  }

  /**
   * Round trip tile -> key -> tile: a tile whose coordinates fit its zoom
   * level comes back unchanged whenever the i32 accumulators hold them as
   * non-negative values, i.e. at every zoom up to 31 and at zoom 32 for
   * coordinates below 2^31.
   */
  lemma TileRoundTrip(x: int, y: int, z: nat)
    requires z <= 32 && 0 <= x < Pow2(z) && 0 <= y < Pow2(z)
    requires x < 0x8000_0000 && y < 0x8000_0000
    ensures QuadkeyOf(Tile(x as real, y as real, z as real)) == Ok(Digits(x, y, z))
    ensures TileOf(Digits(x, y, z)) == Ok(Tile(x as real, y as real, z as real))
  {
    var t := Tile(x as real, y as real, z as real);
    assert t.x.Floor == x && t.y.Floor == y && t.z.Floor == z;
    assert SaturatingCastI64(x) == x && SaturatingCastI64(y) == y && SaturatingCastI64(z) == z;
    var key := Digits(x, y, z);
    DigitsDecode(x, y, z);
    QuadDigits(key);
    DecodedTile(key);
    assert SignedI32(x) == x && SignedI32(y) == y;
  }

  /**
   * Round trip key -> tile -> key: every key over 0..3 that the decoder
   * accepts is re-encoded to itself, including 32-digit keys whose first
   * digit lands in the i32 sign bit.
   */
  lemma KeyRoundTrip(key: string)
    requires |key| <= 32 && forall p :: 0 <= p < |key| ==> key[p] in "0123"
    ensures TileOf(key).Ok?
    ensures QuadkeyOf(TileOf(key).value) == Ok(key)
  {
    assert AllDigits(key);
    var n := |key|;
    DecodedRange(key);
    var x, y := SignedI32(XVal(key)), SignedI32(YVal(key));
    var t := Tile(x as real, y as real, n as real);
    assert TileOf(key) == Ok(t);
    assert t.x.Floor == x && t.y.Floor == y && t.z.Floor == n;
    assert SaturatingCastI64(x) == x && SaturatingCastI64(y) == y && SaturatingCastI64(n) == n;
    assert QuadkeyOf(t) == Ok(Digits(x, y, n));
    DigitsSigned(XVal(key), YVal(key), n);
    DigitsOfDecoded(key);
  }

  /** Reading the accumulators as i32 does not change their low 32 bits. */
  lemma DigitsSigned(u: nat, v: nat, n: nat)
    requires n <= 32 && u < 0x1_0000_0000 && v < 0x1_0000_0000
    ensures Digits(SignedI32(u), SignedI32(v), n) == Digits(u, v, n)
  {
    var a, b := Digits(SignedI32(u), SignedI32(v), n), Digits(u, v, n);
    forall p | 0 <= p < n
      ensures a[p] == b[p]
    {
      SignedBit(u, n - 1 - p);
      SignedBit(v, n - 1 - p);
    }
  }

  lemma SignedBit(u: nat, k: nat)
    requires k < 32 && u < 0x1_0000_0000
    ensures Bit(SignedI32(u), k) == Bit(u, k)
  {
    Pow2Constants();
    BitShift(u, -1, 32, k);
  }

  /**
   * At zoom 32 the round trip tile -> key -> tile reads the top bit of
   * each coordinate as the i32 sign bit: a column or row from 2^31 up comes
   * back 2^32 lower, as a negative number.
   */
  lemma Zoom32SignBit(x: int, y: int)
    requires 0 <= x < 0x1_0000_0000 && 0 <= y < 0x1_0000_0000
    ensures QuadkeyOf(Tile(x as real, y as real, 32.0)) == Ok(Digits(x, y, 32))
    ensures TileOf(Digits(x, y, 32)) == Ok(Tile(SignedI32(x) as real, SignedI32(y) as real, 32.0))
    ensures x < 0x8000_0000 ==> SignedI32(x) == x
    ensures x >= 0x8000_0000 ==> SignedI32(x) == x - 0x1_0000_0000 < 0
  {
    var t := Tile(x as real, y as real, 32.0);
    assert t.x.Floor == x && t.y.Floor == y && t.z.Floor == 32;
    assert SaturatingCastI64(x) == x && SaturatingCastI64(y) == y && SaturatingCastI64(32) == 32;
    Zoom32Decode(x, y);
  }

  lemma Zoom32Decode(x: int, y: int)
    requires 0 <= x < 0x1_0000_0000 && 0 <= y < 0x1_0000_0000
    ensures TileOf(Digits(x, y, 32)) == Ok(Tile(SignedI32(x) as real, SignedI32(y) as real, 32.0))
  {
    var key := Digits(x, y, 32);
    Pow2Constants();
    DigitsDecode(x, y, 32);
    QuadDigits(key);
    DecodedTile(key);
  }

  /**
   * The level count of the decoder is a byte count: a 32-character key
   * that starts with the two-byte 'é' is 33 bytes long, so its first mask
   * overflows before any character is parsed.
   */
  lemma WideKeyOverflow()
    ensures var key := ['é'] + seq(31, _ => '0');
            |key| == 32 && ByteLen(key) == 33 && TileOf(key) == Err(ShiftOverflow)
  {
    var key := ['é'] + seq(31, _ => '0');
    ByteLenSplit(key, 1);
    assert key[..1] == ['é'] && ['é'][..0] == [];
    assert AllDigits(key[1..]);
  }

  lemma ValuesSnoc(s: string, c: char)
    ensures XVal(s + [c]) == 2 * XVal(s) + XBit(c)
    ensures YVal(s + [c]) == 2 * YVal(s) + YBit(c)
  {
    assert (s + [c])[..|s|] == s;
  }

  /** The values the digits of the crate's test key "0230102" set. */
  lemma ExampleValues()
    ensures XVal("0230102") == 20 && YVal("0230102") == 49
  {
    ExampleStep("", '0', "0", 0, 0);
    ExampleStep("0", '2', "02", 0, 1);
    ExampleStep("02", '3', "023", 1, 3);
    ExampleStep("023", '0', "0230", 2, 6);
    ExampleStep("0230", '1', "02301", 5, 12);
    ExampleStep("02301", '0', "023010", 10, 24);
    ExampleStep("023010", '2', "0230102", 20, 49);
  }

  /** One more digit t = s + [c] of the example key, from the values of s. */
  lemma ExampleStep(s: string, c: char, t: string, x: nat, y: nat)
    requires t == s + [c]
    requires XVal(s) * 2 + XBit(c) == x && YVal(s) * 2 + YBit(c) == y
    ensures XVal(t) == x && YVal(t) == y
  {
    ValuesSnoc(s, c);
  }

  /** The crate's test case: tile (20, 49, 7) and key "0230102". */
  lemma Example()
    ensures TileOf("0230102") == Ok(Tile(20.0, 49.0, 7.0))
    ensures QuadkeyOf(Tile(20.0, 49.0, 7.0)) == Ok("0230102")
  {
    var key := "0230102";
    ExampleValues();
    assert AllDigits(key);
    assert TileOf(key) == Ok(Tile(20 as real, 49 as real, 7 as real));
    KeyRoundTrip(key);
  }
}
