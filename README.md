# qk — quadkeys for Web Mercator tiles, modelled in Dafny

The `qk` crate names the tiles of the Web Mercator grid. At zoom z the
world is a 2^z by 2^z grid of tiles (x, y, z). A tile's quadkey is a
string of z base-4 digits. The first digit is the most significant, and
the digit for level k is `bit k of x + 2 * bit k of y`. The crate encodes
a tile as its key (`tile_to_quadkey`), decodes a key back to a tile
(`quadkey_to_tile`), and finds the key of the tile holding a geographic
point (`point_to_tile`, `point_to_tile_fraction`, `point_to_quadkey`).

The model has three modules:

- `Bits` (bits.dfy): powers of two and two's-complement bits. It also has
  the two machine-integer conversions the codec performs: the saturating
  `f64 as i64` cast, and reading a 32-bit pattern as an `i32`.
- `Qk` (qk.dfy): the `Tile` record and the two codec loops, each written
  as a `method` with loop invariants. Each method is proved equal to a
  specification function (`QuadkeyOf`, `TileOf`). The codec's properties
  are lemmas about those functions.
- `Projection` (projection.dfy): the column wrap and the floor of
  `point_to_tile`, and `point_to_quadkey` as a method built on the encoder.

Panics of the Rust code (debug build) are modelled as values:

- `Err(ShiftOverflow)`: a shift `1 << n` by at least the bit width.
- `Err(InvalidDigit(index, c))`: `parse().unwrap()` on a character that is
  not a decimal digit.

Integer types are written out where their width matters:

- the encoder's i64 coordinates are saturating casts of the floored floats;
- the decoder's accumulators are `i32`, the type Rust infers for the
  untyped literals `0`. A 32-digit key whose first digit is 1 or 3 therefore
  decodes to a negative column.
- the decoder's level count is `key.len()`, a count of UTF-8 bytes. A key
  of 33 bytes or more overflows its first mask before any character is
  parsed, even when it has 32 characters or fewer. While the decoder keeps
  going, every character before the current one is a one-byte digit, so
  `chars().nth(..)` always finds a character and its `unwrap()` never
  panics.

Floats are reals.

Two behaviours of the code are easy to misread, and the model states
them as the code has them:

- The decoder rejects only non-digits. The digits 4 to 9 parse, match
  none of the three cases, and set no bit (src/lib.rs:64-74). `TileOf`
  and `DecodedBits` state this.
- The column wrap adds z2 at most once after `%`, and that always
  suffices. Rust's `%` on f64 truncates, so the remainder is below z2 in
  magnitude and one addition lands in [0, z2), whatever the longitude
  (src/lib.rs:27-30). `Projection.WrapX` proves this.

## Model

| member | source | states |
|---|---|---|
| Qk.TileToQuadkey | src/lib.rs:35-55 | the encoding loop returns exactly `QuadkeyOf(tile)`: one digit per level from z down to 1, x's bit plus twice y's bit at each level |
| Qk.QuadkeyOf | src/lib.rs:35-55 | encoding fails (shift overflow) exactly when floor(z) > 64; otherwise the key has max(floor(z), 0) characters, all from "0123" |
| Qk.Digits | src/lib.rs:41-51 | an n-digit key has length n and the alphabet 0-3; position p carries bit n-1-p of x (digits 1, 3) and of y (digits 2, 3) |
| Qk.Digit | src/lib.rs:42-50 | one level's digit is in "0123" and its x and y components are the coordinates' bits at that level |
| Qk.DigitChar | src/lib.rs:50 | `b.to_string()` of a one-digit b is a character that parses back to b |
| Qk.ParseDigit | src/lib.rs:64 | a one-character parse succeeds exactly for '0'..'9', with a value in 0..9 |
| Qk.QuadkeyToTile | src/lib.rs:57-84 | the decoding loop over z = `key.len()` levels returns exactly `TileOf(key)`, its i32 masks ORed in from the first digit (level z-1) to the last (level 0) |
| Qk.TileOf | src/lib.rs:57-84 | decoding fails exactly when the key is longer than 32 bytes (shift overflow) or holds a non-digit (reported at the first one, with its position); otherwise z = len, and for len ≤ 31 both 0 ≤ x, y < 2^len |
| Qk.Utf8Width | src/lib.rs:60 | a character takes 1 to 4 bytes, exactly 1 when it is ASCII |
| Qk.ByteLen | src/lib.rs:60 | `key.len()` is at least the number of characters and equals it for a string of digits |
| Qk.ByteLenAscii | src/lib.rs:60 | `key.len()` equals the number of characters exactly when every character is ASCII |
| Qk.DigitPrefixBytes | src/lib.rs:60-64 | after j one-byte digits, levels remain (j < `key.len()`) exactly when characters remain, so `chars().nth(z - i)` never runs out |
| Qk.WideKeyOverflow | src/lib.rs:60-63 | a 32-character key starting with 'é' is 33 bytes long and fails with a shift overflow |
| Qk.OrDigit | src/lib.rs:65-74 | one iteration's ORs: x gets the level's bit for digits 1 and 3, y for 2 and 3, nothing changes for other values |
| Qk.FirstNonDigit | src/lib.rs:62-64 | the position where `parse().unwrap()` first panics: the first non-digit, after an all-digit prefix; none exactly when all characters are digits |
| Qk.DecodeStep | src/lib.rs:63-74 | one iteration: ORing level i-1's mask into x for digits 1 and 3, and into y for 2 and 3, yields the values of the longer prefix |
| Qk.DecodedBits | src/lib.rs:65-74 | digit semantics: the x bit at position p's level is set exactly when key[p] is '1' or '3', the y bit exactly when it is '2' or '3'; so '0' and '4'..'9' set nothing |
| Qk.XValBound | src/lib.rs:58-77 | the bits a key sets lie below 2^len |
| Qk.DecodedRange | src/lib.rs:79-83 | decoded values fit the i32 bit pattern, and for len ≤ 31 they are non-negative and below 2^len |
| Qk.DigitsSnoc | src/lib.rs:41-52 | the key at n levels is the key of (x/2, y/2) at n-1 levels followed by the level-0 digit |
| Qk.DigitsLowBits | src/lib.rs:43-48 | only the low n bits of x and y reach an n-digit key: x and y modulo 2^n give the same key |
| Qk.DigitsDecode | src/lib.rs:35-84 | the digits of coordinates below 2^n decode back to those coordinates |
| Qk.DigitsOfDecoded | src/lib.rs:35-84 | a key over 0-3 is the key of the values its digits set |
| Qk.TileRoundTrip | src/lib.rs:35-84 | tile → key → tile is the identity for 0 ≤ x, y < 2^z at every zoom up to 31, and at zoom 32 for x, y < 2^31 |
| Qk.KeyRoundTrip | src/lib.rs:35-84 | key → tile → key is the identity for every key over 0-3 of at most 32 digits, including those decoded to negative i32 values |
| Qk.DigitsSigned | src/lib.rs:79-81 | reading an accumulator as i32 keeps its low 32 bits, hence its key |
| Qk.Zoom32SignBit | src/lib.rs:57-84 | at zoom 32 every tile with 32-bit coordinates encodes to its 32 digits, which decode to the coordinates read as i32: unchanged below 2^31, 2^32 lower (negative) from 2^31 up |
| Qk.ExampleValues | src/lib.rs:179-186 | the digits of "0230102" set x = 20 and y = 49 |
| Qk.Example | src/lib.rs:168-186 | tile (20, 49, 7) encodes to "0230102" and "0230102" decodes to (20, 49, 7) |
| Bits.SetBit | src/lib.rs:66-73 | ORing the mask `1 << k` into v: bit k of the result is set and every other bit is that of v |
| Bits.Bit | src/lib.rs:44-47 | `v & (1 << k) != 0` as bit k of v's two's complement, always 0 or 1 |
| Bits.LowBits | src/lib.rs:43-48 | bits below n depend only on v modulo 2^n |
| Bits.BitShift | src/lib.rs:43-48 | adding a multiple of 2^n leaves the bits below n unchanged |
| Bits.SaturatingCastI64 | src/lib.rs:37-39 | `f as i64` keeps in-range integers and saturates at the i64 bounds |
| Bits.SignedI32 | src/lib.rs:79-81 | `x as f64` of an i32 accumulator: a value in the i32 range congruent to its bit pattern modulo 2^32 |
| Projection.Trunc | src/lib.rs:27 | rounding towards zero: below t by less than 1 for t ≥ 0, above it by less than 1 for t < 0 |
| Projection.FloatRem | src/lib.rs:27 | f64 `%`: the remainder has magnitude below m and the sign of x |
| Projection.WrapX | src/lib.rs:27-30 | the wrapped column lies in [0, m), differs from x by a whole number of widths m, and equals x when x already lies in [0, m) |
| Projection.InGrid | src/lib.rs:25-30 | longitudes in [-180, 180) need no wrap; Mercator rows in [0, 1) land inside the grid |
| Projection.GridSize | src/lib.rs:24 | `BASE.powf(z)` at a whole zoom: at least one tile per axis (its exact value is `GridSizeIsPow2`) |
| Projection.GridSizeIsPow2 | src/lib.rs:24 | `BASE.powf(z)` at integral z is 2^z |
| Projection.PointToTileFraction | src/lib.rs:22-33 | z is kept; the column lies in [0, 2^z) and, for longitudes in [-180, 180), is 2^z·(lon/360 + 0.5); the row of a point in the Mercator band lies in [0, 2^z) |
| Projection.PointToTile | src/lib.rs:14-20 | x and y are whole numbers, each the floor of the fractional tile's coordinate; x lies in [0, 2^z) |
| Projection.PointToQuadkey | src/lib.rs:86-90 | the key is the encoding of `point_to_tile`; it has z digits for z ≤ 64 and fails with a shift overflow above |
| Projection.PointKeyNamesTile | src/lib.rs:86-90 | the key of a point in the Mercator band at z ≤ 31 decodes to exactly the tile that contains the point |
| Projection.PointExample | src/lib.rs:148-194 | longitude -122.406921 at zoom 7 has column 20.4775392; with a Mercator row in tile row 49 the point lies in tile (20, 49, 7), whose key is "0230102" |

## Left out

- The latitude term of `point_to_tile_fraction` (src/lib.rs:23, 26) uses
  `sin` and `ln` on floats. It is an input, `mercatorY`, and its
  derivation from a latitude is not modelled.
- `to_lon`, `to_lat`, `tile_to_rect`, `point_to_rect` and
  `quadkey_to_rect` compute tile bounds with `atan`, `exp` and `powf`.
  They are not part of this model.
- Floats are reals. Rounding, NaN and infinities are not modelled, and
  neither are the exact float values the crate's projection tests compare
  against (src/lib.rs:148-166, 188-230). `Projection.PointExample`
  states the longitude half of those tests exactly.
- `geo_types` points and rectangles are not part of this model. A point is
  its longitude and its Mercator row.
- Projection.PointToTileFraction: takes the zoom as a natural number, so
  `powf` at a fractional or negative zoom is not modelled. Fractional zooms
  are still accepted by the encoder (`QuadkeyOf` floors them).
- Release builds wrap shift amounts instead of panicking. The model
  follows debug builds.
- Qk.TileRoundTrip: at zoom 32 stated only for coordinates below 2^31,
  because the i32 decoder returns larger ones as negative numbers (see
  `Qk.Zoom32SignBit`).
- Projection.PointKeyNamesTile: stated for points whose Mercator row lies
  in [0, 1), i.e. inside the grid's latitude band, and zooms up to 31. Rows
  outside the band give negative or too-large rows, and the encoder keeps
  only their low bits.
