/** The glyph codec and text layout of src/main.rs.

    A character is looked up in a fixed table and packed into one of three
    glyph shapes; a packed glyph is decoded into the 64 rows of a display
    frame (`DisplayPixels`, one 128-bit value per row); a byte string is laid
    out right-aligned, one glyph after another, with one blank column between
    neighbouring glyphs. */
module Glyphs {

  datatype Option<T> = None | Some(value: T)

  /** Number of rows of a display frame (`[DisplayLine; 64]`). */
  const FRAME_ROWS: nat := 64
  /** Highest bit index of a display row (`DisplayLine` is a u128). */
  const LAST_BIT: nat := 127

  const CHAR_LENGTH: nat := 5
  const CHAR_WIDTH: nat := 3
  const WIDECHAR_LENGTH: nat := 5
  const WIDECHAR_WIDTH: nat := 5
  const SMALLCHAR_LENGTH: nat := 3
  const SMALLCHAR_WIDTH: nat := 2

  // The glyph table. A Standard glyph is a u16 holding a marker bit (bit 15)
  // and 5 rows of 3 pixels, top row first, leftmost pixel first; a Wide glyph
  // is a u32 holding a marker bit (bit 31), 5 rows of 5 pixels and 6 unused
  // low bits; a Small glyph is a u8.
  const SPACE_PIXELS: bv16 := 0x8000
  const EXCL_PIXELS: bv16 := 0xA482
  const QUOTE_PIXELS: bv16 := 0xDA00
  const HASH_PIXELS: bv32 := 0xABEA_FA80
  /** Defined in the table but matched by no byte. */
  const DOLLAR_PIXELS: bv32 := 0xBA8E_2B80
  const AT_PIXELS: bv32 := 0xFE37_B7C0
  const PERCENT_PIXELS: bv16 := 0xD2A5
  const CARET_PIXELS: bv16 := 0xAB40
  const AMPERSAND_PIXELS: bv32 := 0xB20D_9340
  const ASTERISK_PIXELS: bv16 := 0xD540
  const LEFT_PAREN_PIXELS: bv16 := 0x9491
  const RIGHT_PAREN_PIXELS: bv16 := 0xC494
  const MINUS_PIXELS: bv16 := 0x81C0
  const A_PIXELS: bv16 := 0xFBED
  const B_PIXELS: bv16 := 0xEBAE
  const C_PIXELS: bv16 := 0xF927
  const D_PIXELS: bv16 := 0xEB6E
  const E_PIXELS: bv16 := 0xF9E7
  const F_PIXELS: bv16 := 0xF9E4
  const G_PIXELS: bv16 := 0xF96F
  const H_PIXELS: bv16 := 0xDBED
  const I_PIXELS: bv16 := 0xF497
  const J_PIXELS: bv16 := 0xF496
  const K_PIXELS: bv16 := 0xDBAD
  const L_PIXELS: bv16 := 0xC927
  const M_PIXELS: bv32 := 0xEEB5_8C40
  const N_PIXELS: bv16 := 0xEB6D
  const O_PIXELS: bv16 := 0xFB6F
  const P_PIXELS: bv16 := 0xFBE4
  const Q_PIXELS: bv16 := 0xFB79
  const R_PIXELS: bv16 := 0xFBAD
  const S_PIXELS: bv16 := 0xF9CF
  const T_PIXELS: bv16 := 0xF492
  const U_PIXELS: bv16 := 0xDB6F
  const V_PIXELS: bv16 := 0xDB6A
  const W_PIXELS: bv32 := 0xC635_AEC0
  const X_PIXELS: bv16 := 0xDAAD
  const Y_PIXELS: bv16 := 0xDB52
  const Z_PIXELS: bv16 := 0xF2A7
  const ZERO_PIXELS: bv16 := 0xFB6F
  const ONE_PIXELS: bv16 := 0xE497
  const TWO_PIXELS: bv16 := 0xF2E7
  const THREE_PIXELS: bv16 := 0xF3CF
  const FOUR_PIXELS: bv16 := 0xDBC9
  const FIVE_PIXELS: bv16 := 0xF9CE
  const SIX_PIXELS: bv16 := 0xF9EF
  const SEVEN_PIXELS: bv16 := 0xF292
  const EIGHT_PIXELS: bv16 := 0xFBEF
  const NINE_PIXELS: bv16 := 0xFBC9
  const SLASH_PIXELS: bv16 := 0x12A4
  const DOT_PIXELS: bv8 := 0x66
  const COMMA_PIXELS: bv8 := 0x62
  /** The placeholder (checkerboard) glyph for every byte outside the table. */
  const UNKNOWN_PIXELS: bv16 := 0xD555

  /** Row masks of the decoder: the first row's bits of each glyph shape. */
  const STANDARD_ROW_MASK: bv16 := 0x7000
  const WIDE_ROW_MASK: bv32 := 0x7C00_0000
  const SMALL_ROW_MASK: bv8 := 0xF

  /** Upper-case forms of the bytes that select a Wide glyph: M W @ # &. */
  const WIDE_BYTES: set<bv8> := {0x4D, 0x57, 0x40, 0x23, 0x26}
  /** The bytes that select a Small glyph: . and , */
  const SMALL_BYTES: set<bv8> := {0x2E, 0x2C}
  /** Upper-case forms of every byte that has its own table entry. */
  const TABLE_BYTES: set<bv8> :=
    {0x41, 0x42, 0x43, 0x44, 0x45, 0x46, 0x47, 0x48, 0x49, 0x4A, 0x4B, 0x4C, 0x4D,
     0x4E, 0x4F, 0x50, 0x51, 0x52, 0x53, 0x54, 0x55, 0x56, 0x57, 0x58, 0x59, 0x5A,
     0x30, 0x31, 0x32, 0x33, 0x34, 0x35, 0x36, 0x37, 0x38, 0x39,
     0x2F, 0x2E, 0x2C, 0x20, 0x21, 0x40, 0x23, 0x25, 0x5E, 0x26, 0x2A, 0x29, 0x28, 0x2D}

  /** One packed glyph (`DisplayCharacter`). */
  datatype DisplayCharacter =
    | Standard(standardBits: bv16)
    | Wide(wideBits: bv32)
    | Small(smallBits: bv8)

  predicate IsLowercase(c: bv8) {
    0x61 <= c <= 0x7A
  }

  /** ASCII case folding: 'a'..'z' become 'A'..'Z', every other byte stays. */
  function ToAsciiUppercase(c: bv8): (u: bv8)
    ensures !IsLowercase(u)
    ensures u == c <==> !IsLowercase(c)
    ensures u != c ==> u as int == c as int - 32
  {
    if IsLowercase(c) then c - 32 else c
  }

  /** The glyph of a byte: a table lookup on the upper-case form of the byte;
      every byte without an entry gets the placeholder glyph. */
  function NewFromAscii(character: bv8): (g: DisplayCharacter)
    ensures g.Wide? <==> ToAsciiUppercase(character) in WIDE_BYTES
    ensures g.Small? <==> character in SMALL_BYTES
    ensures ToAsciiUppercase(character) !in TABLE_BYTES ==> g == Standard(UNKNOWN_PIXELS)
  {
    match ToAsciiUppercase(character)
    case 0x41 => Standard(A_PIXELS)
    case 0x42 => Standard(B_PIXELS)
    case 0x43 => Standard(C_PIXELS)
    case 0x44 => Standard(D_PIXELS)
    case 0x45 => Standard(E_PIXELS)
    case 0x46 => Standard(F_PIXELS)
    case 0x47 => Standard(G_PIXELS)
    case 0x48 => Standard(H_PIXELS)
    case 0x49 => Standard(I_PIXELS)
    case 0x4A => Standard(J_PIXELS)
    case 0x4B => Standard(K_PIXELS)
    case 0x4C => Standard(L_PIXELS)
    case 0x4D => Wide(M_PIXELS)
    case 0x4E => Standard(N_PIXELS)
    case 0x4F => Standard(O_PIXELS)
    case 0x50 => Standard(P_PIXELS)
    case 0x51 => Standard(Q_PIXELS)
    case 0x52 => Standard(R_PIXELS)
    case 0x53 => Standard(S_PIXELS)
    case 0x54 => Standard(T_PIXELS)
    case 0x55 => Standard(U_PIXELS)
    case 0x56 => Standard(V_PIXELS)
    case 0x57 => Wide(W_PIXELS)
    case 0x58 => Standard(X_PIXELS)
    case 0x59 => Standard(Y_PIXELS)
    case 0x5A => Standard(Z_PIXELS)
    case 0x30 => Standard(ZERO_PIXELS)
    case 0x31 => Standard(ONE_PIXELS)
    case 0x32 => Standard(TWO_PIXELS)
    case 0x33 => Standard(THREE_PIXELS)
    case 0x34 => Standard(FOUR_PIXELS)
    case 0x35 => Standard(FIVE_PIXELS)
    case 0x36 => Standard(SIX_PIXELS)
    case 0x37 => Standard(SEVEN_PIXELS)
    case 0x38 => Standard(EIGHT_PIXELS)
    case 0x39 => Standard(NINE_PIXELS)
    case 0x2F => Standard(SLASH_PIXELS)      // '/'
    case 0x2E => Small(DOT_PIXELS)           // '.'
    case 0x2C => Small(COMMA_PIXELS)         // ','
    case 0x20 => Standard(SPACE_PIXELS)      // ' '
    case 0x21 => Standard(EXCL_PIXELS)       // '!'
    case 0x40 => Wide(AT_PIXELS)             // '@'
    case 0x23 => Wide(HASH_PIXELS)           // '#'
    case 0x25 => Standard(PERCENT_PIXELS)    // '%'
    case 0x5E => Standard(CARET_PIXELS)      // '^'
    case 0x26 => Wide(AMPERSAND_PIXELS)      // '&'
    case 0x2A => Standard(ASTERISK_PIXELS)   // '*'
    case 0x29 => Standard(LEFT_PAREN_PIXELS) // ')' gets the left parenthesis
    case 0x28 => Standard(RIGHT_PAREN_PIXELS) // '(' gets the right parenthesis
    case 0x2D => Standard(MINUS_PIXELS)      // '-'
    case _ => Standard(UNKNOWN_PIXELS)
  }

  /** Rows of a glyph shape (`letter_length` in the layout); no shape is
      taller than five rows. */
  function Length(g: DisplayCharacter): (l: nat)
    ensures SMALLCHAR_LENGTH <= l <= CHAR_LENGTH
  {
    match g
    case Standard(_) => CHAR_LENGTH
    case Wide(_) => WIDECHAR_LENGTH
    case Small(_) => SMALLCHAR_LENGTH
  }

  /** Pixel columns of a glyph shape (`letter_width` in the layout). */
  function Width(g: DisplayCharacter): (w: nat)
    ensures SMALLCHAR_WIDTH <= w <= WIDECHAR_WIDTH
  {
    match g
    case Standard(_) => CHAR_WIDTH
    case Wide(_) => WIDECHAR_WIDTH
    case Small(_) => SMALLCHAR_WIDTH
  }

  /** Row `i` of a decoded glyph, right-aligned in a display row, leftmost
      pixel in the highest of its bits. A Standard glyph keeps its rows in
      bits 14..0 (three per row, top row highest), a Wide glyph in bits 30..6
      (five per row); the marker bit above them and the unused bits below
      them are not part of any row. A Small glyph decodes to nothing, since
      the decoder's mask for that shape never overlaps the bits it shifts
      down. */
  function DecodedRow(g: DisplayCharacter, i: nat): (row: bv128)
    ensures g.Standard? ==> row < 8
    ensures g.Wide? ==> row < 32
    ensures g.Small? || i >= Length(g) ==> row == 0
  {
    match g
    case Standard(data) =>
      (match i
       case 0 => (data >> 12) & 7
       case 1 => (data >> 9) & 7
       case 2 => (data >> 6) & 7
       case 3 => (data >> 3) & 7
       case 4 => data & 7
       case _ => 0) as bv128
    case Wide(data) =>
      (match i
       case 0 => (data >> 26) & 31
       case 1 => (data >> 21) & 31
       case 2 => (data >> 16) & 31
       case 3 => (data >> 11) & 31
       case 4 => (data >> 6) & 31
       case _ => 0) as bv128
    case Small(_) => 0
  }

  /** The 64-row frame a glyph decodes to. */
  function Decoded(g: DisplayCharacter): (frame: seq<bv128>)
    ensures |frame| == FRAME_ROWS
    ensures forall i | Length(g) <= i < FRAME_ROWS :: frame[i] == 0
  {
    seq(FRAME_ROWS, i requires 0 <= i < FRAME_ROWS => DecodedRow(g, i))
  }

  /** Every decoded row fits in the glyph's width, so the layout cursor,
      moving past the width and one more column, leaves a blank column
      between neighbouring glyphs. */
  lemma DecodedRowFitsWidth(g: DisplayCharacter, i: nat)
    ensures DecodedRow(g, i) < (1 as bv128) << Width(g)
  {
  }

  /** Case-insensitivity: every byte has the glyph of its upper-case form,
      so a lower-case letter and its capital look alike. */
  lemma NewFromAsciiIgnoresCase(c: bv8)
    ensures NewFromAscii(c) == NewFromAscii(ToAsciiUppercase(c))
    ensures IsLowercase(c) ==> NewFromAscii(c) == NewFromAscii(c - 32)
  {
  }

  /** The irregular entries of the table: '0' is drawn like 'O', the two
      parentheses are swapped, and '$' falls back to the placeholder. */
  lemma TableQuirks()
    ensures NewFromAscii(0x30) == NewFromAscii(0x4F)
    ensures NewFromAscii(0x28) == Standard(RIGHT_PAREN_PIXELS)
    ensures NewFromAscii(0x29) == Standard(LEFT_PAREN_PIXELS)
    ensures NewFromAscii(0x24) == Standard(UNKNOWN_PIXELS)
  {
  }

  /** The dollar glyph of the table is produced for no byte at all. */
  lemma DollarGlyphUnused(c: bv8)
    ensures NewFromAscii(c) != Wide(DOLLAR_PIXELS)
  {
  }

  /** 'W' is a Wide glyph whose five rows are five pixels wide each. */
  lemma WideW()
    ensures NewFromAscii(0x57) == NewFromAscii(0x77) == Wide(W_PIXELS)
    ensures Decoded(Wide(W_PIXELS))[..5] == [0x11, 0x11, 0x15, 0x15, 0x1B]
    ensures forall i | 5 <= i < FRAME_ROWS :: Decoded(Wide(W_PIXELS))[i] == 0
  {
  }

  /** A Small glyph decodes to an empty frame, whatever its payload. */
  lemma SmallDecodesBlank(data: bv8)
    ensures Decoded(Small(data)) == seq(FRAME_ROWS, _ => 0)
  {
  }

  /** The payload bits of a Standard glyph, packed from its five rows: the
      inverse of decoding. */
  function PackStandard(rows: seq<bv128>): bv16
    requires |rows| >= CHAR_LENGTH && forall k | 0 <= k < CHAR_LENGTH :: rows[k] < 8
  {
    ((rows[0] as bv16) << 12) | ((rows[1] as bv16) << 9) | ((rows[2] as bv16) << 6)
      | ((rows[3] as bv16) << 3) | (rows[4] as bv16)
  }

  /** The payload bits of a Wide glyph, packed from its five rows. */
  function PackWide(rows: seq<bv128>): bv32
    requires |rows| >= WIDECHAR_LENGTH && forall k | 0 <= k < WIDECHAR_LENGTH :: rows[k] < 32
  {
    ((rows[0] as bv32) << 26) | ((rows[1] as bv32) << 21) | ((rows[2] as bv32) << 16)
      | ((rows[3] as bv32) << 11) | ((rows[4] as bv32) << 6)
  }

  /** Decoding a Standard glyph keeps all 15 pixel bits and drops only the
      marker bit. */
  lemma DecodeStandardKeepsPixels(data: bv16)
    ensures PackStandard(Decoded(Standard(data))) == data & 0x7FFF
  {
  }

  /** Every five rows of three pixels are the decoding of some Standard glyph:
      the packed rows with the marker bit set. */
  lemma PackStandardDecodes(rows: seq<bv128>)
    requires |rows| == FRAME_ROWS && forall k | 0 <= k < CHAR_LENGTH :: rows[k] < 8
    requires forall k | CHAR_LENGTH <= k < FRAME_ROWS :: rows[k] == 0
    ensures Decoded(Standard(0x8000 | PackStandard(rows))) == rows
  {
    var data := 0x8000 | PackStandard(rows);
    assert DecodedRow(Standard(data), 0) == rows[0];
    assert DecodedRow(Standard(data), 1) == rows[1];
    assert DecodedRow(Standard(data), 2) == rows[2];
    assert DecodedRow(Standard(data), 3) == rows[3];
    assert DecodedRow(Standard(data), 4) == rows[4];
  }

  /** Decoding a Wide glyph keeps all 25 pixel bits and drops the marker bit
      and the six unused low bits. */
  lemma DecodeWideKeepsPixels(data: bv32)
    ensures PackWide(Decoded(Wide(data))) == data & 0x7FFF_FFC0
  {
  }

  /** Every five rows of five pixels are the decoding of some Wide glyph. */
  lemma PackWideDecodes(rows: seq<bv128>)
    requires |rows| == FRAME_ROWS && forall k | 0 <= k < WIDECHAR_LENGTH :: rows[k] < 32
    requires forall k | WIDECHAR_LENGTH <= k < FRAME_ROWS :: rows[k] == 0
    ensures Decoded(Wide(0x8000_0000 | PackWide(rows))) == rows
  {
    var data := 0x8000_0000 | PackWide(rows);
    assert DecodedRow(Wide(data), 0) == rows[0];
    assert DecodedRow(Wide(data), 1) == rows[1];
    assert DecodedRow(Wide(data), 2) == rows[2];
    assert DecodedRow(Wide(data), 3) == rows[3];
    assert DecodedRow(Wide(data), 4) == rows[4];
  }

  /** The marker bit of a Standard glyph does not show. */
  lemma StandardIgnoresMarker(data: bv16)
    ensures Decoded(Standard(data)) == Decoded(Standard(data & 0x7FFF))
  {
    var clean := data & 0x7FFF;
    assert clean & 0x7FFF == clean;
    StandardRepacked(data);
    StandardRepacked(clean);
  }

  /** A Standard glyph looks like its pixel bits under a set marker bit. */
  lemma StandardRepacked(data: bv16)
    ensures Decoded(Standard(data)) == Decoded(Standard(0x8000 | (data & 0x7FFF)))
  {
    DecodeStandardKeepsPixels(data);
    PackStandardDecodes(Decoded(Standard(data)));
  }

  /** Neither the marker bit nor the six low bits of a Wide glyph show. */
  lemma WideIgnoresUnusedBits(data: bv32)
    ensures Decoded(Wide(data)) == Decoded(Wide(data & 0x7FFF_FFC0))
  {
    var clean := data & 0x7FFF_FFC0;
    assert clean & 0x7FFF_FFC0 == clean;
    WideRepacked(data);
    WideRepacked(clean);
  }

  /** A Wide glyph looks like its pixel bits under a set marker bit. */
  lemma WideRepacked(data: bv32)
    ensures Decoded(Wide(data)) == Decoded(Wide(0x8000_0000 | (data & 0x7FFF_FFC0)))
  {
    DecodeWideKeepsPixels(data);
    PackWideDecodes(Decoded(Wide(data)));
  }

  /** Two Standard glyphs look alike exactly when their pixel bits agree:
      the marker bit plays no part. */
  lemma StandardDecodeInjective(a: bv16, b: bv16)
    ensures Decoded(Standard(a)) == Decoded(Standard(b)) <==> a & 0x7FFF == b & 0x7FFF
  {
    if Decoded(Standard(a)) == Decoded(Standard(b)) {
      DecodeStandardKeepsPixels(a);
      DecodeStandardKeepsPixels(b);
    }
    if a & 0x7FFF == b & 0x7FFF {
      StandardIgnoresMarker(a);
      StandardIgnoresMarker(b);
    }
  }

  /** Two Wide glyphs look alike exactly when their 25 pixel bits agree. */
  lemma WideDecodeInjective(a: bv32, b: bv32)
    ensures Decoded(Wide(a)) == Decoded(Wide(b)) <==> a & 0x7FFF_FFC0 == b & 0x7FFF_FFC0
  {
    if Decoded(Wide(a)) == Decoded(Wide(b)) {
      DecodeWideKeepsPixels(a);
      DecodeWideKeepsPixels(b);
    }
    if a & 0x7FFF_FFC0 == b & 0x7FFF_FFC0 {
      WideIgnoresUnusedBits(a);
      WideIgnoresUnusedBits(b);
    }
  }

  /** Decodes a glyph row by row: each row is masked out of the payload and
      shifted down to the low end of its display row. */
  method IntoDisplayPixels(g: DisplayCharacter) returns (output: seq<bv128>)
    ensures output == Decoded(g)
  {
    match g {
      case Standard(data) => output := DecodeStandard(data);
      case Wide(data) => output := DecodeWide(data);
      case Small(data) => output := DecodeSmall(data);
    }
  }

  // The three arms of the decoder. The row counter is a `usize`, a 64-bit
  // word; in the shift expressions the shape constants are written out
  // (3 = CHAR_WIDTH, 5 = CHAR_LENGTH = WIDECHAR_LENGTH = WIDECHAR_WIDTH,
  // 3 = SMALLCHAR_LENGTH, 2 = SMALLCHAR_WIDTH).

  method DecodeStandard(data: bv16) returns (output: seq<bv128>)
    ensures output == Decoded(Standard(data))
  {
    var frame := new bv128[FRAME_ROWS](_ => 0);
    var i: bv64 := 0;
    while i < 5
      invariant i <= 5
      invariant forall j | 0 <= j < FRAME_ROWS :: frame[j] == if j < i as int then DecodedRow(Standard(data), j) else 0
    {
      var x := ((data & (STANDARD_ROW_MASK >> (i * 3))) >> ((5 - (i + 1)) * 3)) as bv128;
      frame[i] := Or(frame[i], x);
      i := i + 1;
    }
    output := frame[..];
  }

  method DecodeWide(data: bv32) returns (output: seq<bv128>)
    ensures output == Decoded(Wide(data))
  {
    var frame := new bv128[FRAME_ROWS](_ => 0);
    var i: bv64 := 0;
    while i < 5
      invariant i <= 5
      invariant forall j | 0 <= j < FRAME_ROWS :: frame[j] == if j < i as int then DecodedRow(Wide(data), j) else 0
    {
      var x := ((data & (WIDE_ROW_MASK >> (i * 5))) >> ((5 - (i + 1)) * 5 + 6)) as bv128;
      frame[i] := Or(frame[i], x);
      i := i + 1;
    }
    output := frame[..];
  }

  method DecodeSmall(data: bv8) returns (output: seq<bv128>)
    ensures output == Decoded(Small(data))
  {
    var frame := new bv128[FRAME_ROWS](_ => 0);
    var i: bv64 := 0;
    while i < 3
      invariant i <= 3
      invariant forall j | 0 <= j < FRAME_ROWS :: frame[j] == 0
    {
      var x := ((data & (SMALL_ROW_MASK >> (i * 2))) >> ((3 - (i + 1)) * 2)) as bv128;
      frame[i] := Or(frame[i], x);
      i := i + 1;
    }
    output := frame[..];
  }

  /** `a | b` on display rows. */
  function Or(a: bv128, b: bv128): bv128 {
    a | b
  }

  /** Pixel-wise union of two frames. */
  function OrMerge(dest: seq<bv128>, src: seq<bv128>): (merged: seq<bv128>)
    requires |dest| == |src|
    ensures |merged| == |dest|
  {
    seq(|dest|, i requires 0 <= i < |dest| => Or(dest[i], src[i]))
  }

  /** Merges `src` into `dest` in place (an OR, whatever the name says). */
  method AndEqDisplayPixels(dest: array<bv128>, src: seq<bv128>)
    requires dest.Length == FRAME_ROWS && |src| == FRAME_ROWS
    modifies dest
    ensures dest[..] == OrMerge(old(dest[..]), src)
  {
    var i := 0;
    while i < dest.Length
      invariant 0 <= i <= dest.Length
      invariant forall j | 0 <= j < i :: dest[j] == Or(old(dest[j]), src[j])
      invariant forall j | i <= j < dest.Length :: dest[j] == old(dest[j])
    {
      dest[i] := Or(dest[i], src[i]);
      i := i + 1;
    }
  }

  /** Merging never clears a pixel of the destination. */
  lemma OrMergeKeepsDest(dest: seq<bv128>, src: seq<bv128>, i: nat)
    requires |dest| == |src| && i < |dest|
    ensures OrMerge(dest, src)[i] & dest[i] == dest[i]
  {
  }

  /** Every pixel of the source ends up in the merged frame. */
  lemma OrMergeAddsSrc(dest: seq<bv128>, src: seq<bv128>, i: nat)
    requires |dest| == |src| && i < |dest|
    ensures OrMerge(dest, src)[i] & src[i] == src[i]
  {
  }

  /** The merge sets no pixel that neither frame has: a row covering both
      rows covers their merge. */
  lemma OrMergeLeast(dest: seq<bv128>, src: seq<bv128>, i: nat, cover: bv128)
    requires |dest| == |src| && i < |dest|
    requires dest[i] & cover == dest[i] && src[i] & cover == src[i]
    ensures OrMerge(dest, src)[i] & cover == OrMerge(dest, src)[i]
  {
  }

  /** Merging the same source twice is merging it once. */
  lemma OrMergeIdempotent(dest: seq<bv128>, src: seq<bv128>)
    requires |dest| == |src|
    ensures OrMerge(OrMerge(dest, src), src) == OrMerge(dest, src)
  {
    var once := OrMerge(dest, src);
    forall i | 0 <= i < |dest|
      ensures OrMerge(once, src)[i] == once[i]
    {
      OrAbsorbs(dest[i], src[i]);
    }
  }

  lemma OrAbsorbs(a: bv128, b: bv128)
    ensures Or(Or(a, b), b) == Or(a, b)
  {
  }

  /** Columns the layout cursor moves left past a byte's glyph: its width
      and one blank column. */
  function Advance(c: bv8): nat {
    Width(NewFromAscii(c)) + 1
  }

  /** Columns taken by the glyphs of `text[i..]`; the glyph of `text[i - 1]`
      is shifted left by this much. */
  function Span(text: seq<bv8>, i: nat): nat
    requires i <= |text|
    decreases |text| - i
  {
    if i == |text| then 0 else Advance(text[i]) + Span(text, i + 1)
  }

  /** `u128 << amount`: bits moved past bit 127 are lost; Rust rejects
      amounts of 128 and more. */
  function ShiftLeft(row: bv128, amount: nat): (shifted: bv128)
    requires amount <= LAST_BIT
    ensures row == 0 ==> shifted == 0
  {
    row << amount
  }

  /** Row `x` of the glyph of `text[i]`, moved to its place in the layout. */
  function Placed(text: seq<bv8>, i: nat, x: nat): (row: bv128)
    requires i < |text| && Span(text, i + 1) <= LAST_BIT
    ensures x >= Length(NewFromAscii(text[i])) ==> row == 0
  {
    ShiftLeft(DecodedRow(NewFromAscii(text[i]), x), Span(text, i + 1))
  }

  /** Row `x` of the layout of `text[i..]`: the union of its placed glyphs. */
  function LayoutFrom(text: seq<bv8>, i: nat, x: nat): bv128
    requires i <= |text| && Span(text, i) <= LAST_BIT
    decreases |text| - i
  {
    if i == |text| then 0 else Or(LayoutFrom(text, i + 1, x), Placed(text, i, x))
  }

  /** The frame of a whole text that fits in one display row. */
  function Layout(text: seq<bv8>): (frame: seq<bv128>)
    requires Span(text, 0) <= LAST_BIT
    ensures |frame| == FRAME_ROWS
  {
    seq(FRAME_ROWS, x requires 0 <= x < FRAME_ROWS => LayoutFrom(text, 0, x))
  }

  lemma {:induction false} SpanMonotone(text: seq<bv8>, i: nat, j: nat)
    requires i <= j <= |text|
    ensures Span(text, j) <= Span(text, i)
    decreases j - i
  {
    if i < j {
      SpanMonotone(text, i + 1, j);
    }
  }

  /** The cursor also moves past the blank column to the left of the
      leftmost glyph: 32 'A's take 32 * 3 glyph columns and 31 blank columns
      between them, 127 columns in all, yet their span is 128 and the layout
      fails. */
  lemma ThirtyTwoLettersOverflow()
    ensures Span(seq(32, _ => 0x41), 0) == LAST_BIT + 1
  {
    SpanOfLetterRun(32, 0);
  }

  /** Each 'A' of a run moves the cursor four columns: three for its glyph
      and one blank. */
  lemma {:induction false} SpanOfLetterRun(k: nat, i: nat)
    requires i <= k
    ensures Span(seq(k, _ => 0x41), i) == 4 * (k - i)
    decreases k - i
  {
    if i < k {
      SpanOfLetterRun(k, i + 1);
      assert seq(k, _ => 0x41)[i] == 0x41;
      assert Advance(0x41) == 4;
    }
  }

  /** Only the top five rows of a layout are ever drawn: no glyph has more. */
  lemma {:induction false} LayoutFromBelowGlyphs(text: seq<bv8>, i: nat, x: nat)
    requires i <= |text| && Span(text, i) <= LAST_BIT
    requires CHAR_LENGTH <= x
    ensures LayoutFrom(text, i, x) == 0
    decreases |text| - i
  {
    if i < |text| {
      LayoutFromBelowGlyphs(text, i + 1, x);
      assert Placed(text, i, x) == 0;
      assert Or(0, 0) == 0;
    }
  }

  /** Rows 5 to 63 of every layout are blank. */
  lemma LayoutBelowGlyphs(text: seq<bv8>)
    requires Span(text, 0) <= LAST_BIT
    ensures forall x | CHAR_LENGTH <= x < FRAME_ROWS :: Layout(text)[x] == 0
  {
    forall x | CHAR_LENGTH <= x < FRAME_ROWS
      ensures Layout(text)[x] == 0
    {
      LayoutFromBelowGlyphs(text, 0, x);
    }
  }

  /** A one-byte text is its glyph, unshifted, at the right edge. */
  lemma LayoutOfOneByte(c: bv8)
    ensures Span([c], 0) <= LAST_BIT
    ensures Layout([c]) == Decoded(NewFromAscii(c))
  {
    forall x | 0 <= x < FRAME_ROWS
      ensures Layout([c])[x] == Decoded(NewFromAscii(c))[x]
    {
      var row := DecodedRow(NewFromAscii(c), x);
      assert [c][0] == c && Span([c], 1) == 0 && LayoutFrom([c], 1, x) == 0;
      assert ShiftLeft(row, 0) == row;
      assert Placed([c], 0, x) == row;
      assert Or(0, row) == row;
    }
  }

  /** One step of the layout loop, for a row the glyph of byte `i` covers:
      the row of the layout after `i`, with that glyph's decoded row placed
      into it, is the row of the layout from `i` on. */
  lemma LayoutStepCovered(text: seq<bv8>, i: nat, x: nat)
    requires i < |text| && Span(text, i) <= LAST_BIT
    ensures Or(LayoutFrom(text, i + 1, x), ShiftLeft(DecodedRow(NewFromAscii(text[i]), x), Span(text, i + 1)))
         == LayoutFrom(text, i, x)
  {
  }

  /** One step of the layout loop, for a row below the glyph of byte `i`:
      the layout after `i` already is the layout from `i` on. */
  lemma LayoutStepBelow(text: seq<bv8>, i: nat, x: nat)
    requires i < |text| && Span(text, i) <= LAST_BIT
    requires x >= Length(NewFromAscii(text[i]))
    ensures LayoutFrom(text, i + 1, x) == LayoutFrom(text, i, x)
  {
    var before := LayoutFrom(text, i + 1, x);
    assert Placed(text, i, x) == 0;
    assert Or(before, 0) == before;
  }

  /** One step of the layout loop, for the whole frame. */
  lemma LayoutStepFrame(text: seq<bv8>, i: nat, before: seq<bv128>, pixels: seq<bv128>, after: seq<bv128>)
    requires i < |text| && Span(text, i) <= LAST_BIT
    requires |before| == |after| == FRAME_ROWS
    requires forall x | 0 <= x < FRAME_ROWS :: before[x] == LayoutFrom(text, i + 1, x)
    requires pixels == Decoded(NewFromAscii(text[i]))
    requires forall y | 0 <= y < Length(NewFromAscii(text[i])) ::
      after[y] == Or(before[y], ShiftLeft(pixels[y], Span(text, i + 1)))
    requires forall y | Length(NewFromAscii(text[i])) <= y < FRAME_ROWS :: after[y] == before[y]
    ensures forall x | 0 <= x < FRAME_ROWS :: after[x] == LayoutFrom(text, i, x)
  {
    forall x | 0 <= x < FRAME_ROWS
      ensures after[x] == LayoutFrom(text, i, x)
    {
      if x < Length(NewFromAscii(text[i])) {
        LayoutStepCovered(text, i, x);
      } else {
        LayoutStepBelow(text, i, x);
      }
    }
  }

  /** The inner loop of the layout: ORs the first `length` rows of a decoded
      glyph, shifted left by `shift`, into the frame. */
  method PlaceRows(output: array<bv128>, pixels: seq<bv128>, length: nat, shift: nat)
    requires output.Length == FRAME_ROWS && |pixels| == FRAME_ROWS
    requires length <= FRAME_ROWS && shift <= LAST_BIT
    modifies output
    ensures forall y | 0 <= y < length :: output[y] == Or(old(output[y]), ShiftLeft(pixels[y], shift))
    ensures forall y | length <= y < FRAME_ROWS :: output[y] == old(output[y])
  {
    var x := 0;
    while x < length
      invariant 0 <= x <= length
      invariant forall y | 0 <= y < FRAME_ROWS ::
        output[y] == if y < x then Or(old(output[y]), ShiftLeft(pixels[y], shift)) else old(output[y])
    {
      output[x] := Or(output[x], ShiftLeft(pixels[x], shift));
      x := x + 1;
    }
  }

  /** The body of the layout loop for byte `i`: decodes its glyph and ORs
      the glyph's rows, shifted left past the bytes after it, into the
      frame. Once the bytes from `i` on still fit, the frame holds their
      layout. */
  method PlaceGlyph(output: array<bv128>, text: seq<bv8>, i: nat, leftShift: nat)
    requires output.Length == FRAME_ROWS && i < |text|
    requires leftShift == Span(text, i + 1) <= LAST_BIT
    requires forall x | 0 <= x < FRAME_ROWS :: output[x] == LayoutFrom(text, i + 1, x)
    modifies output
    ensures Span(text, i) <= LAST_BIT ==>
      forall x | 0 <= x < FRAME_ROWS :: output[x] == LayoutFrom(text, i, x)
  {
    var thisLetter := NewFromAscii(text[i]);
    var letterLength := Length(thisLetter);
    var letterPixels := IntoDisplayPixels(thisLetter);
    ghost var before := output[..];
    PlaceRows(output, letterPixels, letterLength, leftShift);
    if Span(text, i) <= LAST_BIT {
      ghost var after := output[..];
      LayoutStepFrame(text, i, before, letterPixels, after);
      forall x | 0 <= x < FRAME_ROWS
        ensures output[x] == LayoutFrom(text, i, x)
      {
        assert output[x] == after[x];
      }
    }
  }

  /** Lays a byte string out right-aligned in one frame, last byte at bit 0,
      walking from the last byte to the first; fails (the source panics)
      once the cursor would pass the left edge. */
  method PixelateText(text: seq<bv8>) returns (result: Option<seq<bv128>>)
    ensures result.None? <==> Span(text, 0) > LAST_BIT
    ensures result.Some? ==> result.value == Layout(text)
  {
    var output := new bv128[FRAME_ROWS](_ => 0);
    var i := |text|;
    var rightCursor: nat := LAST_BIT;
    while i > 0
      invariant 0 <= i <= |text|
      invariant rightCursor + Span(text, i) == LAST_BIT
      invariant forall x | 0 <= x < FRAME_ROWS :: output[x] == LayoutFrom(text, i, x)
    {
      i := i - 1;
      var letterWidth := Width(NewFromAscii(text[i]));
      var leftShift := LAST_BIT - rightCursor;
      PlaceGlyph(output, text, i, leftShift);
      if rightCursor < letterWidth + 1 {
        // `checked_sub(..).unwrap()` panics: the glyph widths plus one
        // column per glyph exceed 127
        SpanMonotone(text, 0, i);
        return None;
      }
      rightCursor := rightCursor - (letterWidth + 1);
    }
    result := Some(output[..]);
  }
}
