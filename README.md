# Speedometer glyphs and display matrix

A Dafny model of the drawing core of the `speedometer` firmware:

- **`Glyphs`** (`glyphs.dfy`, from `src/main.rs`) covers the glyph codec and the text layout.
  - `new_from_ascii` looks a byte up in a fixed table, case-insensitively. It packs the byte into one of three glyph shapes:
    - Standard: 5 rows of 3 pixels in a `u16`
    - Wide: 5 rows of 5 pixels in a `u32`
    - Small: a `u8`
  - `into_displaypixels` decodes a glyph into a 64-row frame of `u128` rows.
  - `andeq_displaypixels` ORs one frame into another in place.
  - `pixelate_text` lays a byte string out right-aligned in one frame. It walks from the last byte to the first. The cursor starts at column 127 and moves left by each glyph's width plus one blank column. It panics once the cursor would pass below 0: the total of all glyph widths plus one column per glyph exceeds 127.
- **`Matrix`** (`matrix.dfy`, from `src/newspeed.rs`) covers the display matrix `DisplayArr`. It holds 64 rows of 128 pixels, kept as two vectors of 64 words: `left` holds the upper words and `right` the lower words.
  - Rows are split into words and combined from them.
  - Rows, row halves, single pixels and whole columns can be read.
  - A row can be written or OR-ed into.
  - The matrix can be rotated by whole rows (lane rotation) or within every row (`u128` rotation).
  - Out-of-range indices give a row or a column error. The error carries the largest valid index and the index that was given, with one exception: `bit`'s column error, described below.

The model follows the code as written. In these places the code disagrees with its own comments or does something surprising:

- **`split_u128` drops the upper word.** It computes the upper word as `(num << 64) as u64`, which is always 0 (`Matrix.SplitU128`). So a split followed by a combine gives back exactly the values below 2^64 (`Matrix.SplitThenCombine`). `set_row`, `new_from_array` and the in-row rotations therefore keep only the lower 64 bits of every row. The doc comments at `src/newspeed.rs:73-75` and `src/newspeed.rs:81-83` call the two functions inverses; they are not.
- **`get_bit` counts from the least significant bit.** So do `bit` and `column`, which use it. The doc comments at `src/newspeed.rs:89` and `src/newspeed.rs:169` say bit 0 is the leftmost one.
- **`row_half(x, true)` returns the lower (right) word.** The doc comment at `src/newspeed.rs:154` says it returns the upper one.
- **Small glyphs ('.' and ',') decode to a blank frame.** The comment at `src/main.rs:11` describes the shape as 4x2. The decoder treats it as 3 rows of 2 pixels, and its mask for that shape never overlaps the bits it shifts down (`Glyphs.SmallDecodesBlank`).
- **The marker bit plays no part in decoding.** The comments at `src/main.rs:9-10` call the top bit of a Standard or Wide glyph a visibility bit. The decoder never reads it (`Glyphs.StandardIgnoresMarker`, `Glyphs.WideIgnoresUnusedBits`).
- **The layout also pays for a blank column left of the leftmost glyph.** `pixelate_text` starts its cursor at 127 (`src/main.rs:285`) and subtracts `letter_width + 1` for every byte (`src/main.rs:307`), including the first. So it fails once the widths plus one column per glyph exceed 127, even for texts whose pixels and gaps fit in a 128-column row. For example, 32 'A's take 127 columns but fail (`Glyphs.ThirtyTwoLettersOverflow`).
- **The table has irregular entries.** '0' is drawn like 'O', '(' gets the constant named for the right parenthesis and ')' the left one, and the dollar glyph is never produced (`Glyphs.TableQuirks`, `Glyphs.DollarGlyphUnused`).
- **`bit` reports a column past 127 against the wrong bound.** For a column of 64 or more it subtracts 64 first (`src/newspeed.rs:220-221`). It then returns `get_bit`'s own error (`src/newspeed.rs:91-92`). So `bit(0, 200)` fails with a column error (63, 136), not (127, 200) (`Matrix.DisplayArr.Bit`).
- **`rotate_rows_left` ignores its const parameter `N`.** The model has no such parameter.

Modelling choices:

- Bytes are `bv8`. Packed glyphs are `bv16`, `bv32` and `bv8`. Display rows are `bv128` and matrix words are `bv64`.
- `usize` indices are `nat`. No code path here can wrap them. They are compared, used as indices, or lowered by 64 after a check. The other subtractions cannot underflow either:
  - `127 - right_cursor` in `pixelate_text` (`src/main.rs:297`), since the cursor never exceeds 127;
  - the checked `right_cursor - (letter_width + 1)` (`src/main.rs:307`), whose failure is modelled;
  - the decoders' `LENGTH - (i + 1)` (`src/main.rs:158`, `169`, `180`), with `i` below the length.
- Bit positions that are shift amounts are `bv64`. The rotation amount of `rotate_rows_right`/`rotate_rows_left` is a `bv32`, taken modulo 128 as `u128::rotate_right`/`rotate_left` do.
- The const generic `N` of `rotate_rows_down`/`rotate_rows_up` is a `nat` parameter.
- A `DisplayArr` is a class.
  - Its two `u64x64` vectors are `seq<bv64>` fields that the methods reassign.
  - The methods that change the matrix are methods with `modifies this`.
  - The reads are functions.
- `column` and the decoding, merging and layout loops are loops over arrays or words, proved against specification functions.
- The panic of `pixelate_text` (`checked_sub(..).unwrap()`) is modelled as a `None` result.
- The panic of `idx_error` is modelled as a precondition, which every caller meets.

## Model

| member | source | states |
|---|---|---|
| Glyphs.ToAsciiUppercase | src/main.rs:92 | 'a'..'z' become 32 less and every other byte is unchanged; the result is never a lower-case letter |
| Glyphs.NewFromAscii | src/main.rs:91-145 | a glyph is Wide exactly for M, W, @, # and & (either case) and Small exactly for '.' and ','; a byte without an entry gets the placeholder glyph |
| Glyphs.NewFromAsciiIgnoresCase | src/main.rs:92 | every byte gets the glyph of its upper-case form; a lower-case letter looks like its capital |
| Glyphs.TableQuirks | src/main.rs:119-143 | '0' has the glyph of 'O'; '(' gets the right and ')' the left parenthesis; '$' gets the placeholder |
| Glyphs.DollarGlyphUnused | src/main.rs:91-145 | no byte is mapped to the dollar glyph |
| Glyphs.WideW | src/main.rs:115 | 'W' and 'w' are the Wide W glyph, whose decoded rows are 10001, 10001, 10101, 10101, 11011, with blank rows below |
| Glyphs.Length | src/main.rs:291-295 | every glyph shape is 3 to 5 rows tall, so no glyph draws below row 4 |
| Glyphs.Width | src/main.rs:291-295 | every glyph shape is 2 to 5 pixels wide |
| Glyphs.DecodedRowFitsWidth | src/main.rs:291-307 | every decoded row fits in its glyph's width, so moving the cursor by the width plus one leaves a blank column between glyphs |
| Glyphs.DecodedRow | src/main.rs:149-188 | a decoded Standard row fits in 3 bits and a Wide row in 5; Small glyphs and rows past the glyph's length are blank |
| Glyphs.Decoded | src/main.rs:149-188 | a decoded frame has 64 rows, and every row at or past the glyph's length is blank |
| Glyphs.SmallDecodesBlank | src/main.rs:176-185 | every Small glyph decodes to an all-blank frame |
| Glyphs.DecodeStandardKeepsPixels | src/main.rs:154-163 | repacking the decoded rows of a Standard glyph gives its 15 pixel bits back; only the marker bit is lost |
| Glyphs.PackStandardDecodes | src/main.rs:154-163 | any five 3-pixel rows, packed under a set marker bit, decode back to exactly those rows |
| Glyphs.DecodeWideKeepsPixels | src/main.rs:165-174 | repacking the decoded rows of a Wide glyph gives its 25 pixel bits back; the marker bit and the six low bits are lost |
| Glyphs.PackWideDecodes | src/main.rs:165-174 | any five 5-pixel rows, packed under a set marker bit, decode back to exactly those rows |
| Glyphs.StandardRepacked | src/main.rs:154-163 | a Standard glyph decodes like its pixel bits under a set marker bit |
| Glyphs.WideRepacked | src/main.rs:165-174 | a Wide glyph decodes like its pixel bits under a set marker bit |
| Glyphs.StandardIgnoresMarker | src/main.rs:154-163 | the marker bit of a Standard glyph does not change its decoding |
| Glyphs.WideIgnoresUnusedBits | src/main.rs:165-174 | neither the marker bit nor the low six bits of a Wide glyph change its decoding |
| Glyphs.StandardDecodeInjective | src/main.rs:154-163 | two Standard glyphs decode alike if and only if their 15 pixel bits agree |
| Glyphs.WideDecodeInjective | src/main.rs:165-174 | two Wide glyphs decode alike if and only if their 25 pixel bits agree |
| Glyphs.IntoDisplayPixels | src/main.rs:149-188 | the decoder's output is the decoded frame of the glyph |
| Glyphs.DecodeStandard | src/main.rs:154-163 | the Standard arm of the decoder, with its masks and shifts, produces the decoded frame |
| Glyphs.DecodeWide | src/main.rs:165-174 | the Wide arm of the decoder produces the decoded frame |
| Glyphs.DecodeSmall | src/main.rs:176-185 | the Small arm of the decoder produces the decoded (blank) frame |
| Glyphs.OrMerge | src/main.rs:191-197 | the pixel-wise union of two frames has the frame length |
| Glyphs.AndEqDisplayPixels | src/main.rs:191-197 | after the in-place merge, the destination is the pixel-wise union of its old contents and the source |
| Glyphs.OrMergeKeepsDest | src/main.rs:194 | merging never clears a pixel of the destination |
| Glyphs.OrMergeAddsSrc | src/main.rs:194 | every pixel of the source is set in the merged frame |
| Glyphs.OrMergeLeast | src/main.rs:194 | the merge sets no pixel that neither frame has |
| Glyphs.OrMergeIdempotent | src/main.rs:191-197 | merging the same source twice equals merging it once |
| Glyphs.OrAbsorbs | src/main.rs:194 | OR-ing a row in a second time changes nothing |
| Glyphs.ShiftLeft | src/main.rs:303 | shifting a blank row gives a blank row |
| Glyphs.Placed | src/main.rs:297-305 | a glyph placed in the layout has nothing below its own rows |
| Glyphs.Layout | src/main.rs:281-311 | the layout of a text that fits is a 64-row frame |
| Glyphs.ThirtyTwoLettersOverflow | src/main.rs:285-307 | 32 'A's, which take 127 columns with their gaps, have a span of 128, so the layout fails for them |
| Glyphs.SpanOfLetterRun | src/main.rs:297-307 | each 'A' of a run moves the cursor by 4 columns |
| Glyphs.SpanMonotone | src/main.rs:297-307 | the columns taken by a suffix of the text never exceed those of a longer suffix, so the cursor only moves left |
| Glyphs.LayoutFromBelowGlyphs | src/main.rs:300-305 | rows 5 and below of any part of the layout are blank |
| Glyphs.LayoutBelowGlyphs | src/main.rs:281-311 | rows 5 to 63 of every laid-out text are blank |
| Glyphs.LayoutOfOneByte | src/main.rs:281-311 | a one-byte text always fits and is exactly its glyph's decoded frame, unshifted at the right edge |
| Glyphs.LayoutStepCovered | src/main.rs:300-305 | for a row the glyph covers, OR-ing its shifted row into the layout of the bytes after it gives the layout from that byte on |
| Glyphs.LayoutStepBelow | src/main.rs:300-305 | for a row below the glyph, the layout of the bytes after it already is the layout from that byte on |
| Glyphs.LayoutStepFrame | src/main.rs:288-305 | one pass of the outer loop turns the frame of the bytes after `i` into the frame of the bytes from `i` on |
| Glyphs.PlaceRows | src/main.rs:300-305 | the first `length` rows gain the glyph's rows shifted left by the cursor offset; every other row is unchanged |
| Glyphs.PlaceGlyph | src/main.rs:288-305 | decoding byte `i` and placing it at offset `Span(i+1)` extends the frame to the layout from `i` on, whenever that still fits |
| Glyphs.PixelateText | src/main.rs:281-311 | fails exactly when the glyph widths plus one blank column each exceed 127 columns; otherwise returns the layout, each glyph shifted left past the glyphs after it |
| Matrix.IdxError | src/newspeed.rs:27-36 | the error has the requested kind and carries the bound and the index, the index always past the bound |
| Matrix.RowErr | src/newspeed.rs:39 | a row error with the given bound and index |
| Matrix.ColumnErr | src/newspeed.rs:41 | a column error with the given bound and index |
| Matrix.SplitU128 | src/newspeed.rs:77-79 | the upper word of a split is always 0 and the lower word is the lower 64 bits of the value |
| Matrix.CombineU128 | src/newspeed.rs:85-87 | a combined row has `a` as its upper 64 bits and `b` as its lower 64 bits |
| Matrix.SplitThenCombine | src/newspeed.rs:74-87 | split then combine clears the upper 64 bits, so it gives a value back if and only if the value is below 2^64 |
| Matrix.CombineThenSplit | src/newspeed.rs:74-87 | combine then split gives (0, b), so it gives the pair back if and only if the upper word is 0 |
| Matrix.SplitCombineExample | src/newspeed.rs:262-275 | 0x0123456789abcdef splits into (0, itself) and combines back |
| Matrix.GetBit | src/newspeed.rs:90-102 | fails exactly for positions past 63, with a column error (63, position); otherwise returns 0 or 1, and 1 exactly when that pixel is on, counting from the least significant bit |
| Matrix.MaskedBitIsPixel | src/newspeed.rs:94-95 | the masked and shifted bit is 1 exactly when the pixel is on |
| Matrix.MaskedBit | src/newspeed.rs:94-100 | the masked and shifted bit is 0 or 1, so the unreachable branch is never taken |
| Matrix.RotateRight128 | src/newspeed.rs:247 | `u128::rotate_right` by the amount mod 128; an amount that is a multiple of 128 leaves the row unchanged |
| Matrix.RotateLeft128 | src/newspeed.rs:254 | `u128::rotate_left` by the amount mod 128; an amount that is a multiple of 128 leaves the row unchanged |
| Matrix.RotateLanesRight | src/newspeed.rs:234 | `rotate_lanes_right::<n>` keeps 64 lanes; where each lane goes is stated by RotateDownMovesLane |
| Matrix.RotateLanesLeft | src/newspeed.rs:241 | `rotate_lanes_left::<n>` keeps 64 lanes; where each lane goes is stated by RotateUpMovesLane |
| Matrix.RotateDownMovesLane | src/newspeed.rs:233-236 | rotating lanes down by `n` moves lane `i` to lane `(i + n) mod 64` |
| Matrix.RotateUpMovesLane | src/newspeed.rs:240-243 | rotating lanes up by `n` moves lane `i` to lane `(i - n) mod 64` |
| Matrix.RotateDownThenUp | src/newspeed.rs:233-243 | rotating down and then up by the same amount restores every lane |
| Matrix.RotateUpThenDown | src/newspeed.rs:233-243 | rotating up and then down by the same amount restores every lane |
| Matrix.RotateDownTwice | src/newspeed.rs:233-236 | rotating down by `a` and then by `b` equals rotating down by `a + b` |
| Matrix.OrWordFacts | src/newspeed.rs:210-211 | an OR-assignment keeps the pixels of both words, and a repeat changes nothing |
| Matrix.OrLane | src/newspeed.rs:208-211 | only the chosen lane changes, and it keeps its pixels and gains those of the word |
| Matrix.OrLaneZero | src/newspeed.rs:208-210 | OR-ing the always-zero upper word of a split changes no lane |
| Matrix.OrLaneIdempotent | src/newspeed.rs:205-216 | OR-ing the same word into the same lane twice equals doing it once |
| Matrix.DisplayArr.Splat | src/newspeed.rs:105-124 | every row holds `left` as its upper word and `right` as its lower word |
| Matrix.DisplayArr.New | src/newspeed.rs:126-128 | every row reads as 0 |
| Matrix.DisplayArr.NewFull | src/newspeed.rs:130-132 | every row reads as all 128 pixels on |
| Matrix.DisplayArr.NewFromHalves | src/newspeed.rs:135-140 | the matrix holds exactly the two given vectors |
| Matrix.DisplayArr.NewFromArray | src/newspeed.rs:142-152 | each row is the split of the array entry and reads back as that entry's lower 64 bits |
| Matrix.DisplayArr.RowHalf | src/newspeed.rs:155-160 | fails exactly for rows past 63, with a row error (63, x); otherwise gives the upper word when `y` is false and the lower word when it is true |
| Matrix.DisplayArr.Row | src/newspeed.rs:163-168 | fails exactly for rows past 63, with a row error (63, idx); otherwise gives the row combined from its two words |
| Matrix.DisplayArr.RowFromHalves | src/newspeed.rs:155-168 | the two halves read by `row_half` make up the row read by `row` |
| Matrix.DisplayArr.Bit | src/newspeed.rs:219-228 | the row is checked first (row error 63, row); then a column past 127 is a column error (63, column - 64); otherwise columns 0..63 are pixels of the upper word and 64..127 of the lower word |
| Matrix.DisplayArr.ColumnOf | src/newspeed.rs:176-178 | bit `i` of the result is the chosen pixel of lane `i`, for every lane |
| Matrix.DisplayArr.Column | src/newspeed.rs:170-191 | fails exactly for columns past 127, with a column error (127, idx); otherwise bit `i` of the result agrees with `bit(i, idx)` for every row `i` |
| Matrix.DisplayArr.SetRow | src/newspeed.rs:194-202 | fails exactly for rows past 63, changing nothing; otherwise only row `idx` changes, to the split of `src`, and it reads back as the lower 64 bits of `src` |
| Matrix.DisplayArr.OreqRow | src/newspeed.rs:205-216 | fails exactly for rows past 63, changing nothing; otherwise only row `idx` gains the pixels of the split of `src` and loses none; the upper words never change |
| Matrix.DisplayArr.RotateRowsDown | src/newspeed.rs:233-236 | both vectors are rotated down by `n` lanes |
| Matrix.DisplayArr.RotateRowsUp | src/newspeed.rs:240-243 | both vectors are rotated up by `n` lanes |
| Matrix.DisplayArr.RotateRowsRight | src/newspeed.rs:245-250 | never fails; each row independently becomes the split of its old value rotated right by `idx` mod 128 |
| Matrix.DisplayArr.RotateRightOne | src/newspeed.rs:247-248 | one row is read, rotated right and written back; both unwraps succeed and no other row changes |
| Matrix.DisplayArr.RotateRowsLeft | src/newspeed.rs:252-257 | never fails; each row independently becomes the split of its old value rotated left by `idx` mod 128 |
| Matrix.DisplayArr.RotateLeftOne | src/newspeed.rs:254-255 | one row is read, rotated left and written back; both unwraps succeed and no other row changes |
| Matrix.PlaceBit | src/newspeed.rs:177 | `output \|= bit << i`; a zero bit leaves the word unchanged, and OrBitAt states its effect on every pixel |
| Matrix.OrBitAt | src/newspeed.rs:177 | OR-ing bit `b` in at position `i` sets pixel `i` when `b` is 1 and leaves every other pixel as it was |
| Matrix.ColumnStepAt | src/newspeed.rs:176-178 | one loop step places lane `i`'s pixel at bit `i` and leaves the other bits of the column as they were |
| Matrix.ColumnStep | src/newspeed.rs:176-178 | one loop step extends a column built from lanes below `i` to the lanes below `i + 1` |

## Left out

- `main`, the `Display`/`Debug` formatting of errors and of the matrix, and `core::fmt`: these are output only.
- The `const_eval_select` split between compile-time and SIMD implementations of `splat`: both produce the same vectors, modelled once.
- The SIMD vector type `u64x64` is modelled as a sequence of 64 words.
- The second, unfinished `DisplayArr` draft in `src/main.rs`, `StaticText`, `GearPosition`, `DataField`, `Position` and `LETTER_PIXELS` are not part of this model.
- Glyphs.PixelateText: the model does not prove bit by bit that no pixel is shifted past bit 127. It proves that the result is the layout `Layout`, and that the call fails exactly when the glyph widths plus one column per glyph exceed 127. That count includes the blank column left of the leftmost glyph. It also proves what single-glyph and blank rows look like. A per-bit statement needs symbolic 128-bit shifts, which are beyond the solver budget.
- Matrix.DisplayArr.RotateRowsRight and RotateRowsLeft: the model states each new row as the split of the rotated old row. It does not prove that a left rotation undoes a right one, since `set_row` loses the upper word anyway and symbolic 128-bit rotation identities are beyond the solver budget.
- Matrix.RotateLanesRight and RotateLanesLeft: the functions state only their length. Where lanes move is stated by RotateDownMovesLane and RotateUpMovesLane.
- Matrix.DisplayArr.Column: the `?` on `get_bit` inside the loop is never taken, because the position is always below 64. The model shows this (the value is read without a check) rather than modelling a dead error path.
- Matrix.RotateRight128 and RotateLeft128: the contracts state only that an amount which is a multiple of 128 changes nothing. Properties of rotations by a symbolic amount of a 128-bit word are beyond the solver budget.
- Matrix.PlaceBit: the contract states only that a zero bit changes nothing. Its effect on every pixel is stated by OrBitAt.
