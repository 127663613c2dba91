/** The display matrix of src/newspeed.rs.

    `DisplayArr` holds 64 rows of 128 pixels. Each row is kept as two 64-bit
    words in two vectors of 64 lanes: `left` holds the upper word of every
    row, `right` the lower word. Rows are read and written as `u128` values
    (split into and combined from the two words), single pixels and whole
    columns are read out, and the matrix can be rotated by whole rows or
    within every row. Indices are `usize` values (64-bit words here);
    out-of-range indices give a row or column error carrying the largest
    valid index and the index that was given, except that `bit` reports a
    column past 127 through `get_bit`, as (63, column - 64). */
module Matrix {

  /** Rows of the matrix, and lanes of each half. */
  const ROWS: nat := 64
  /** Largest valid row index. */
  const LAST_ROW: nat := 63
  /** Largest valid column index. */
  const LAST_COLUMN: nat := 127
  /** A `u128` with every bit set. */
  const ALL_ONES: bv128 := 0xFFFF_FFFF_FFFF_FFFF_FFFF_FFFF_FFFF_FFFF
  /** The bits of the lower word of a `u128`. */
  const LOW_WORD: bv128 := 0xFFFF_FFFF_FFFF_FFFF

  /** `DisplayArrIndexError`: the largest valid index and the index given. */
  datatype IndexError = IndexError(expected: nat, actual: nat)

  /** `DisplayArrErr`. */
  datatype DisplayArrErr =
    | InvalidRowError(index: IndexError)
    | InvalidColumnError(index: IndexError)

  /** `Result<T, DisplayArrErr>`. */
  datatype Result<T> = Ok(value: T) | Err(error: DisplayArrErr)

  /** `idx_error`: an error of the kind chosen by `isRow`. The source panics
      when the index is not past the bound, so callers must pass one that is. */
  function IdxError(isRow: bool, expected: nat, actual: nat): (e: DisplayArrErr)
    requires expected < actual
    ensures e.InvalidRowError? <==> isRow
    ensures e.index.expected == expected && e.index.actual == actual
    ensures e.index.expected < e.index.actual
  {
    if isRow then InvalidRowError(IndexError(expected, actual))
    else InvalidColumnError(IndexError(expected, actual))
  }

  /** `row_err`. */
  function RowErr(expected: nat, actual: nat): (e: DisplayArrErr)
    requires expected < actual
    ensures e.InvalidRowError? && e.index == IndexError(expected, actual)
  {
    IdxError(true, expected, actual)
  }

  /** `column_err`. */
  function ColumnErr(expected: nat, actual: nat): (e: DisplayArrErr)
    requires expected < actual
    ensures e.InvalidColumnError? && e.index == IndexError(expected, actual)
  {
    IdxError(false, expected, actual)
  }

  /** The lower 64 bits of a `u128`, the upper ones cleared. */
  function LowWord(x: bv128): bv128 {
    x & LOW_WORD
  }

  /** `split_u128`: the pair (upper word, lower word) as the source computes
      it. The upper word is taken from `num << 64`, whose low 64 bits are
      always zero, so it is always 0; only the lower word survives. */
  function SplitU128(num: bv128): (halves: (bv64, bv64))
    ensures halves.0 == 0
    ensures halves.1 as bv128 == LowWord(num)
  {
    (((num << 64) & LOW_WORD) as bv64, (num & LOW_WORD) as bv64)
  }

  /** `combine_u128`: `a` becomes the upper 64 bits and `b` the lower 64 bits. */
  function CombineU128(a: bv64, b: bv64): (row: bv128)
    ensures row >> 64 == a as bv128
    ensures LowWord(row) == b as bv128
  {
    ((a as bv128) << 64) | (b as bv128)
  }

  /** Splitting and combining again keeps the lower word and clears the
      upper one: it gives back exactly the values below 2^64. */
  lemma SplitThenCombine(num: bv128)
    ensures CombineU128(SplitU128(num).0, SplitU128(num).1) == LowWord(num)
    ensures CombineU128(SplitU128(num).0, SplitU128(num).1) == num <==> num >> 64 == 0
  {
  }

  /** Combining and splitting again gives back the words exactly when the
      upper one is 0. */
  lemma CombineThenSplit(a: bv64, b: bv64)
    ensures SplitU128(CombineU128(a, b)) == (0, b)
    ensures SplitU128(CombineU128(a, b)) == (a, b) <==> a == 0
  {
  }

  /** The unit test `u128_ops`: a value below 2^64 splits into (0, itself)
      and combines back. */
  lemma SplitCombineExample()
    ensures SplitU128(0x0123_4567_89ab_cdef) == (0, 0x0123_4567_89ab_cdef)
    ensures CombineU128(0, 0x0123_4567_89ab_cdef) == 0x0123_4567_89ab_cdef
  {
  }

  /** Pixel `position` of a word, counted from the least significant bit. */
  predicate PixelOn(word: bv64, position: bv64)
    requires position < 64
  {
    word & (1 << position) != 0
  }

  /** Pixel `position` of a word, for a position given as an index. */
  predicate Pixel(word: bv64, position: nat)
    requires position < 64
  {
    PixelOn(word, position as bv64)
  }

  /** `get_bit`: bit `position` of `number` as 0 or 1, counted from the least
      significant bit; positions past 63 are a column error. */
  function GetBit(number: bv64, position: nat): (r: Result<bv64>)
    ensures r.Err? <==> position > 63
    ensures r.Err? ==> r.error == InvalidColumnError(IndexError(63, position))
    ensures r.Ok? ==> r.value <= 1 && (r.value == 1 <==> Pixel(number, position))
  {
    if position > 63 then
      Err(InvalidColumnError(IndexError(63, position)))
    else
      MaskedBitIsPixel(number, position as bv64);
      Ok(MaskedBit(number, position as bv64))
  }

  /** The source's formula for one bit: mask it, then shift it down to bit 0.
      The result is 0 or 1, so the `unreachable_unchecked` branch after it is
      never taken. */
  function MaskedBit(number: bv64, position: bv64): (bit: bv64)
    requires position < 64
    ensures bit <= 1
  {
    var mask := 1 << position;
    (number & mask) >> position
  }

  /** The masked-and-shifted bit is 1 exactly when the pixel is on. */
  lemma MaskedBitIsPixel(number: bv64, position: bv64)
    requires position < 64
    ensures MaskedBit(number, position) <= 1
    ensures MaskedBit(number, position) == 1 <==> PixelOn(number, position)
  {
  }

  /** `u128::rotate_right`: the amount is taken modulo 128. */
  function RotateRight128(x: bv128, k: bv32): (r: bv128)
    ensures k % 128 == 0 ==> r == x
  {
    x.RotateRight((k % 128) as nat)
  }

  /** `u128::rotate_left`: the amount is taken modulo 128. */
  function RotateLeft128(x: bv128, k: bv32): (r: bv128)
    ensures k % 128 == 0 ==> r == x
  {
    x.RotateLeft((k % 128) as nat)
  }

  /** `rotate_lanes_right::<n>` on 64 lanes: lane `i` moves to lane `i + n`,
      wrapping around. */
  function RotateLanesRight(lanes: seq<bv64>, n: nat): (r: seq<bv64>)
    requires |lanes| == ROWS
    ensures |r| == ROWS
  {
    seq(ROWS, i requires 0 <= i < ROWS => lanes[(i - n) % ROWS])
  }

  /** `rotate_lanes_left::<n>` on 64 lanes: lane `i` moves to lane `i - n`,
      wrapping around. */
  function RotateLanesLeft(lanes: seq<bv64>, n: nat): (r: seq<bv64>)
    requires |lanes| == ROWS
    ensures |r| == ROWS
  {
    seq(ROWS, i requires 0 <= i < ROWS => lanes[(i + n) % ROWS])
  }

  /** Rotating down by `n` moves lane `i` to lane `i + n`, wrapping. */
  lemma RotateDownMovesLane(lanes: seq<bv64>, n: nat, i: int)
    requires |lanes| == ROWS && 0 <= i < ROWS
    ensures RotateLanesRight(lanes, n)[(i + n) % ROWS] == lanes[i]
  {
    var q := (i + n) / ROWS;
    assert (i + n) % ROWS - n == i + ROWS * -q;
    LaneShift(i, -q);
  }

  /** Rotating up by `n` moves lane `i` to lane `i - n`, wrapping. */
  lemma RotateUpMovesLane(lanes: seq<bv64>, n: nat, i: int)
    requires |lanes| == ROWS && 0 <= i < ROWS
    ensures RotateLanesLeft(lanes, n)[(i - n) % ROWS] == lanes[i]
  {
    var q := (i - n) / ROWS;
    assert (i - n) % ROWS + n == i + ROWS * -q;
    LaneShift(i, -q);
  }

  /** Adding a multiple of 64 does not change a lane index. */
  lemma LaneShift(i: int, t: int)
    requires 0 <= i < ROWS
    ensures (i + ROWS * t) % ROWS == i
  {
    var r := (i + ROWS * t) % ROWS;
    var d := (i + ROWS * t) / ROWS;
    assert i + ROWS * t == ROWS * d + r;
    assert i - r == ROWS * (d - t);
  }

  /** Rotating down and then up by the same amount restores the lanes. */
  lemma RotateDownThenUp(lanes: seq<bv64>, n: nat)
    requires |lanes| == ROWS
    ensures RotateLanesLeft(RotateLanesRight(lanes, n), n) == lanes
  {
    var down := RotateLanesRight(lanes, n);
    forall i | 0 <= i < ROWS
      ensures RotateLanesLeft(down, n)[i] == lanes[i]
    {
      var q := (i + n) / ROWS;
      assert (i + n) % ROWS - n == i + ROWS * -q;
      LaneShift(i, -q);
    }
  }

  /** Rotating up and then down by the same amount restores the lanes. */
  lemma RotateUpThenDown(lanes: seq<bv64>, n: nat)
    requires |lanes| == ROWS
    ensures RotateLanesRight(RotateLanesLeft(lanes, n), n) == lanes
  {
    var up := RotateLanesLeft(lanes, n);
    forall i | 0 <= i < ROWS
      ensures RotateLanesRight(up, n)[i] == lanes[i]
    {
      var q := (i - n) / ROWS;
      assert (i - n) % ROWS + n == i + ROWS * -q;
      LaneShift(i, -q);
    }
  }

  /** Two rotations down add up: rotating by `a` and then by `b` is rotating
      by `a + b` once. */
  lemma RotateDownTwice(lanes: seq<bv64>, a: nat, b: nat)
    requires |lanes| == ROWS
    ensures RotateLanesRight(RotateLanesRight(lanes, a), b) == RotateLanesRight(lanes, a + b)
  {
    var once := RotateLanesRight(lanes, a);
    forall i | 0 <= i < ROWS
      ensures RotateLanesRight(once, b)[i] == RotateLanesRight(lanes, a + b)[i]
    {
      var j := (i - (a + b)) % ROWS;
      var q := (i - b) / ROWS;
      var q2 := ((i - b) % ROWS - a) / ROWS;
      assert ((i - b) % ROWS - a) % ROWS == (i - (a + b)) % ROWS by {
        var x := (i - b) % ROWS - a;
        assert x == (i - (a + b)) + ROWS * -q;
        ModAddMultiple(i - (a + b), -q);
      }
    }
  }

  /** Adding a multiple of 64 does not change a remainder modulo 64. */
  lemma ModAddMultiple(x: int, t: int)
    ensures (x + ROWS * t) % ROWS == x % ROWS
  {
    var q := x / ROWS;
    assert x == ROWS * q + x % ROWS;
    assert x + ROWS * t == x % ROWS + ROWS * (q + t);
    LaneShift(x % ROWS, q + t);
  }

  /** `a |= b` on one 64-bit matrix word (the glyph code has its own OR on
      128-bit display rows). */
  function OrWord(a: bv64, b: bv64): bv64 {
    a | b
  }

  /** Every pixel of `b` is on in `a`. */
  predicate Covers(a: bv64, b: bv64) {
    a & b == b
  }

  /** Or-ing keeps the pixels of both words, and or-ing a word in again
      changes nothing. */
  lemma OrWordFacts(a: bv64, b: bv64)
    ensures Covers(OrWord(a, b), a) && Covers(OrWord(a, b), b)
    ensures OrWord(OrWord(a, b), b) == OrWord(a, b)
  {
  }

  /** Lane `idx` or-ed with `v`: the lane keeps its pixels and gains those of
      `v`; every other lane is kept. */
  function OrLane(lanes: seq<bv64>, idx: nat, v: bv64): (r: seq<bv64>)
    requires idx < |lanes|
    ensures |r| == |lanes|
    ensures forall j | 0 <= j < |lanes| && j != idx :: r[j] == lanes[j]
    ensures Covers(r[idx], lanes[idx]) && Covers(r[idx], v)
  {
    OrWordFacts(lanes[idx], v);
    lanes[idx := OrWord(lanes[idx], v)]
  }

  /** Or-ing 0 into a lane changes nothing. */
  lemma OrLaneZero(lanes: seq<bv64>, idx: nat)
    requires idx < |lanes|
    ensures OrLane(lanes, idx, 0) == lanes
  {
    assert OrWord(lanes[idx], 0) == lanes[idx];
  }

  /** Or-ing the same word into the same lane twice is or-ing it once. */
  lemma OrLaneIdempotent(lanes: seq<bv64>, idx: nat, v: bv64)
    requires idx < |lanes|
    ensures OrLane(OrLane(lanes, idx, v), idx, v) == OrLane(lanes, idx, v)
  {
    OrWordFacts(lanes[idx], v);
  }

  /** `DisplayArr`: 64 rows of 128 pixels, kept as two vectors of 64 words. */
  class DisplayArr {
    /** Upper word (columns 127..64 of the `u128` row) of every row. */
    var left: seq<bv64>
    /** Lower word (columns 63..0 of the `u128` row) of every row. */
    var right: seq<bv64>

    ghost predicate Valid()
      reads this
    {
      |left| == ROWS && |right| == ROWS
    }

    /** `splat`: every row holds `l` in its upper word and `r` in its lower. */
    constructor Splat(l: bv64, r: bv64)
      ensures Valid()
      ensures forall i | 0 <= i < ROWS :: left[i] == l && right[i] == r
    {
      left := seq(ROWS, _ => l);
      right := seq(ROWS, _ => r);
    }

    /** `new`: every pixel off. */
    constructor New()
      ensures Valid()
      ensures forall i | 0 <= i < ROWS :: left[i] == 0 && right[i] == 0
      ensures forall i | 0 <= i < ROWS :: Row(i) == Ok(0)
    {
      left := seq(ROWS, _ => 0);
      right := seq(ROWS, _ => 0);
    }

    /** `new_full`: every pixel on. */
    constructor NewFull()
      ensures Valid()
      ensures forall i | 0 <= i < ROWS :: left[i] == 0xFFFF_FFFF_FFFF_FFFF && right[i] == 0xFFFF_FFFF_FFFF_FFFF
      ensures forall i | 0 <= i < ROWS :: Row(i) == Ok(ALL_ONES)
    {
      left := seq(ROWS, _ => 0xFFFF_FFFF_FFFF_FFFF);
      right := seq(ROWS, _ => 0xFFFF_FFFF_FFFF_FFFF);
    }

    /** `new_from_halves`. */
    constructor NewFromHalves(l: seq<bv64>, r: seq<bv64>)
      requires |l| == ROWS && |r| == ROWS
      ensures Valid()
      ensures left == l && right == r
    {
      left := l;
      right := r;
    }

    /** `new_from_array`: each row split into its two words. Since the split
        loses the upper word, row `i` of the result reads back as the lower
        64 bits of `rows[i]`. */
    static method NewFromArray(rows: seq<bv128>) returns (m: DisplayArr)
      requires |rows| == ROWS
      ensures fresh(m) && m.Valid()
      ensures forall i | 0 <= i < ROWS :: (m.left[i], m.right[i]) == SplitU128(rows[i])
      ensures forall i | 0 <= i < ROWS :: m.Row(i) == Ok(LowWord(rows[i]))
    {
      var leftarr := new bv64[ROWS](_ => 0);
      var rightarr := new bv64[ROWS](_ => 0);
      var i := 0;
      while i < ROWS
        invariant i <= ROWS
        invariant forall j | 0 <= j < i :: (leftarr[j], rightarr[j]) == SplitU128(rows[j])
      {
        var halves := SplitU128(rows[i]);
        leftarr[i], rightarr[i] := halves.0, halves.1;
        i := i + 1;
      }
      m := new DisplayArr.NewFromHalves(leftarr[..], rightarr[..]);
      forall i | 0 <= i < ROWS
        ensures m.Row(i) == Ok(LowWord(rows[i]))
      {
        SplitThenCombine(rows[i]);
      }
    }

    /** `row_half`: one word of row `x`, the LOWER one when `y` holds. */
    function RowHalf(x: nat, y: bool): (r: Result<bv64>)
      reads this
      requires Valid()
      ensures r.Err? <==> x > LAST_ROW
      ensures r.Err? ==> r.error == RowErr(LAST_ROW, x)
      ensures r.Ok? ==> r.value == if y then right[x] else left[x]
    {
      if x <= 63 then Ok(if !y then left[x] else right[x])
      else Err(RowErr(63, x))
    }

    /** `row`: row `idx` as a `u128`, its upper word from `left`, its lower
        word from `right`. */
    function Row(idx: nat): (r: Result<bv128>)
      reads this
      requires Valid()
      ensures r.Err? <==> idx > LAST_ROW
      ensures r.Err? ==> r.error == RowErr(LAST_ROW, idx)
      ensures r.Ok? ==> r.value == CombineU128(left[idx], right[idx])
    {
      if idx <= 63 then Ok(CombineU128(left[idx], right[idx]))
      else Err(RowErr(63, idx))
    }

    /** The two halves read by `row_half` make up the row read by `row`. */
    lemma RowFromHalves(x: nat)
      requires Valid() && x <= LAST_ROW
      ensures Row(x) == Ok(CombineU128(RowHalf(x, false).value, RowHalf(x, true).value))
    {
    }

    /** `bit`: one pixel. The row is checked first; columns 0..63 are read
        from the upper word and 64..127 from the lower word, counted from the
        least significant bit of that word. A column past 127 is reported by
        `get_bit` with the column already reduced by 64. */
    function Bit(rowIdx: nat, columnIdx: nat): (r: Result<bool>)
      reads this
      requires Valid()
      ensures rowIdx > LAST_ROW ==> r == Err(RowErr(LAST_ROW, rowIdx))
      ensures rowIdx <= LAST_ROW && columnIdx > LAST_COLUMN ==> r == Err(ColumnErr(63, columnIdx - 64))
      ensures rowIdx <= LAST_ROW && columnIdx <= LAST_COLUMN ==>
        r == Ok(if columnIdx < 64 then Pixel(left[rowIdx], columnIdx) else Pixel(right[rowIdx], columnIdx - 64))
    {
      var (columnIdxAdj, half) := if columnIdx > 63 then (columnIdx - 64, true) else (columnIdx, false);
      match RowHalf(rowIdx, half)
      case Err(e) => Err(e)
      case Ok(rowVal) =>
        match GetBit(rowVal, columnIdxAdj)
        case Err(e) => Err(e)
        case Ok(b) => Ok(b != 0)
    }

    /** One arm of `column`: pixel `position` of every lane, lane `i` going
        to bit `i` of the result. */
    static method ColumnOf(lanes: seq<bv64>, position: nat) returns (output: bv64)
      requires |lanes| == ROWS && position < 64
      ensures forall i: bv64 | i < 64 :: PixelOn(output, i) == Pixel(lanes[i], position)
    {
      output := 0;
      var i: bv64 := 0;
      while i < 64
        invariant i <= 64
        invariant ColumnPrefix(output, lanes, position, i)
      {
        var b := GetBit(lanes[i], position);
        ColumnStep(output, lanes, position, i, b.value);
        output := PlaceBit(output, b.value, i);
        i := i + 1;
      }
    }

    /** `column`: pixel `idx` of every row as one word, row `i` in bit `i`;
        columns past 127 are a column error. Every bit agrees with `bit`. */
    method Column(idx: nat) returns (r: Result<bv64>)
      requires Valid()
      ensures r.Err? <==> idx > LAST_COLUMN
      ensures r.Err? ==> r.error == ColumnErr(LAST_COLUMN, idx)
      ensures r.Ok? ==> forall i: bv64 | i < 64 :: Bit(i as int, idx) == Ok(PixelOn(r.value, i))
    {
      if idx <= 63 {
        var output := ColumnOf(left, idx);
        r := Ok(output);
      } else if idx <= 127 {
        var output := ColumnOf(right, idx - 64);
        r := Ok(output);
      } else {
        r := Err(ColumnErr(127, idx));
      }
    }

    /** `set_row`: row `idx` becomes the split of `src`, so it reads back as
        the lower 64 bits of `src`; every other row is kept. An invalid index
        changes nothing. */
    method SetRow(idx: nat, src: bv128) returns (r: Result<()>)
      requires Valid()
      modifies this
      ensures Valid()
      ensures r.Err? <==> idx > LAST_ROW
      ensures r.Err? ==> r.error == RowErr(LAST_ROW, idx) && left == old(left) && right == old(right)
      ensures r.Ok? ==> left == old(left)[idx := SplitU128(src).0] && right == old(right)[idx := SplitU128(src).1]
      ensures r.Ok? ==> Row(idx) == Ok(LowWord(src))
    {
      if idx <= 63 {
        var halves := SplitU128(src);
        left, right := left[idx := halves.0], right[idx := halves.1];
        SplitThenCombine(src);
        r := Ok(());
      } else {
        r := Err(RowErr(63, idx));
      }
    }

    /** `oreq_row`: the split of `src` is or-ed into row `idx`, so the row
        gains the lower 64 bits of `src` and loses no pixel; every other row is
        kept. An invalid index changes nothing. */
    method OreqRow(idx: nat, src: bv128) returns (r: Result<()>)
      requires Valid()
      modifies this
      ensures Valid()
      ensures r.Err? <==> idx > LAST_ROW
      ensures r.Err? ==> r.error == RowErr(LAST_ROW, idx) && left == old(left) && right == old(right)
      ensures r.Ok? ==> left == OrLane(old(left), idx, SplitU128(src).0) && right == OrLane(old(right), idx, SplitU128(src).1)
      ensures left == old(left)
    {
      if idx <= 63 {
        var halves := SplitU128(src);
        OrLaneZero(left, idx);
        left := OrLane(left, idx, halves.0);
        right := OrLane(right, idx, halves.1);
        r := Ok(());
      } else {
        r := Err(RowErr(63, idx));
      }
    }

    /** `rotate_rows_down::<n>`: row `i` moves to row `i + n`, wrapping. */
    method RotateRowsDown(n: nat)
      requires Valid()
      modifies this
      ensures Valid()
      ensures left == RotateLanesRight(old(left), n) && right == RotateLanesRight(old(right), n)
    {
      left := RotateLanesRight(left, n);
      right := RotateLanesRight(right, n);
    }

    /** `rotate_rows_up::<n>`: row `i` moves to row `i - n`, wrapping. */
    method RotateRowsUp(n: nat)
      requires Valid()
      modifies this
      ensures Valid()
      ensures left == RotateLanesLeft(old(left), n) && right == RotateLanesLeft(old(right), n)
    {
      left := RotateLanesLeft(left, n);
      right := RotateLanesLeft(right, n);
    }

    /** `rotate_rows_right`: every row is read, rotated right by `idx` as a
        `u128` and written back with `set_row`; neither unwrap can fail. Since
        `set_row` keeps only the lower word, each row ends up as the lower 64
        bits of its rotation. */
    method RotateRowsRight(idx: bv32)
      requires Valid()
      modifies this
      ensures Valid()
      ensures forall i | 0 <= i < ROWS ::
        (left[i], right[i]) == SplitU128(RotateRight128(CombineU128(old(left[i]), old(right[i])), idx))
    {
      var i := 0;
      while i < ROWS
        invariant Valid() && i <= ROWS
        invariant forall j | 0 <= j < i ::
          (left[j], right[j]) == SplitU128(RotateRight128(CombineU128(old(left[j]), old(right[j])), idx))
        invariant forall j | i <= j < ROWS :: left[j] == old(left[j]) && right[j] == old(right[j])
      {
        RotateRightOne(i, idx);
        i := i + 1;
      }
    }

    /** One iteration of `rotate_rows_right`: row `i` read, rotated and written
        back; both unwraps succeed since `i` is a valid row. */
    method RotateRightOne(i: nat, idx: bv32)
      requires Valid() && i < ROWS
      modifies this
      ensures Valid()
      ensures left == old(left)[i := SplitU128(RotateRight128(CombineU128(old(left[i]), old(right[i])), idx)).0]
      ensures right == old(right)[i := SplitU128(RotateRight128(CombineU128(old(left[i]), old(right[i])), idx)).1]
    {
      var row := Row(i);
      var done := SetRow(i, RotateRight128(row.value, idx));
      assert done.Ok?;
    }

    /** `rotate_rows_left`: as `rotate_rows_right`, rotating left. */
    method RotateRowsLeft(idx: bv32)
      requires Valid()
      modifies this
      ensures Valid()
      ensures forall i | 0 <= i < ROWS ::
        (left[i], right[i]) == SplitU128(RotateLeft128(CombineU128(old(left[i]), old(right[i])), idx))
    {
      var i := 0;
      while i < ROWS
        invariant Valid() && i <= ROWS
        invariant forall j | 0 <= j < i ::
          (left[j], right[j]) == SplitU128(RotateLeft128(CombineU128(old(left[j]), old(right[j])), idx))
        invariant forall j | i <= j < ROWS :: left[j] == old(left[j]) && right[j] == old(right[j])
      {
        RotateLeftOne(i, idx);
        i := i + 1;
      }
    }

    /** One iteration of `rotate_rows_left`: row `i` read, rotated and written
        back; both unwraps succeed since `i` is a valid row. */
    method RotateLeftOne(i: nat, idx: bv32)
      requires Valid() && i < ROWS
      modifies this
      ensures Valid()
      ensures left == old(left)[i := SplitU128(RotateLeft128(CombineU128(old(left[i]), old(right[i])), idx)).0]
      ensures right == old(right)[i := SplitU128(RotateLeft128(CombineU128(old(left[i]), old(right[i])), idx)).1]
    {
      var row := Row(i);
      var done := SetRow(i, RotateLeft128(row.value, idx));
      assert done.Ok?;
    }
  }

  /** `word |= bit << i`. */
  function PlaceBit(word: bv64, bit: bv64, i: bv64): (placed: bv64)
    requires i < 64
    ensures bit == 0 ==> placed == word
  {
    word | (bit << i)
  }

  /** Or-ing bit `b` in at position `i` sets pixel `i` when `b` is 1 and
      leaves every other pixel as it was. */
  lemma OrBitAt(out: bv64, b: bv64, i: bv64, j: bv64)
    requires b <= 1 && i < 64 && j < 64
    ensures PixelOn(PlaceBit(out, b, i), j) == (PixelOn(out, j) || (j == i && b == 1))
  {
    OrShiftedBitAt(out, b, i, j);
  }

  lemma OrShiftedBitAt(out: bv64, b: bv64, i: bv64, j: bv64)
    requires b <= 1 && i < 64 && j < 64
    ensures (out | (b << i)) & (1 << j) != 0 <==> (out & (1 << j) != 0 || (j == i && b == 1))
  {
  }

  /** Bit `j` of `output` holds pixel `position` of lane `j` for the lanes
      below `n`, and is off for the others. */
  ghost predicate ColumnPrefix(output: bv64, lanes: seq<bv64>, position: nat, n: bv64)
    requires |lanes| == ROWS && position < 64
  {
    forall j: bv64 | j < 64 :: PixelOn(output, j) == (j < n && Pixel(lanes[j], position))
  }

  /** One step of a column read, for one pixel `j` of the column: `b` is
      pixel `position` of lane `i`. */
  lemma ColumnStepAt(output: bv64, lanes: seq<bv64>, position: nat, i: bv64, b: bv64, j: bv64)
    requires |lanes| == ROWS && position < 64 && i < 64 && j < 64
    requires b <= 1 && (b == 1 <==> Pixel(lanes[i], position))
    requires PixelOn(output, j) == (j < i && Pixel(lanes[j], position))
    ensures PixelOn(PlaceBit(output, b, i), j) == (j < i + 1 && Pixel(lanes[j], position))
  {
    OrBitAt(output, b, i, j);
  }

  /** One step of a column read: placing pixel `position` of lane `i` at bit
      `i` extends a column built from lanes below `i` to lanes below `i + 1`. */
  lemma ColumnStep(output: bv64, lanes: seq<bv64>, position: nat, i: bv64, b: bv64)
    requires |lanes| == ROWS && position < 64 && i < 64
    requires b <= 1 && (b == 1 <==> Pixel(lanes[i], position))
    requires ColumnPrefix(output, lanes, position, i)
    ensures ColumnPrefix(PlaceBit(output, b, i), lanes, position, i + 1)
  {
    forall j: bv64 | j < 64
      ensures PixelOn(PlaceBit(output, b, i), j) == (j < i + 1 && Pixel(lanes[j], position))
    {
      ColumnStepAt(output, lanes, position, i, b, j);
    }
  }
}
