// The sizing part of paintCode: rows, columns, error level and padding.

module SymbolSize {
  import opened Pdf417
  import opened Radix

  datatype Options = Options(
    fixedRectangle: bool, fixedColumns: bool, fixedRows: bool,
    useErrorLevel: bool, rawCodewords: bool)

  // 2 << level
  function ErrorSize(level: nat): (n: nat)
    ensures n >= 2
  {
    if level == 0 then 2 else 2 * ErrorSize(level - 1)
  }

  lemma {:induction false} ErrorSizeMonotone(i: nat, j: nat)
    requires i <= j
    ensures ErrorSize(i) <= ErrorSize(j)
    decreases j
  {
    if i < j { ErrorSizeMonotone(i, j - 1); }
  }

  // The highest level, up to `level`, whose codewords fit in what remains.
  function MaxLevel(remain: int, level: nat): nat {
    if level == 0 || remain >= ErrorSize(level) then level else MaxLevel(remain, level - 1)
  }

  lemma {:induction false} MaxLevelIsMax(remain: int, level: nat)
    ensures var m := MaxLevel(remain, level);
            && m <= level
            && (remain >= 2 ==> ErrorSize(m) <= remain)
            && (forall l: nat :: m < l <= level ==> remain < ErrorSize(l))
    decreases level
  {
    if level > 0 && remain < ErrorSize(level) { MaxLevelIsMax(remain, level - 1); }
  }

  method MaxPossibleErrorLevel(remain: int) returns (level: nat)
    ensures level == MaxLevel(remain, 8)
  {
    level := 8;
    var size := 512;
    ErrorSizeOf8();
    while level > 0
      invariant level <= 8 && size == ErrorSize(level)
      invariant MaxLevel(remain, level) == MaxLevel(remain, 8)
    {
      if remain >= size {
        return level;
      }
      level := level - 1;
      size := size / 2;
    }
  }

  lemma ErrorSizeOf8()
    ensures ErrorSize(8) == 512
  {
    assert ErrorSize(2) == 8;
    assert ErrorSize(4) == 32;
    assert ErrorSize(6) == 128;
  }

  function Clamp(x: int, lo: int, hi: int): int {
    if x < lo then lo else if x > hi then hi else x
  }

  // The level asked for, or the one recommended for the message length, as
  // far as the largest symbol has room for it.
  function WantedLevel(length: int, options: Options, errorLevel: int): nat {
    Clamp(if options.useErrorLevel then errorLevel
          else if length < 41 then 2 else if length < 161 then 3 else if length < 321 then 4 else 5,
          0, MaxLevel(MAX_DATA_CODEWORDS + 2 - length, 8))
  }

  lemma WantedFits(length: int, options: Options, errorLevel: int)
    requires length <= MAX_DATA_CODEWORDS
    ensures var w := WantedLevel(length, options, errorLevel);
            w <= 8 && length + ErrorSize(w) <= CODEWORDS_LENGTH
  {
    var remain := MAX_DATA_CODEWORDS + 2 - length;
    MaxLevelIsMax(remain, 8);
    ErrorSizeMonotone(WantedLevel(length, options, errorLevel), MaxLevel(remain, 8));
  }

  lemma CeilingDivision(n: int, d: int)
    requires n > 0 && d > 0
    ensures var q := (n - 1) / d + 1; q >= 1 && (q - 1) * d < n <= q * d
  {
    var q := (n - 1) / d;
    assert n - 1 == q * d + (n - 1) % d;
    assert q >= 0;
  }

  // Rows and columns of the largest symbols, by the columns in hand.
  function MaxSquare(codeColumns: int): (int, int) {
    if codeColumns > 21 then (32, 29) else (58, 16)
  }

  // The least n from `least` on for which n lines of `width` hold tot.
  predicate IsLeast(tot: int, width: int, least: int, n: int) {
    n >= least && tot <= n * width && (n > least ==> (n - 1) * width < tot)
  }

  // As few rows as will do for the columns given; with 90 rows still too few,
  // 90 rows and as few columns as will do.
  predicate ByColumns(tot: int, columns: int, codeRows: int, codeColumns: int) {
    if tot <= 90 * columns then codeColumns == columns && codeRows <= 90 && IsLeast(tot, columns, 3, codeRows)
    else codeRows == 90 && IsLeast(tot, 90, 1, codeColumns)
  }

  // As few columns as will do for the rows given; with 30 columns still too
  // few, 30 columns and as few rows as will do.
  predicate ByRows(tot: int, rows: int, codeRows: int, codeColumns: int) {
    if tot <= 30 * rows then codeRows == rows && codeColumns <= 30 && IsLeast(tot, rows, 1, codeColumns)
    else codeColumns == 30 && IsLeast(tot, 30, 1, codeRows)
  }

  lemma QuotientAtMost(q: int, d: int, tot: int, limit: int)
    requires q >= 1 && (q - 1) * d < tot <= q * d && d > 0
    ensures q <= limit <==> tot <= limit * d
  {
    if q <= limit { MulMonotone(q, limit, d); } else if limit >= 0 { MulMonotone(limit, q - 1, d); }
  }

  method FitColumns(tot: int, columns: int) returns (codeRows: int, codeColumns: int)
    requires 0 < tot <= CODEWORDS_LENGTH && 1 <= columns <= 30
    ensures ByColumns(tot, columns, codeRows, codeColumns)
    ensures 3 <= codeRows <= 90 && 1 <= codeColumns <= 30 && tot <= codeRows * codeColumns
  {
    codeColumns := columns;
    CeilingDivision(tot, columns);
    codeRows := (tot - 1) / codeColumns + 1;
    QuotientAtMost(codeRows, columns, tot, 90);
    if codeRows < 3 {
      MulMonotone(codeRows, 3, columns);
      codeRows := 3;
    } else if codeRows > 90 {
      CeilingDivision(tot, 90);
      codeRows := 90;
      codeColumns := (tot - 1) / 90 + 1;
    }
  }

  method FitRows(tot: int, rows: int) returns (codeRows: int, codeColumns: int)
    requires 0 < tot <= CODEWORDS_LENGTH && 3 <= rows <= 90
    ensures ByRows(tot, rows, codeRows, codeColumns)
    ensures 3 <= codeRows <= 90 && 1 <= codeColumns <= 30 && tot <= codeRows * codeColumns
  {
    codeRows := rows;
    CeilingDivision(tot, rows);
    codeColumns := (tot - 1) / codeRows + 1;
    QuotientAtMost(codeColumns, rows, tot, 30);
    if codeColumns > 30 {
      CeilingDivision(tot, 30);
      codeColumns := 30;
      codeRows := (tot - 1) / 30 + 1;
    }
  }

  // What the options make of the rows and columns asked for and the estimate.
  predicate IsArranged(needed: int, options: Options, rows: int, columns: int, estimate: int, codeRows: int,
      codeColumns: int) {
    if options.fixedRectangle && columns * rows > CODEWORDS_LENGTH then (codeRows, codeColumns) == MaxSquare(columns)
    else if options.fixedRectangle && needed <= columns * rows then codeRows == rows && codeColumns == columns
    else if options.fixedRows then ByRows(needed, rows, codeRows, codeColumns)
    else if options.fixedRectangle || options.fixedColumns then ByColumns(needed, columns, codeRows, codeColumns)
    else ByColumns(needed, Clamp(estimate, 1, 30), codeRows, codeColumns)
  }

  // The symbol before the final check that it is not too large.
  method Arrange(needed: int, options: Options, rows: int, columns: int, estimate: int)
    returns (codeRows: int, codeColumns: int)
    requires 0 < needed <= CODEWORDS_LENGTH && 3 <= rows <= 90 && 1 <= columns <= 30
    ensures 3 <= codeRows <= 90 && 1 <= codeColumns <= 30 && needed <= codeRows * codeColumns
    ensures IsArranged(needed, options, rows, columns, estimate, codeRows, codeColumns)
  {
    hide ByRows, ByColumns, Clamp;
    codeRows, codeColumns := rows, columns;
    var fixedColumn := !options.fixedRows;
    if options.fixedRectangle {
      var tot := codeColumns * codeRows;
      if tot > MAX_DATA_CODEWORDS + 2 {
        var square := MaxSquare(codeColumns);
        return square.0, square.1;
      }
      if tot >= needed {
        return;
      }
    } else if !options.fixedColumns && !options.fixedRows {
      fixedColumn := true;
      ClampBounds(estimate, 1, 30);
      codeColumns := Clamp(estimate, 1, 30);
    }
    if fixedColumn {
      codeRows, codeColumns := FitColumns(needed, codeColumns);
    } else {
      codeRows, codeColumns := FitRows(needed, codeRows);
    }
  }

  lemma ClampBounds(x: int, lo: int, hi: int)
    requires lo <= hi
    ensures lo <= Clamp(x, lo, hi) <= hi
  {}

  // The symbol is the one arranged, or one of the two largest if that has
  // more than 928 places.
  ghost predicate IsSized(needed: int, options: Options, rows: int, columns: int, estimate: int, codeRows: int,
      codeColumns: int) {
    exists r: int, c: int :: IsArranged(needed, options, rows, columns, estimate, r, c)
      && (codeRows, codeColumns) == if r * c > CODEWORDS_LENGTH then MaxSquare(c) else (r, c)
  }

  // ----- The same in plain numbers -----

  lemma Sizes()
    ensures ErrorSize(0) == 2 && ErrorSize(1) == 4 && ErrorSize(2) == 8 && ErrorSize(3) == 16 && ErrorSize(4) == 32
    ensures ErrorSize(5) == 64 && ErrorSize(6) == 128 && ErrorSize(7) == 256 && ErrorSize(8) == 512
  {
    assert ErrorSize(1) == 2 * ErrorSize(0);
    assert ErrorSize(2) == 2 * ErrorSize(1);
    assert ErrorSize(3) == 2 * ErrorSize(2);
    assert ErrorSize(4) == 2 * ErrorSize(3);
    assert ErrorSize(5) == 2 * ErrorSize(4);
    assert ErrorSize(6) == 2 * ErrorSize(5);
    assert ErrorSize(7) == 2 * ErrorSize(6);
    assert ErrorSize(8) == 2 * ErrorSize(7);
  }

  // Without a level asked for: 2, 3, 4 or 5 by length, as far as the level's
  // check codewords fit in 928 places.
  lemma RecommendedLevel(length: int, options: Options, level: int)
    requires !options.useErrorLevel && 1 <= length <= 926
    ensures WantedLevel(length, options, level)
            == if length <= 40 then 2 else if length <= 160 then 3 else if length <= 320 then 4
               else if length <= 864 then 5 else if length <= 896 then 4 else if length <= 912 then 3
               else if length <= 920 then 2 else if length <= 924 then 1 else 0
  {
    hide ErrorSize, MaxLevel;
    Sizes();
    MaxLevelIsMax(928 - length, 8);
  }

  // The check codewords that go with it.
  lemma RecommendedPlaces(length: int, options: Options, level: int)
    requires !options.useErrorLevel && 1 <= length <= 864
    ensures ErrorSize(WantedLevel(length, options, level))
            == if length <= 40 then 8 else if length <= 160 then 16 else if length <= 320 then 32 else 64
  {
    hide ErrorSize, WantedLevel;
    Sizes();
    RecommendedLevel(length, options, level);
  }

  // A level asked for is used when its check codewords fit, else the highest
  // one that fits; below 0 it is 0.
  lemma RequestedLevel(length: int, options: Options, level: int)
    requires options.useErrorLevel && 1 <= length <= 926
    ensures var w := WantedLevel(length, options, level);
            && (level < 0 ==> w == 0)
            && (0 <= level <= 8 && length + ErrorSize(level) <= 928 ==> w == level)
            && (level > 8 || (level >= 0 && length + ErrorSize(level) > 928)
                ==> w < level && length + ErrorSize(w) <= 928 && (w < 8 ==> length + ErrorSize(w + 1) > 928))
  {
    hide ErrorSize, MaxLevel;
    Sizes();
    MaxLevelIsMax(928 - length, 8);
    if 0 <= level <= 8 && level < MaxLevel(928 - length, 8) {
      ErrorSizeMonotone(level, MaxLevel(928 - length, 8));
    }
    if 0 <= level <= 8 && level > MaxLevel(928 - length, 8) {
      ErrorSizeMonotone(MaxLevel(928 - length, 8) + 1, level);
    }
  }

  lemma ClampIs(x: int, lo: int, hi: int)
    requires lo <= hi
    ensures lo <= Clamp(x, lo, hi) <= hi && (lo <= x <= hi ==> Clamp(x, lo, hi) == x)
    ensures (x < lo ==> Clamp(x, lo, hi) == lo) && (x > hi ==> Clamp(x, lo, hi) == hi)
  {}

  // The number of lines of `width` places that hold n.
  function Ceiling(n: int, width: int): int
    requires width > 0
  {
    (n + width - 1) / width
  }

  lemma LeastIsCeiling(n: int, width: int, least: int, k: int)
    requires n > 0 && width > 0 && least >= 1 && IsLeast(n, width, least, k)
    ensures k == if Ceiling(n, width) < least then least else Ceiling(n, width)
  {
    var q := Ceiling(n, width);
    assert n + width - 1 == q * width + (n + width - 1) % width;
    assert (q - 1) * width == q * width - width;
    if q < k {
      MulMonotone(q, k - 1, width);
    } else if k < q {
      MulMonotone(k, q - 1, width);
    }
  }

  // The places there are: if they come to more than 928, one of two symbols
  // of exactly 928 takes their place.
  function AtMost928(rows: int, columns: int): (int, int) {
    if rows * columns <= 928 then (rows, columns) else if columns > 21 then (32, 29) else (58, 16)
  }

  // With the columns given, or estimated when nothing is fixed.
  lemma SizeByColumns(needed: int, options: Options, rows: int, columns: int, estimate: int, codeRows: int,
      codeColumns: int)
    requires IsSized(needed, options, rows, columns, estimate, codeRows, codeColumns)
    requires 0 < needed <= 928 && 1 <= columns <= 30
    requires !options.fixedRows && (options.fixedRectangle ==> columns * rows <= 928 && columns * rows < needed)
    ensures var c := if options.fixedRectangle || options.fixedColumns then columns
                     else if estimate < 1 then 1 else if estimate > 30 then 30 else estimate;
            (codeRows, codeColumns)
            == if needed <= 90 * c then AtMost928(if Ceiling(needed, c) < 3 then 3 else Ceiling(needed, c), c)
               else AtMost928(90, Ceiling(needed, 90))
  {
    hide Ceiling, IsLeast;
    var r: int, c: int :| IsArranged(needed, options, rows, columns, estimate, r, c)
      && (codeRows, codeColumns) == if r * c > CODEWORDS_LENGTH then MaxSquare(c) else (r, c);
    var d := if options.fixedRectangle || options.fixedColumns then columns else Clamp(estimate, 1, 30);
    if needed <= 90 * d { LeastIsCeiling(needed, d, 3, r); }
       else { LeastIsCeiling(needed, 90, 1, c); AtLeastOne(needed, 90); }
  }

  lemma AtLeastOne(n: int, width: int)
    requires n > 0 && width > 0
    ensures Ceiling(n, width) >= 1
  {
    var q := Ceiling(n, width);
    assert n + width - 1 == q * width + (n + width - 1) % width;
    if q < 1 { MulMonotone(q, 0, width); }
  }

  // With the rows given.
  lemma SizeByRows(needed: int, options: Options, rows: int, columns: int, estimate: int, codeRows: int,
      codeColumns: int)
    requires IsSized(needed, options, rows, columns, estimate, codeRows, codeColumns)
    requires 0 < needed <= 928 && 3 <= rows <= 90
    requires options.fixedRows && (options.fixedRectangle ==> columns * rows <= 928 && columns * rows < needed)
    ensures (codeRows, codeColumns)
            == if needed <= 30 * rows then AtMost928(rows, Ceiling(needed, rows))
               else AtMost928(Ceiling(needed, 30), 30)
  {
    hide Ceiling, IsLeast;
    var r: int, c: int :| IsArranged(needed, options, rows, columns, estimate, r, c)
      && (codeRows, codeColumns) == if r * c > CODEWORDS_LENGTH then MaxSquare(c) else (r, c);
    AtLeastOne(needed, rows);
    AtLeastOne(needed, 30);
    if needed <= 30 * rows { LeastIsCeiling(needed, rows, 1, c); } else { LeastIsCeiling(needed, 30, 1, r); }
  }

  // With a rectangle given that is too large, or large enough.
  lemma SizeOfRectangle(needed: int, options: Options, rows: int, columns: int, estimate: int, codeRows: int,
      codeColumns: int)
    requires IsSized(needed, options, rows, columns, estimate, codeRows, codeColumns)
    requires options.fixedRectangle && (columns * rows > 928 || columns * rows >= needed)
    ensures (codeRows, codeColumns) == AtMost928(rows, columns)
  {
    assert columns * rows == rows * columns;
  }

  // From the message length and the caller's wishes to the symbol. `estimate`
  // is the column count the aspect-ratio formula yields, whatever it is.
  method ChooseSize(length: int, options: Options, rows: int, columns: int, level: int, estimate: int)
    returns (codeRows: int, codeColumns: int, errorLevel: nat, pad: nat)
    requires 1 <= length <= MAX_DATA_CODEWORDS
    ensures 3 <= codeRows <= 90 && 1 <= codeColumns <= 30 && errorLevel <= 8
    // data, padding and error codewords fill the symbol, and fit its array
    ensures length + pad + ErrorSize(errorLevel) == codeRows * codeColumns <= 928
    // no higher level would fit, and none lower than wanted is used
    ensures forall l: nat :: errorLevel < l <= 8 ==> pad + ErrorSize(errorLevel) < ErrorSize(l)
    ensures WantedLevel(length, options, level) <= errorLevel
    ensures !options.useErrorLevel ==>
              errorLevel >= if length <= 40 then 2 else if length <= 160 then 3 else if length <= 320 then 4
                            else if length <= 864 then 5 else if length <= 896 then 4 else if length <= 912 then 3
                            else if length <= 920 then 2 else if length <= 924 then 1 else 0
    ensures options.useErrorLevel && 0 <= level <= 8 && length + ErrorSize(level) <= 928 ==> errorLevel >= level
    // rows and columns are those asked for, or the fewest that will do
    ensures !options.useErrorLevel && length <= 864 ==>
              IsSized(length + if length <= 40 then 8 else if length <= 160 then 16 else if length <= 320 then 32
                  else 64,
                      options, Clamp(rows, 3, 90), Clamp(columns, 1, 30), estimate, codeRows, codeColumns)
    ensures IsSized(length + ErrorSize(WantedLevel(length, options, level)), options,
                    Clamp(rows, 3, 90), Clamp(columns, 1, 30), estimate, codeRows, codeColumns)
  {
    hide MaxLevel, ErrorSize, IsArranged;
    WantedFits(length, options, level);
    if options.useErrorLevel {
      RequestedLevel(length, options, level);
    } else {
      RecommendedLevel(length, options, level);
      if length <= 864 { RecommendedPlaces(length, options, level); }
    }
    var max := MaxPossibleErrorLevel(MAX_DATA_CODEWORDS + 2 - length);
    errorLevel := Clamp(
      if options.useErrorLevel then level
      else if length < 41 then 2 else if length < 161 then 3 else if length < 321 then 4 else 5,
      0, max);
    assert errorLevel == WantedLevel(length, options, level);
    var wanted := errorLevel;
    codeRows, codeColumns := Arrange(length + ErrorSize(errorLevel), options,
                                     Clamp(rows, 3, 90), Clamp(columns, 1, 30), estimate);
    ghost var r, c := codeRows, codeColumns;
    assert IsArranged(length + ErrorSize(errorLevel), options, Clamp(rows, 3, 90), Clamp(columns, 1, 30),
                      estimate, r, c);
    var tot := codeRows * codeColumns;
    if tot > MAX_DATA_CODEWORDS + 2 {
      var square := MaxSquare(codeColumns);
      codeRows, codeColumns := square.0, square.1;
      tot := MAX_DATA_CODEWORDS + 2;
    }
    MaxLevelIsMax(tot - length, 8);
    errorLevel := MaxPossibleErrorLevel(tot - length);
    if errorLevel < wanted {
      assert false;
    }
    pad := tot - ErrorSize(errorLevel) - length;
  }
}
