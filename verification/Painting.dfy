// outPaintCode: the symbol's rows, and the reader that gets the codewords and
// the symbol's parameters back from the bits.

module Painting {
  import opened Octets
  import opened Radix
  import opened RowBits

  // Three clusters of 929 patterns, each 17 bits.
  ghost predicate IsTable(table: seq<seq<nat>>) {
    && |table| == 3
    && forall k :: 0 <= k < 3 ==> IsCluster(table[k])
  }

  ghost predicate IsCluster(cluster: seq<nat>) {
    |cluster| == 929 && forall i :: 0 <= i < 929 ==> cluster[i] < 131072
  }

  datatype Symbol = Symbol(rows: nat, columns: nat, errorLevel: nat) {
    predicate Legal() {
      3 <= rows <= 90 && 1 <= columns <= 30 && errorLevel <= 8
    }

    function BitColumns(): nat {
      START_CODE_SIZE * (columns + 3) + STOP_SIZE
    }

    // Bytes of one row.
    function RowBytes(): nat {
      (BitColumns() - 1) / 8 + 1
    }
  }

  // ----- Row indicators -----

  function RowsPart(s: Symbol): nat
    requires s.Legal()
  {
    (s.rows - 1) / 3
  }

  function LevelPart(s: Symbol): nat
    requires s.Legal()
  {
    s.errorLevel * 3 + (s.rows - 1) % 3
  }

  function ColumnsPart(s: Symbol): nat
    requires s.Legal()
  {
    s.columns - 1
  }

  function LeftIndicator(s: Symbol, row: nat): (i: nat)
    requires s.Legal() && row < s.rows
    ensures i < 929 && i / 30 == row / 3
  {
    30 * (row / 3) + if row % 3 == 0 then RowsPart(s) else if row % 3 == 1 then LevelPart(s) else ColumnsPart(s)
  }

  function RightIndicator(s: Symbol, row: nat): (i: nat)
    requires s.Legal() && row < s.rows
    ensures i < 929 && i / 30 == row / 3
  {
    30 * (row / 3) + if row % 3 == 0 then ColumnsPart(s) else if row % 3 == 1 then RowsPart(s) else LevelPart(s)
  }

  // The parameters a reader takes from the indicators of a row of each cluster
  // (section 5.11.3 of ISO/IEC 15438:2006).
  function SymbolOf(rowsPart: nat, levelPart: nat, columnsPart: nat): Symbol {
    Symbol(3 * (rowsPart % 30) + levelPart % 30 % 3 + 1, columnsPart % 30 + 1, levelPart % 30 / 3)
  }

  // Any three consecutive rows tell all, from either side alone.
  lemma IndicatorsTellSymbol(s: Symbol, row: nat)
    requires s.Legal() && row + 2 < s.rows
    ensures var a := if row % 3 == 0 then row else if row % 3 == 1 then row + 2 else row + 1;
            var b := if row % 3 == 0 then row + 1 else if row % 3 == 1 then row else row + 2;
            var c := if row % 3 == 0 then row + 2 else if row % 3 == 1 then row + 1 else row;
            && SymbolOf(LeftIndicator(s, a), LeftIndicator(s, b), LeftIndicator(s, c)) == s
            && SymbolOf(RightIndicator(s, b), RightIndicator(s, c), RightIndicator(s, a)) == s
  {
    hide LeftIndicator, RightIndicator, RowsPart, LevelPart, ColumnsPart, SymbolOf;
    IndicatorParts(s, row);
    IndicatorParts(s, row + 1);
    IndicatorParts(s, row + 2);
    var a := if row % 3 == 0 then row else if row % 3 == 1 then row + 2 else row + 1;
    var b := if row % 3 == 0 then row + 1 else if row % 3 == 1 then row else row + 2;
    var c := if row % 3 == 0 then row + 2 else if row % 3 == 1 then row + 1 else row;
    assert a % 3 == 0 && b % 3 == 1 && c % 3 == 2;
    PartsMakeSymbol(s, LeftIndicator(s, a), LeftIndicator(s, b), LeftIndicator(s, c));
    PartsMakeSymbol(s, RightIndicator(s, b), RightIndicator(s, c), RightIndicator(s, a));
  }

  lemma PartsMakeSymbol(s: Symbol, x: nat, y: nat, z: nat)
    requires s.Legal() && x % 30 == RowsPart(s) && y % 30 == LevelPart(s) && z % 30 == ColumnsPart(s)
    ensures SymbolOf(x, y, z) == s
  {
    PartsFit(s);
    hide RowsPart, LevelPart, ColumnsPart;
  }

  lemma IndicatorParts(s: Symbol, row: nat)
    requires s.Legal() && row < s.rows
    ensures LeftIndicator(s, row) % 30
            == if row % 3 == 0 then RowsPart(s) else if row % 3 == 1 then LevelPart(s) else ColumnsPart(s)
    ensures RightIndicator(s, row) % 30
            == if row % 3 == 0 then ColumnsPart(s) else if row % 3 == 1 then RowsPart(s) else LevelPart(s)
  {
    PartsFit(s);
    hide RowsPart, LevelPart, ColumnsPart;
    var l := if row % 3 == 0 then RowsPart(s) else if row % 3 == 1 then LevelPart(s) else ColumnsPart(s);
    var r := if row % 3 == 0 then ColumnsPart(s) else if row % 3 == 1 then RowsPart(s) else LevelPart(s);
    DivModOfSum(row / 3, 30, l);
    DivModOfSum(row / 3, 30, r);
  }

  lemma PartsFit(s: Symbol)
    requires s.Legal()
    ensures RowsPart(s) < 30 && LevelPart(s) < 30 && ColumnsPart(s) < 30
    ensures Symbol(3 * RowsPart(s) + LevelPart(s) % 3 + 1, ColumnsPart(s) + 1, LevelPart(s) / 3) == s
  {
    DivModOfSum(s.errorLevel, 3, (s.rows - 1) % 3);
    DivMod(s.rows - 1, 3);
  }

  // ----- The bits of a symbol -----

  // Words of 17 bits, one after the other.
  function Words(ws: seq<nat>): (b: seq<int>)
    ensures |b| == 17 * |ws|
    decreases |ws|
  {
    if ws == [] then [] else Words(ws[..|ws| - 1]) + Digits(2, ws[|ws| - 1], 17)
  }

  ghost predicate IsData(s: Symbol, data: seq<int>) {
    |data| == s.rows * s.columns && forall i :: 0 <= i < |data| ==> 0 <= data[i] < 929
  }

  lemma InRow(s: Symbol, row: nat)
    requires row < s.rows
    ensures 0 <= row * s.columns <= (row + 1) * s.columns <= s.rows * s.columns
    ensures (row + 1) * s.columns == row * s.columns + s.columns
  {
    MulMonotone(row + 1, s.rows, s.columns);
    MulMonotone(0, row, s.columns);
  }

  // The first n data patterns of a row.
  ghost function DataWords(table: seq<seq<nat>>, s: Symbol, data: seq<int>, row: nat, n: nat): (w: seq<nat>)
    requires IsTable(table) && s.Legal() && IsData(s, data) && row < s.rows && n <= s.columns
    ensures |w| == n
  {
    InRow(s, row);
    seq(n, c requires 0 <= c < n => DataWord(table, s, data, row, c))
  }

  ghost function DataWord(table: seq<seq<nat>>, s: Symbol, data: seq<int>, row: nat, c: nat): nat
    requires IsTable(table) && s.Legal() && IsData(s, data) && row < s.rows && c < s.columns
  {
    InRow(s, row);
    table[row % 3][data[row * s.columns + c]]
  }

  ghost function RowWords(table: seq<seq<nat>>, s: Symbol, data: seq<int>, row: nat): (w: seq<nat>)
    requires IsTable(table) && s.Legal() && IsData(s, data) && row < s.rows
    ensures |w| == s.columns + 3
  {
    [START_PATTERN, table[row % 3][LeftIndicator(s, row)]]
    + DataWords(table, s, data, row, s.columns)
    + [table[row % 3][RightIndicator(s, row)]]
  }

  function Padding(s: Symbol): (n: nat)
    ensures n < 8 && s.BitColumns() + n == 8 * s.RowBytes()
  {
    8 * s.RowBytes() - s.BitColumns()
  }

  // Start pattern, left indicator, data, right indicator, stop pattern, and
  // zeros to the end of the last byte.
  ghost function RowOf(table: seq<seq<nat>>, s: Symbol, data: seq<int>, row: nat): (b: seq<int>)
    requires IsTable(table) && s.Legal() && IsData(s, data) && row < s.rows
    ensures |b| == 8 * s.RowBytes()
  {
    Words(RowWords(table, s, data, row)) + Digits(2, STOP_PATTERN, 18) + Zeros(Padding(s))
  }

  ghost function RowsOf(table: seq<seq<nat>>, s: Symbol, data: seq<int>, n: nat): (b: seq<int>)
    requires IsTable(table) && s.Legal() && IsData(s, data) && n <= s.rows
    ensures |b| == n * (8 * s.RowBytes())
  {
    if n == 0 then [] else
      MulStep(n, 8 * s.RowBytes());
      RowsOf(table, s, data, n - 1) + RowOf(table, s, data, n - 1)
  }

  // ----- Reading the symbol -----

  // The index of a pattern in a cluster, or 929.
  function Lookup(cluster: seq<nat>, pattern: int): (i: nat)
    ensures i <= |cluster| && (i < |cluster| ==> cluster[i] == pattern)
    ensures i == |cluster| ==> forall j :: 0 <= j < |cluster| ==> cluster[j] != pattern
  {
    if cluster == [] then 0
    else if cluster[0] == pattern then 0
    else 1 + Lookup(cluster[1..], pattern)
  }

  ghost predicate Distinct(cluster: seq<nat>) {
    forall i, j :: 0 <= i < j < |cluster| ==> cluster[i] != cluster[j]
  }

  // The word at place p of a row: 1 is the left indicator, 2 and on the data,
  // columns + 2 the right indicator.
  function ReadWord(table: seq<seq<nat>>, bits: seq<int>, rowBytes: nat, row: nat, p: nat): nat
    requires |table| == 3
  {
    var a := row * (8 * rowBytes) + 17 * p;
    if a < 0 || a + 17 > |bits| then 929 else Lookup(table[row % 3], Value(2, bits[a..a + 17]))
  }

  lemma {:induction false} RowSlice(table: seq<seq<nat>>, s: Symbol, data: seq<int>, n: nat, row: nat)
    requires IsTable(table) && s.Legal() && IsData(s, data) && row < n <= s.rows
    ensures var w := 8 * s.RowBytes();
            && 0 <= row * w && row * w + w <= |RowsOf(table, s, data, n)|
            && RowsOf(table, s, data, n)[row * w..row * w + w] == RowOf(table, s, data, row)
    decreases n
  {
    hide RowOf, IsTable, IsData;
    var w := 8 * s.RowBytes();
    MulMonotone(0, row, w);
    MulStep(n, w);
    if row < n - 1 {
      RowSlice(table, s, data, n - 1, row);
    }
  }

  lemma {:induction false} WordSlice(ws: seq<nat>, p: nat)
    requires p < |ws|
    ensures Words(ws)[17 * p..17 * p + 17] == Digits(2, ws[p], 17)
    decreases |ws|
  {
    hide Digits;
    if p < |ws| - 1 {
      WordSlice(ws[..|ws| - 1], p);
    }
  }

  lemma SliceOfSlice(s: seq<int>, a: nat, w: nat, i: nat, n: nat)
    requires a + w <= |s| && i + n <= w
    ensures s[a..a + w][i..i + n] == s[a + i..a + i + n]
  {
    var t, u := s[a..a + w][i..i + n], s[a + i..a + i + n];
    forall j | 0 <= j < n ensures t[j] == u[j] {}
  }

  // Any word of any row is read back as the index it was written for.
  lemma WordReadsBack(table: seq<seq<nat>>, s: Symbol, data: seq<int>, row: nat, p: nat, index: nat)
    requires IsTable(table) && Distinct(table[row % 3]) && s.Legal() && IsData(s, data) && row < s.rows
    requires p < s.columns + 3 && index < 929
    requires RowWords(table, s, data, row)[p] == table[row % 3][index]
    ensures ReadWord(table, RowsOf(table, s, data, s.rows), s.RowBytes(), row, p) == index
  {
    hide RowWords, RowsOf, Digits, Value, Pow, IsData;
    var w, bits := 8 * s.RowBytes(), RowsOf(table, s, data, s.rows);
    var a := row * w;
    var r := RowOf(table, s, data, row);
    RowSlice(table, s, data, s.rows, row);
    var ws := RowWords(table, s, data, row);
    WordSlice(ws, p);
    assert r[17 * p..17 * p + 17] == Words(ws)[17 * p..17 * p + 17];
    assert 17 * p + 17 <= w;
    SliceOfSlice(bits, a, w, 17 * p, 17);
    assert ws[p] < Pow(2, 17) by { Pow2Values(); }
    ValueOfDigits(2, ws[p], 17);
  }

  // What a reader makes of the bits alone: the symbol's parameters from the
  // left indicators of the first three rows, then every data codeword.
  function ReadParameters(table: seq<seq<nat>>, bits: seq<int>, rowBytes: nat): Symbol
    requires |table| == 3
  {
    SymbolOf(ReadWord(table, bits, rowBytes, 0, 1), ReadWord(table, bits, rowBytes, 1, 1),
        ReadWord(table, bits, rowBytes, 2, 1))
  }

  function ReadData(table: seq<seq<nat>>, bits: seq<int>, rowBytes: nat): seq<int>
    requires |table| == 3
  {
    var s := ReadParameters(table, bits, rowBytes);
    NonNegative(s.rows, s.columns);
    seq(s.rows * s.columns, i requires 0 <= i && s.columns > 0 => CodewordAt(table, bits, rowBytes, s.columns, i))
  }

  function CodewordAt(table: seq<seq<nat>>, bits: seq<int>, rowBytes: nat, columns: nat, i: nat): nat
    requires |table| == 3 && columns > 0
  {
    DivMod(i, columns);
    ReadWord(table, bits, rowBytes, i / columns, i % columns + 2)
  }

  ghost predicate AllDistinct(table: seq<seq<nat>>) {
    forall k :: 0 <= k < |table| ==> Distinct(table[k])
  }

  lemma IndicatorsReadBack(table: seq<seq<nat>>, s: Symbol, data: seq<int>, row: nat)
    requires IsTable(table) && AllDistinct(table) && s.Legal() && IsData(s, data) && row < s.rows
    ensures var bits := RowsOf(table, s, data, s.rows);
            && ReadWord(table, bits, s.RowBytes(), row, 1) == LeftIndicator(s, row)
            && ReadWord(table, bits, s.RowBytes(), row, s.columns + 2) == RightIndicator(s, row)
  {
    hide ReadWord, RowsOf, LeftIndicator, RightIndicator, Distinct;
    WordReadsBack(table, s, data, row, 1, LeftIndicator(s, row));
    WordReadsBack(table, s, data, row, s.columns + 2, RightIndicator(s, row));
  }

  lemma CodewordReadsBack(table: seq<seq<nat>>, s: Symbol, data: seq<int>, i: nat, row: nat, c: nat)
    requires IsTable(table) && AllDistinct(table) && s.Legal() && IsData(s, data)
    requires row < s.rows && c < s.columns && i == row * s.columns + c < |data|
    ensures ReadWord(table, RowsOf(table, s, data, s.rows), s.RowBytes(), row, c + 2) == data[i]
  {
    hide ReadWord, RowsOf, LeftIndicator, RightIndicator, Distinct;
    InRow(s, row);
    WordReadsBack(table, s, data, row, c + 2, data[i]);
  }

  lemma PlaceOf(s: Symbol, i: nat)
    requires s.Legal() && i < s.rows * s.columns
    ensures 0 <= i / s.columns < s.rows && 0 <= i % s.columns < s.columns
    ensures i == i / s.columns * s.columns + i % s.columns
  {
    assert s.rows * s.columns == s.columns * s.rows;
    DivModBounds(i, s.columns, s.rows);
  }

  // A painted symbol, read with tables of distinct patterns, gives back its
  // parameters and every codeword.
  lemma SymbolReadsBack(table: seq<seq<nat>>, s: Symbol, data: seq<int>)
    requires IsTable(table) && AllDistinct(table) && s.Legal() && IsData(s, data)
    ensures var bits := RowsOf(table, s, data, s.rows);
            ReadParameters(table, bits, s.RowBytes()) == s && ReadData(table, bits, s.RowBytes()) == data
  {
    hide ReadWord, RowsOf, LeftIndicator, RightIndicator, AllDistinct, IsCluster;
    var bits := RowsOf(table, s, data, s.rows);
    IndicatorsReadBack(table, s, data, 0);
    IndicatorsReadBack(table, s, data, 1);
    IndicatorsReadBack(table, s, data, 2);
    IndicatorsTellSymbol(s, 0);
    forall i | 0 <= i < |data| ensures ReadData(table, bits, s.RowBytes())[i] == data[i] {
      PlaceOf(s, i);
      CodewordReadsBack(table, s, data, i, i / s.columns, i % s.columns);
    }
  }

  // ----- Rows, from their indicators and in plain bits -----

  // From the bits of a painted row, either indicator and the cluster it is
  // found in tell which row it is.
  lemma RowTellsItself(table: seq<seq<nat>>, s: Symbol, data: seq<int>, row: nat)
    requires IsTable(table) && AllDistinct(table) && s.Legal() && IsData(s, data) && row < s.rows
    ensures var bits, b := RowsOf(table, s, data, s.rows), s.RowBytes();
            && 3 * (ReadWord(table, bits, b, row, 1) / 30) + row % 3 == row
            && 3 * (ReadWord(table, bits, b, row, s.columns + 2) / 30) + row % 3 == row
  {
    hide ReadWord, RowsOf, LeftIndicator, RightIndicator, AllDistinct, IsTable, IsData, Symbol.RowBytes;
    IndicatorsReadBack(table, s, data, row);
  }

  // Word p of a row, read in base 2.
  lemma WordOfRow(table: seq<seq<nat>>, s: Symbol, data: seq<int>, row: nat, p: nat)
    requires IsTable(table) && s.Legal() && IsData(s, data) && row < s.rows && p < s.columns + 3
    ensures var r := RowOf(table, s, data, row);
            17 * p + 17 <= |r| && Value(2, r[17 * p..17 * p + 17]) == RowWords(table, s, data, row)[p]
  {
    hide RowWords, Digits, Value, Pow, IsData, IsTable, Zeros;
    var ws, r := RowWords(table, s, data, row), RowOf(table, s, data, row);
    WordSlice(ws, p);
    assert r[17 * p..17 * p + 17] == Words(ws)[17 * p..17 * p + 17];
    WordsFit(table, s, data, row, p);
    Pow2Values();
    ValueOfDigits(2, ws[p], 17);
  }

  lemma WordsFit(table: seq<seq<nat>>, s: Symbol, data: seq<int>, row: nat, p: nat)
    requires IsTable(table) && s.Legal() && IsData(s, data) && row < s.rows && p < s.columns + 3
    ensures RowWords(table, s, data, row)[p] < 131072
    ensures |table| == 3 && |table[row % 3]| == 929
    ensures var ws := RowWords(table, s, data, row);
            && ws[0] == 0x1fea8 && ws[1] == table[row % 3][LeftIndicator(s, row)]
            && ws[s.columns + 2] == table[row % 3][RightIndicator(s, row)]
  {
    hide LeftIndicator, RightIndicator;
    InRow(s, row);
  }

  lemma DataWordOfRow(table: seq<seq<nat>>, s: Symbol, data: seq<int>, row: nat, c: nat)
    requires IsTable(table) && s.Legal() && IsData(s, data) && row < s.rows && c < s.columns
    ensures 0 <= row * s.columns + c < |data| && |table| == 3 && |table[row % 3]| == 929
    ensures 0 <= data[row * s.columns + c] < 929
    ensures RowWords(table, s, data, row)[c + 2] == table[row % 3][data[row * s.columns + c]]
  {
    hide LeftIndicator, RightIndicator;
    InRow(s, row);
  }

  lemma RowEnd(table: seq<seq<nat>>, s: Symbol, data: seq<int>, row: nat)
    requires IsTable(table) && s.Legal() && IsData(s, data) && row < s.rows
    ensures var r, w := RowOf(table, s, data, row), 17 * (s.columns + 3);
            && |r| == 8 * ((w + 18 + 7) / 8) && w + 18 <= |r|
            && Value(2, r[w..w + 18]) == 0x3fa29 && (forall i :: w + 18 <= i < |r| ==> r[i] == 0)
  {
    hide RowWords, Digits, Value, Pow, IsData, IsTable, Words;
    var r, w := RowOf(table, s, data, row), 17 * (s.columns + 3);
    assert r[w..w + 18] == Digits(2, STOP_PATTERN, 18);
    Pow2Values();
    ValueOfDigits(2, STOP_PATTERN, 18);
  }

  // A row in plain bits: the start pattern, the left indicator's pattern, the
  // patterns of its codewords, the right indicator's, the stop pattern, and
  // zeros to the end of the last byte.
  lemma RowLayout(table: seq<seq<nat>>, s: Symbol, data: seq<int>, row: nat)
    requires IsTable(table) && s.Legal() && IsData(s, data) && row < s.rows
    ensures |table| == 3 && |table[row % 3]| == 929
    ensures var r, w := RowOf(table, s, data, row), 17 * (s.columns + 3);
            && |r| == 8 * ((w + 18 + 7) / 8) && w + 18 <= |r|
            && Value(2, r[..17]) == 0x1fea8 && Value(2, r[17..34]) == table[row % 3][LeftIndicator(s, row)]
            && Value(2, r[w - 17..w]) == table[row % 3][RightIndicator(s, row)]
            && Value(2, r[w..w + 18]) == 0x3fa29
            && (forall i :: w + 18 <= i < |r| ==> r[i] == 0)
    ensures forall c: nat :: c < s.columns ==> WordIsData(table, s, data, row, c)
  {
    hide RowWords, RowOf, Value, IsData, IsTable, LeftIndicator, RightIndicator, WordIsData;
    WordOfRow(table, s, data, row, 0);
    WordOfRow(table, s, data, row, 1);
    WordOfRow(table, s, data, row, s.columns + 2);
    WordsFit(table, s, data, row, 0);
    RowEnd(table, s, data, row);
    var r := RowOf(table, s, data, row);
    assert r[0..17] == r[..17];
    forall c: nat | c < s.columns ensures WordIsData(table, s, data, row, c) {
      PlacedWord(table, s, data, row, c);
    }
  }

  // Column c of a row holds the pattern of the codeword in its place.
  ghost predicate WordIsData(table: seq<seq<nat>>, s: Symbol, data: seq<int>, row: nat, c: nat)
    requires IsTable(table) && s.Legal() && IsData(s, data) && row < s.rows
  {
    var r, i := RowOf(table, s, data, row), row * s.columns + c;
    && 0 <= i < |data| && 17 * (c + 2) + 17 <= |r|
    && Value(2, r[17 * (c + 2)..17 * (c + 2) + 17]) == table[row % 3][data[i]]
  }

  lemma PlacedWord(table: seq<seq<nat>>, s: Symbol, data: seq<int>, row: nat, c: nat)
    requires IsTable(table) && s.Legal() && IsData(s, data) && row < s.rows && c < s.columns
    ensures WordIsData(table, s, data, row, c)
  {
    hide RowWords, RowOf, Value;
    WordOfRow(table, s, data, row, c + 2);
    DataWordOfRow(table, s, data, row, c);
  }

  // ----- The code -----

  ghost function Opening(table: seq<seq<nat>>, s: Symbol, row: nat): seq<nat>
    requires IsTable(table) && s.Legal() && row < s.rows
  {
    [START_PATTERN, table[row % 3][LeftIndicator(s, row)]]
  }

  method LeftEdge(s: Symbol, row: nat) returns (edge: nat)
    requires s.Legal() && row < s.rows
    ensures edge == LeftIndicator(s, row) && edge / 30 == row / 3
  {
    match row % 3 {
      case 0 => edge := 30 * (row / 3) + (s.rows - 1) / 3;
      case 1 => edge := 30 * (row / 3) + s.errorLevel * 3 + (s.rows - 1) % 3;
      case _ => edge := 30 * (row / 3) + s.columns - 1;
    }
  }

  method RightEdge(s: Symbol, row: nat) returns (edge: nat)
    requires s.Legal() && row < s.rows
    ensures edge == RightIndicator(s, row) && edge / 30 == row / 3
  {
    match row % 3 {
      case 0 => edge := 30 * (row / 3) + s.columns - 1;
      case 1 => edge := 30 * (row / 3) + (s.rows - 1) / 3;
      case _ => edge := 30 * (row / 3) + s.errorLevel * 3 + (s.rows - 1) % 3;
    }
  }

  lemma PaddingIsShort(s: Symbol)
    ensures Padding(s) < 8
  {}

  // The start pattern and the left indicator.
  method OutLeft(table: seq<seq<nat>>, s: Symbol, out: array<byte>, bitPtr0: nat, row: nat, ghost D: seq<int>)
    returns (bitPtr: nat)
    requires IsTable(table) && s.Legal() && row < s.rows
    requires Holds(out[..], D) && |D| == bitPtr0 && bitPtr0 + 34 <= 8 * out.Length
    modifies out
    ensures bitPtr == bitPtr0 + 34 && Holds(out[..], D + Words(Opening(table, s, row)))
  {
    hide Holds, Digits, Pow, IsTable, LeftIndicator, RightIndicator;
    Pow2Values();
    IndicatorWords(table, s, row);
    var rowMod := row % 3;
    bitPtr := OutCodeword17(out, bitPtr0, START_PATTERN, D);
    var edge := LeftEdge(s, row);
    bitPtr := OutCodeword17(out, bitPtr, table[rowMod][edge], D + Digits(2, START_PATTERN, 17));
    TwoWords(START_PATTERN, table[rowMod][edge]);
    assert D + Words([START_PATTERN, table[rowMod][edge]])
        == (D + Digits(2, START_PATTERN, 17)) + Digits(2, table[rowMod][edge], 17);
  }

  // The right indicator, the stop pattern, and the zeros after it.
  method OutRight(table: seq<seq<nat>>, s: Symbol, out: array<byte>, bitPtr0: nat, row: nat, ghost D: seq<int>)
    requires IsTable(table) && s.Legal() && row < s.rows
    requires Holds(out[..], D) && |D| == bitPtr0 && bitPtr0 + 35 + Padding(s) <= 8 * out.Length
    requires (bitPtr0 + 35 + Padding(s)) % 8 == 0
    modifies out
    ensures Holds(out[..], D + Digits(2, table[row % 3][RightIndicator(s, row)], 17) + Digits(2, STOP_PATTERN, 18)
            + Zeros(Padding(s)))
  {
    hide Holds, Digits, Pow, IsTable, LeftIndicator, RightIndicator, Zeros;
    Pow2Values();
    IndicatorWords(table, s, row);
    PaddingIsShort(s);
    hide Padding, Symbol.RowBytes, Symbol.BitColumns;
    var rowMod := row % 3;
    var edge := RightEdge(s, row);
    var bitPtr := OutCodeword17(out, bitPtr0, table[rowMod][edge], D);
    ghost var E := D + Digits(2, table[rowMod][edge], 17);
    bitPtr := OutCodeword18(out, bitPtr, STOP_PATTERN, E);
    PadHolds(out[..], E + Digits(2, STOP_PATTERN, 18), Padding(s));
  }

  // The data codewords of a row.
  method OutData(table: seq<seq<nat>>, s: Symbol, codewords: array<int>, codePtr0: nat, out: array<byte>, bitPtr0: nat,
      row: nat, ghost D: seq<int>, ghost ws: seq<nat>)
    returns (codePtr: nat, bitPtr: nat)
    requires IsTable(table) && s.Legal() && row < s.rows && s.rows * s.columns <= codewords.Length
    requires IsData(s, codewords[..s.rows * s.columns]) && codePtr0 == row * s.columns
    requires Holds(out[..], D + Words(ws)) && |D + Words(ws)| == bitPtr0 && bitPtr0 + 17 * s.columns <= 8 * out.Length
    modifies out
    ensures codePtr == codePtr0 + s.columns && bitPtr == bitPtr0 + 17 * s.columns
    ensures Holds(out[..], D + Words(ws + DataWords(table, s, codewords[..s.rows * s.columns], row, s.columns)))
  {
    hide Holds, Digits, Pow, IsData, IsTable, DataWord, DataWords;
    ghost var data := codewords[..s.rows * s.columns];
    codePtr, bitPtr := codePtr0, bitPtr0;
    NoDataWords(table, s, data, row);
    assert ws + [] == ws;
    for column := 0 to s.columns
      invariant codePtr == codePtr0 + column
      invariant bitPtr == bitPtr0 + 17 * column
      invariant Holds(out[..], D + Words(ws + DataWords(table, s, data, row, column)))
    {
      ghost var w := DataWord(table, s, data, row, column);
      ghost var done := ws + DataWords(table, s, data, row, column);
      DataWordIs(table, s, data, row, column);
      assert codewords[codePtr] == data[codePtr];
      Pow2Values();
      bitPtr := OutCodeword17(out, bitPtr, table[row % 3][codewords[codePtr]], D + Words(done));
      codePtr := codePtr + 1;
      WordsSnoc(done, w);
      assert done + [w] == ws + DataWords(table, s, data, row, column + 1);
      assert (D + Words(done)) + Digits(2, w, 17) == D + Words(done + [w]);
    }
  }

  lemma TwoWords(a: nat, b: nat)
    ensures Words([a, b]) == Digits(2, a, 17) + Digits(2, b, 17)
  {
    assert [a, b][..1] == [a] && [a][..0] == [];
    assert Words([a]) == Words([]) + Digits(2, a, 17);
  }

  lemma WordsSnoc(ws: seq<nat>, w: nat)
    ensures Words(ws + [w]) == Words(ws) + Digits(2, w, 17)
  {
    assert (ws + [w])[..|ws|] == ws;
  }

  lemma NoDataWords(table: seq<seq<nat>>, s: Symbol, data: seq<int>, row: nat)
    requires IsTable(table) && s.Legal() && IsData(s, data) && row < s.rows
    ensures DataWords(table, s, data, row, 0) == []
  {}

  lemma IndicatorWords(table: seq<seq<nat>>, s: Symbol, row: nat)
    requires IsTable(table) && s.Legal() && row < s.rows
    ensures |table| == 3 && |table[row % 3]| == 929
    ensures table[row % 3][LeftIndicator(s, row)] < 131072 && table[row % 3][RightIndicator(s, row)] < 131072
  {}

  lemma DataWordIs(table: seq<seq<nat>>, s: Symbol, data: seq<int>, row: nat, c: nat)
    requires IsTable(table) && s.Legal() && IsData(s, data) && row < s.rows && c < s.columns
    ensures |table| == 3 && |table[row % 3]| == 929
    ensures 0 <= row * s.columns + c < |data| && 0 <= data[row * s.columns + c] < 929
    ensures DataWord(table, s, data, row, c) == table[row % 3][data[row * s.columns + c]] < 131072
    ensures DataWords(table, s, data, row, c + 1)
            == DataWords(table, s, data, row, c) + [DataWord(table, s, data, row, c)]
  {
    InRow(s, row);
  }

  method OutRow(table: seq<seq<nat>>, s: Symbol, codewords: array<int>, codePtr0: nat, out: array<byte>, row: nat,
      ghost D: seq<int>)
    returns (codePtr: nat)
    requires IsTable(table) && s.Legal() && row < s.rows && s.rows * s.columns <= codewords.Length
    requires IsData(s, codewords[..s.rows * s.columns]) && codePtr0 == row * s.columns
    requires Holds(out[..], D) && |D| == row * (8 * s.RowBytes()) && |D| + 8 * s.RowBytes() <= 8 * out.Length
    modifies out
    ensures codePtr == codePtr0 + s.columns
    ensures Holds(out[..], D + RowOf(table, s, codewords[..s.rows * s.columns], row))
  {
    hide Holds, Digits, Pow, IsData, IsTable, Words, RowOf, RightIndicator, DataWords, Opening, Zeros;
    hide Symbol.RowBytes, Symbol.BitColumns, Padding, Symbol.Legal;
    ghost var data := codewords[..s.rows * s.columns];
    RowOffset(s, row);
    RowEnds(s, row);
    var bitPtr := s.RowBytes() * 8 * row;
    ghost var ws := Opening(table, s, row);
    RowAssembled(table, s, data, row, D);
    bitPtr := OutLeft(table, s, out, bitPtr, row, D);
    codePtr, bitPtr := OutData(table, s, codewords, codePtr0, out, bitPtr, row, D, ws);
    OutRight(table, s, out, bitPtr, row, D + Words(ws + DataWords(table, s, data, row, s.columns)));
  }

  lemma RowAssembled(table: seq<seq<nat>>, s: Symbol, data: seq<int>, row: nat, D: seq<int>)
    requires IsTable(table) && s.Legal() && IsData(s, data) && row < s.rows
    ensures |Opening(table, s, row)| == 2
    ensures |table| == 3 && |table[row % 3]| == 929
    ensures var most := Opening(table, s, row) + DataWords(table, s, data, row, s.columns);
            && |Words(most)| == 17 * (s.columns + 2)
            && D + Words(most) + Digits(2, table[row % 3][RightIndicator(s, row)], 17) + Digits(2, STOP_PATTERN, 18)
               + Zeros(Padding(s))
               == D + RowOf(table, s, data, row)
  {
    hide Digits, Words, RightIndicator, LeftIndicator, DataWords;
    var most := Opening(table, s, row) + DataWords(table, s, data, row, s.columns);
    var w := table[row % 3][RightIndicator(s, row)];
    WordsSnoc(most, w);
    assert most + [w] == RowWords(table, s, data, row);
  }

  lemma RowEnds(s: Symbol, row: nat)
    ensures 34 + 17 * s.columns + 35 + Padding(s) == 8 * s.RowBytes()
    ensures (row * (8 * s.RowBytes()) + 34 + 17 * s.columns + 35 + Padding(s)) % 8 == 0
  {
    var b := s.RowBytes();
    NonNegative(row, b);
    EightTimes(row, b);
    WholeBytes(row * b + b, row * (8 * b) + 34 + 17 * s.columns + 35 + Padding(s));
  }

  lemma WholeBytes(n: nat, x: nat)
    requires x == 8 * n
    ensures x % 8 == 0
  {}

  lemma RowOffset(s: Symbol, row: nat)
    ensures s.RowBytes() * 8 * row == row * (8 * s.RowBytes()) >= 0
  {
    hide Symbol.RowBytes;
    var b := s.RowBytes();
    NonNegative(row, b);
    EightTimes(row, b);
    assert b * 8 * row == 8 * (row * b);
  }

  // The packed bits of the whole symbol.
  method OutPaintCode(table: seq<seq<nat>>, s: Symbol, codewords: array<int>) returns (outBits: array<byte>)
    requires IsTable(table) && s.Legal() && s.rows * s.columns <= codewords.Length
    requires IsData(s, codewords[..s.rows * s.columns])
    ensures fresh(outBits) && outBits.Length == s.RowBytes() * s.rows
    ensures Bits(outBits[..]) == RowsOf(table, s, codewords[..s.rows * s.columns], s.rows)
  {
    hide Bits, RowOf, IsData, IsTable, RowsOf, Symbol.RowBytes, Symbol.Legal, Holds;
    ghost var data := codewords[..s.rows * s.columns];
    var n := s.RowBytes();
    NonNegative(n, s.rows);
    outBits := new byte[n * s.rows](_ => 0);
    NothingHolds(outBits[..]);
    NoRowsYet(table, s, data);
    var codePtr := 0;
    for row := 0 to s.rows
      invariant codePtr == row * s.columns
      invariant codewords[..s.rows * s.columns] == data
      invariant Holds(outBits[..], RowsOf(table, s, data, row))
    {
      RowFits(n, s.columns, s.rows, row);
      OneMoreRow(table, s, data, row);
      codePtr := OutRow(table, s, codewords, codePtr, outBits, row, RowsOf(table, s, data, row));
    }
    assert s.rows * (8 * n) == 8 * (n * s.rows);
    HoldsAtByte(outBits[..], RowsOf(table, s, data, s.rows), outBits.Length);
    assert outBits[..][..outBits.Length] == outBits[..];
  }

  lemma RowFits(n: nat, columns: nat, rows: nat, row: nat)
    requires row < rows
    ensures row * (8 * n) + 8 * n <= 8 * (n * rows) && (row + 1) * columns == row * columns + columns
  {
    MulMonotone(row + 1, rows, 8 * n);
    assert rows * (8 * n) == 8 * (n * rows);
    MulDistributes(row, 1, columns);
  }

  lemma NoRowsYet(table: seq<seq<nat>>, s: Symbol, data: seq<int>)
    requires IsTable(table) && s.Legal() && IsData(s, data)
    ensures RowsOf(table, s, data, 0) == []
  {}

  lemma OneMoreRow(table: seq<seq<nat>>, s: Symbol, data: seq<int>, row: nat)
    requires IsTable(table) && s.Legal() && IsData(s, data) && row < s.rows
    ensures RowsOf(table, s, data, row + 1) == RowsOf(table, s, data, row) + RowOf(table, s, data, row)
  {
    hide RowOf, IsTable, IsData;
  }

  lemma NothingHolds(out: seq<byte>)
    requires forall i :: 0 <= i < |out| ==> out[i] == 0
    ensures Holds(out, [])
  {
    HoldsAtByte(out, [], 0);
  }
}
