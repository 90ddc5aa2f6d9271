// paintCode: from the text and the caller's wishes to the packed bits, and
// from the bits back to the text.

module PaintCode {
  import opened Octets
  import opened Pdf417
  import opened Radix
  import BreakString
  import opened Stream
  import EC = ErrorCorrection
  import Distance
  import opened SymbolSize
  import RowBits
  import opened Painting

  // A generator for every error level.
  ghost predicate IsGenerators(g: seq<seq<int>>) {
    |g| == 9 && forall l :: 0 <= l < 9 ==> |g[l]| == ErrorSize(l)
  }

  // The codewords of a symbol: their number without the error codewords, the
  // message, text latches as padding, and the check codewords.
  ghost predicate IsSymbol(g: seq<seq<int>>, m: seq<int>, level: nat, data: seq<int>)
    requires IsGenerators(g) && level <= 8
  {
    var n := |data| - ErrorSize(level);
    && 1 + |m| <= n
    && data[..n] == [n] + m + Pads(n - 1 - |m|)
    && data[n..] == EC.CheckCodewords(g[level], data[..n])
  }

  // Every codeword of a symbol has a pattern.
  lemma SymbolIsData(g: seq<seq<int>>, m: seq<int>, s: Symbol, data: seq<int>)
    requires IsGenerators(g) && s.Legal() && IsSymbol(g, m, s.errorLevel, data)
    requires |data| == s.rows * s.columns <= CODEWORDS_LENGTH
    requires forall i :: 0 <= i < |m| ==> 0 <= m[i] < 929
    ensures IsData(s, data)
  {
    var n := |data| - ErrorSize(s.errorLevel);
    forall i | 0 <= i < |data| ensures 0 <= data[i] < 929 {
      if i < n {
        assert data[i] == data[..n][i];
      } else {
        assert data[i] == data[n..][i - n];
      }
    }
  }

  // The symbol, read as a polynomial, vanishes at every root of its level's
  // generator.
  lemma SymbolIsCodeword(g: seq<seq<int>>, m: seq<int>, level: nat, data: seq<int>, r: int)
    requires IsGenerators(g) && level <= 8 && IsSymbol(g, m, level, data) && EC.Root(g[level], r)
    ensures EC.Cong(Value(r, data), 0)
  {
    var n := |data| - ErrorSize(level);
    assert data == data[..n] + data[n..];
    EC.CodeVanishesAtRoots(g[level], data[..n], r);
  }

  // With a proper generator, at most one symbol of a size is so close to what
  // was scanned that the differing codewords of both together are no more
  // than the check codewords.
  lemma CorrectionIsUnique(g: seq<seq<int>>, level: nat, m: seq<int>, c: seq<int>, m': seq<int>, d: seq<int>,
      w: seq<int>)
    requires IsGenerators(g) && level <= 8 && g[level] == EC.Generator(ErrorSize(level)).ToSeq()
    requires |c| == |d| == |w| <= CODEWORDS_LENGTH
    requires IsSymbol(g, m, level, c) && IsSymbol(g, m', level, d)
    requires forall i :: 0 <= i < |c| ==> 0 <= c[i] < 929 && 0 <= d[i] < 929
    requires Distance.Differences(c, w) + Distance.Differences(w, d) <= ErrorSize(level)
    ensures c == d
  {
    hide IsSymbol, EC.Cong, EC.Generator, EC.PowerOf3, ErrorSize;
    var n := ErrorSize(level);
    Distance.DifferencesAdd(c, w, d);
    forall j | 1 <= j <= n ensures EC.Cong(Value(EC.PowerOf3(j), c), 0) && EC.Cong(Value(EC.PowerOf3(j), d), 0) {
      EC.GeneratorRoots(n, j);
      SymbolIsCodeword(g, m, level, c, EC.PowerOf3(j));
      SymbolIsCodeword(g, m', level, d, EC.PowerOf3(j));
    }
    Distance.SameWord(c, d, n);
  }

  // The reader of a whole symbol: the data codewords after the first, which
  // says how many there are.
  function ReadSymbol(table: seq<seq<nat>>, bits: seq<int>, rowBytes: nat): seq<byte>
    requires |table| == 3
  {
    var data := ReadData(table, bits, rowBytes);
    if data == [] || data[0] < 1 || data[0] > |data| then [] else ReadMessage(data[1..data[0]])
  }

  // From text to bits and back, for any tables of distinct patterns: reading
  // the painted symbol gives the text exactly when no merge pass dropped its
  // end and no NUL ended up in a text segment.
  lemma BarcodeRoundTrip(table: seq<seq<nat>>, g: seq<seq<int>>, text: seq<byte>, s: Symbol, data: seq<int>)
    requires IsTable(table) && AllDistinct(table) && IsGenerators(g) && s.Legal() && text != []
    requires Encodable(text, BreakString.Segments(text))
    requires |data| == s.rows * s.columns <= CODEWORDS_LENGTH
    requires IsSymbol(g, Message(text, BreakString.Segments(text), 0), s.errorLevel, data)
    ensures IsData(s, data)
    ensures ReadSymbol(table, RowsOf(table, s, data, s.rows), s.RowBytes()) == text
            <==> !BreakString.LosesText(text) && !NulInText(text, BreakString.Segments(text), 0)
  {
    hide ReadMessage, Message, RowsOf, ReadData, AllDistinct, IsTable, Encodable, NulInText;
    hide BreakString.Segments, BreakString.LosesText, IsSymbol, IsData, IsGenerators, Symbol.RowBytes, ErrorSize;
    var m := Message(text, BreakString.Segments(text), 0);
    MessageInRange(text, BreakString.Segments(text), 0);
    SymbolIsData(g, m, s, data);
    TableHasThree(table);
    SymbolReadsBack(table, s, data);
    SymbolMessage(g, m, s.errorLevel, data);
    EncoderRoundTrip(text);
  }

  // The message read from a symbol's codewords.
  lemma SymbolMessage(g: seq<seq<int>>, m: seq<int>, level: nat, data: seq<int>)
    requires IsGenerators(g) && level <= 8 && IsSymbol(g, m, level, data)
    ensures |data| > 0 && 1 <= data[0] <= |data|
    ensures ReadMessage(data[1..data[0]]) == ReadMessage(m)
  {
    hide ReadMessage, Pads, EC.CheckCodewords;
    var n := |data| - ErrorSize(level);
    assert data[0] == data[..n][0] == n;
    assert data[1..n] == data[..n][1..] == m + Pads(n - 1 - |m|);
    PadsAreSilent(m, n - 1 - |m|);
  }

  lemma TableHasThree(table: seq<seq<nat>>)
    requires IsTable(table)
    ensures |table| == 3
  {}

  class Barcode {
    const encoder: Encoder
    var options: Options
    var codeRows: int
    var codeColumns: int
    var errorLevel: int
    var lenCodewords: int
    var bitColumns: int
    var outBits: array?<byte>

    ghost predicate Valid()
      reads this, encoder
    {
      encoder.Valid()
    }

    ghost predicate Sized()
      reads this
    {
      && 3 <= codeRows <= 90 && 1 <= codeColumns <= 30 && 0 <= errorLevel <= 8
      && lenCodewords == codeRows * codeColumns <= 928
    }

    ghost function Shape(): (s: Symbol)
      requires Sized()
      reads this
      ensures s.Legal()
    {
      Symbol(codeRows, codeColumns, errorLevel)
    }

    // The symbol for message m is in codewords, and its rows are in outBits.
    ghost predicate Painted(table: seq<seq<nat>>, g: seq<seq<int>>, m: seq<int>)
      requires IsTable(table) && IsGenerators(g)
      reads this, encoder, encoder.codewords, outBits
    {
      && Valid() && Sized() && outBits != null
      && var data := encoder.codewords[..lenCodewords];
      && IsSymbol(g, m, errorLevel, data) && IsData(Shape(), data)
      && bitColumns == Shape().BitColumns() && outBits.Length == Shape().RowBytes() * codeRows
      && RowBits.Bits(outBits[..]) == RowsOf(table, Shape(), data, codeRows)
    }

    // What a reader makes of the bits.
    ghost function Read(table: seq<seq<nat>>): seq<byte>
      requires |table| == 3 && Sized() && outBits != null
      reads this, outBits
    {
      ReadSymbol(table, RowBits.Bits(outBits[..]), Shape().RowBytes())
    }

    // It gets the text back exactly when nothing of it was dropped on the way.
    lemma PaintedReadsBack(table: seq<seq<nat>>, g: seq<seq<int>>)
      requires IsTable(table) && AllDistinct(table) && IsGenerators(g)
      requires encoder.text != [] && Encodable(encoder.text, BreakString.Segments(encoder.text))
      requires Painted(table, g, Message(encoder.text, BreakString.Segments(encoder.text), 0))
      ensures Read(table) == encoder.text
              <==> !BreakString.LosesText(encoder.text)
                   && !NulInText(encoder.text, BreakString.Segments(encoder.text), 0)
    {
      hide IsTable, IsGenerators, IsSymbol, IsData, RowsOf, Message, Encodable, BreakString.Segments;
      hide BreakString.LosesText, NulInText, ReadSymbol, AllDistinct, Symbol.RowBytes, Symbol.BitColumns;
      BarcodeRoundTrip(table, g, encoder.text, Shape(), encoder.codewords[..lenCodewords]);
    }

    constructor (text: seq<byte>, options: Options, codeRows: int, codeColumns: int, errorLevel: int)
      ensures Valid() && fresh(encoder) && fresh(encoder.codewords)
      ensures encoder.text == text && this.options == options
      ensures this.codeRows == codeRows && this.codeColumns == codeColumns && this.errorLevel == errorLevel
    {
      encoder := new Encoder(text);
      this.options := options;
      this.codeRows := codeRows;
      this.codeColumns := codeColumns;
      this.errorLevel := errorLevel;
      lenCodewords := 0;
      bitColumns := 0;
      outBits := null;
    }

    // The first part of paintCode: data codewords from the caller or from the
    // text. Their number goes into the first.
    method DataCodewords()
      requires Valid()
      modifies this`lenCodewords, encoder, encoder.codewords
      ensures Valid()
      ensures options.rawCodewords ==>
        && encoder.codewords[..] == old(encoder.codewords[..]) && lenCodewords == old(lenCodewords)
        && (encoder.error == if 1 <= lenCodewords <= 926 && lenCodewords == encoder.codewords[0]
                             then Success else InvalidParams)
      // for empty text the count is whatever was in place
      ensures !options.rawCodewords && encoder.text == [] ==>
        && encoder.error == Success && lenCodewords == old(encoder.cwPtr)
        && encoder.codewords[..] == old(encoder.codewords[..])[0 := lenCodewords]
      ensures !options.rawCodewords && encoder.text != [] ==>
        var text := encoder.text;
        && Encodable(text, BreakString.Segments(text))
        && var m := Message(text, BreakString.Segments(text), 0);
        if |text| > 5420 || 1 + |m| > 926 then encoder.error == TextTooBig
        else encoder.error == Success && lenCodewords == 1 + |m|
             && encoder.codewords[..lenCodewords] == [lenCodewords] + m
    {
      hide BreakString.Segments, Message, Encodable;
      encoder.error := Success;
      if options.rawCodewords {
        if lenCodewords > MAX_DATA_CODEWORDS || lenCodewords < 1 || lenCodewords != encoder.codewords[0] {
          encoder.error := InvalidParams;
        }
        return;
      }
      SegmentsAreEncodable(encoder.text);
      if |encoder.text| > ABSOLUTE_MAX_TEXT_SIZE {
        encoder.error := TextTooBig;
        return;
      }
      var list := BreakString.BreakUp(encoder.text);
      if encoder.text == [] { BreakString.EmptyText(encoder.text); }
      Assemble(encoder, list);
      if encoder.error != Success {
        return;
      }
      lenCodewords := encoder.cwPtr;
      ghost var m := if encoder.text == [] then [] else encoder.codewords[1..encoder.cwPtr];
      encoder.codewords[0] := lenCodewords;
      assert encoder.text != [] ==> encoder.codewords[..lenCodewords] == [lenCodewords] + m;
    }

    // Fills up with text latches from lenCodewords on.
    method Pad(pad: nat)
      requires Valid() && 1 <= lenCodewords && lenCodewords + pad <= CODEWORDS_LENGTH
      modifies this`lenCodewords, encoder`cwPtr, encoder.codewords
      ensures Valid() && lenCodewords == old(lenCodewords) + pad
      ensures encoder.codewords[..lenCodewords]
              == [lenCodewords] + old(encoder.codewords[1..lenCodewords]) + Pads(pad)
    {
      ghost var head := encoder.codewords[1..lenCodewords];
      encoder.cwPtr := lenCodewords;
      for i := 0 to pad
        invariant encoder.Valid() && lenCodewords == old(lenCodewords) && encoder.cwPtr == lenCodewords + i
        invariant encoder.codewords[1..encoder.cwPtr] == head + Pads(i)
      {
        encoder.codewords[encoder.cwPtr] := TEXT_MODE;
        encoder.cwPtr := encoder.cwPtr + 1;
        assert encoder.codewords[1..encoder.cwPtr] == (head + Pads(i)) + [TEXT_MODE];
      }
      lenCodewords := encoder.cwPtr;
      encoder.codewords[0] := lenCodewords;
    }

    // Pads the data and adds the error codewords of the level.
    method Complete(g: seq<seq<int>>, pad: nat, tot: nat)
      requires Valid() && IsGenerators(g) && 0 <= errorLevel <= 8
      requires 1 <= lenCodewords <= MAX_DATA_CODEWORDS
      requires lenCodewords + pad + ErrorSize(errorLevel) == tot <= CODEWORDS_LENGTH
      requires forall i :: 0 <= i < lenCodewords ==> 0 <= encoder.codewords[i] < 929
      modifies this`lenCodewords, encoder`cwPtr, encoder.codewords
      ensures Valid() && lenCodewords == tot
      ensures IsSymbol(g, old(encoder.codewords[1..lenCodewords]), errorLevel, encoder.codewords[..tot])
    {
      hide ErrorSize, EC.CheckCodewords, Pads;
      ghost var m := encoder.codewords[1..lenCodewords];
      Pad(pad);
      var n := lenCodewords;
      ghost var front := encoder.codewords[..n];
      PadsInRange(n, m, pad);
      assert forall i :: 0 <= i < n ==> encoder.codewords[i] == front[i];
      EC.Calculate(encoder.codewords, n, n, g[errorLevel]);
      lenCodewords := tot;
      ghost var data := encoder.codewords[..tot];
      assert data[..n] == encoder.codewords[..n] == front;
      assert data[n..] == encoder.codewords[n..tot];
    }

    // Sizes the symbol, fills it and paints it.
    method PaintMessage(table: seq<seq<nat>>, g: seq<seq<int>>, estimate: int)
      requires Valid() && IsTable(table) && IsGenerators(g)
      requires 1 <= lenCodewords <= MAX_DATA_CODEWORDS && encoder.codewords[0] == lenCodewords
      requires forall i :: 0 <= i < lenCodewords ==> 0 <= encoder.codewords[i] < 929
      modifies this`codeRows, this`codeColumns, this`errorLevel, this`lenCodewords, this`bitColumns, this`outBits,
               encoder`cwPtr, encoder.codewords
      ensures Valid() && Painted(table, g, old(encoder.codewords[1..lenCodewords])) && fresh(outBits)
      ensures old(WantedLevel(lenCodewords, options, errorLevel)) <= errorLevel
    {
      hide IsTable, IsGenerators, IsSymbol, ErrorSize, RowsOf, Symbol.RowBytes, Symbol.BitColumns, WantedLevel;
      ghost var m := encoder.codewords[1..lenCodewords];
      var rows, columns, level, pad := ChooseSize(lenCodewords, options, codeRows, codeColumns, errorLevel, estimate);
      codeRows, codeColumns, errorLevel := rows, columns, level;
      Complete(g, pad, rows * columns);
      var s := Symbol(rows, columns, level);
      SymbolIsData(g, m, s, encoder.codewords[..lenCodewords]);
      bitColumns := s.BitColumns();
      outBits := OutPaintCode(table, s, encoder.codewords);
    }

    // paintCode. Either an error is set, for the reasons given, or the symbol
    // for the message is in codewords and its bits are in outBits.
    method PaintCode(table: seq<seq<nat>>, g: seq<seq<int>>, estimate: int)
      requires Valid() && IsTable(table) && IsGenerators(g)
      requires if options.rawCodewords
               then forall i :: 0 <= i < encoder.codewords.Length && i < lenCodewords ==>
                      0 <= encoder.codewords[i] < 929
               else encoder.text != []
      modifies this, encoder, encoder.codewords
      ensures Valid() && options == old(options)
      ensures old(options.rawCodewords) ==>
        (encoder.error == Success
         <==> old(1 <= lenCodewords <= 926 && lenCodewords == encoder.codewords[0]))
      ensures old(!options.rawCodewords) ==>
        && Encodable(encoder.text, BreakString.Segments(encoder.text))
        && (encoder.error == Success
            <==> |encoder.text| <= 5420
                 && 1 + |Message(encoder.text, BreakString.Segments(encoder.text), 0)| <= 926)
      ensures encoder.error == Success && old(options.rawCodewords) ==>
        Painted(table, g, old(encoder.codewords[1..if 1 <= lenCodewords <= CODEWORDS_LENGTH then lenCodewords else 1]))
      ensures encoder.error == Success && old(!options.rawCodewords) ==>
        Painted(table, g, Message(encoder.text, BreakString.Segments(encoder.text), 0))
      ensures encoder.error == Success && old(!options.rawCodewords) && AllDistinct(table) ==>
        && Painted(table, g, Message(encoder.text, BreakString.Segments(encoder.text), 0)) && |table| == 3
        && (Read(table) == encoder.text
            <==> !BreakString.LosesText(encoder.text)
                 && !NulInText(encoder.text, BreakString.Segments(encoder.text), 0))
    {
      hide IsTable, IsGenerators, IsSymbol, IsData, RowsOf, Message, Encodable, BreakString.Segments;
      hide BreakString.LosesText, NulInText, AllDistinct, Painted, Read;
      DataCodewords();
      if encoder.error != Success {
        return;
      }
      ghost var m := encoder.codewords[1..lenCodewords];
      if !options.rawCodewords {
        SegmentsAreEncodable(encoder.text);
        MessageInRange(encoder.text, BreakString.Segments(encoder.text), 0);
        assert encoder.codewords[..lenCodewords][1..] == m;
        assert forall i :: 0 < i < lenCodewords ==> encoder.codewords[i] == m[i - 1];
        assert encoder.codewords[0] == encoder.codewords[..lenCodewords][0];
      }
      PaintMessage(table, g, estimate);
      if !options.rawCodewords && AllDistinct(table) {
        TableHasThree(table);
        PaintedReadsBack(table, g);
      }
    }

    lemma PadsInRange(n: nat, m: seq<int>, pad: nat)
      requires n < 929 && forall i :: 0 <= i < |m| ==> 0 <= m[i] < 929
      ensures forall i :: 0 <= i < 1 + |m| + pad ==> 0 <= ([n] + m + Pads(pad))[i] < 929
    {}
  }
}
