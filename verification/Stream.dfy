// assemble: the segment list as one stream of codewords, and the reader of a
// whole stream, which knows nothing of the segments.

module Stream {
  import opened Octets
  import opened Pdf417
  import TextMode
  import TextCompaction
  import NumericMode
  import ByteMode
  import opened Segmentation
  import opened Merging
  import opened BreakString

  // ----- What assemble writes -----

  ghost predicate Encodable(text: seq<byte>, list: seq<Segment>) {
    forall i :: 0 <= i < |list| ==>
      0 <= list[i].start < list[i].end <= |text| && Numeric(text, list[i])
  }

  function Latch(s: Segment): int {
    match s.kind
    case T => TEXT_MODE
    case N => NUMERIC_MODE
    case B => ByteMode.ByteLatch(if s.Length() < 0 then 0 else s.Length())
  }

  function Body(kind: Kind, part: seq<byte>): seq<int>
    requires kind == N ==> IsDigits(part)
  {
    match kind
    case T => TextMode.TextCodewords(part)
    case N => NumericMode.NumericCodewords(part)
    case B => ByteMode.ByteCodewords(part)
  }

  ghost function Part(text: seq<byte>, s: Segment): seq<byte>
    requires 0 <= s.start < s.end <= |text|
  {
    text[s.start..s.end]
  }

  // The codewords of segments i and on. A text segment that comes first needs
  // no latch: a message starts in text mode.
  ghost function Message(text: seq<byte>, list: seq<Segment>, i: nat): seq<int>
    requires Encodable(text, list) && i <= |list|
    decreases |list| - i
  {
    if i == |list| then []
    else
      (if i == 0 && list[i].kind == T then [] else [Latch(list[i])])
      + Body(list[i].kind, Part(text, list[i])) + Message(text, list, i + 1)
  }

  // ----- The reader of a stream -----

  predicate IsLatch(c: int) {
    c == 900 || c == 901 || c == 902 || c == 924
  }

  // The codewords before the next mode latch.
  function RunLength(cws: seq<int>): (n: nat)
    ensures n <= |cws| && (n < |cws| ==> IsLatch(cws[n]))
    ensures forall i :: 0 <= i < n ==> !IsLatch(cws[i])
    decreases |cws|
  {
    if cws == [] || IsLatch(cws[0]) then 0 else 1 + RunLength(cws[1..])
  }

  function ReadRun(latch: int, cws: seq<int>): seq<byte> {
    if latch == 900 then TextMode.ReadText(cws)
    else if latch == 902 then NumericMode.ReadNumeric(cws)
    else ByteMode.ReadBytes(latch, cws)
  }

  // Reads a stream whose codewords up to the next latch are in mode `latch`.
  function ReadStream(latch: int, cws: seq<int>): seq<byte>
    decreases |cws|
  {
    var n := RunLength(cws);
    ReadRun(latch, cws[..n]) + if n == |cws| then [] else ReadStream(cws[n], cws[n + 1..])
  }

  // A message starts in text mode.
  function ReadMessage(cws: seq<int>): seq<byte> {
    ReadStream(900, cws)
  }

  lemma {:induction false} RunLengthIs(run: seq<int>, rest: seq<int>)
    requires forall i :: 0 <= i < |run| ==> !IsLatch(run[i])
    requires rest == [] || IsLatch(rest[0])
    ensures RunLength(run + rest) == |run|
  {
    assert forall i :: 0 <= i < |run| ==> (run + rest)[i] == run[i];
    assert rest != [] ==> (run + rest)[|run|] == rest[0];
  }

  lemma ReadStreamRun(latch: int, run: seq<int>, rest: seq<int>)
    requires forall i :: 0 <= i < |run| ==> !IsLatch(run[i])
    requires rest == [] || IsLatch(rest[0])
    ensures ReadStream(latch, run + rest)
            == ReadRun(latch, run) + if rest == [] then [] else ReadStream(rest[0], rest[1..])
  {
    hide ReadRun, RunLength;
    RunLengthIs(run, rest);
    var cws := run + rest;
    assert cws[..|run|] == run;
    if rest != [] {
      assert cws[|run|] == rest[0] && cws[|run| + 1..] == rest[1..];
    }
  }

  // ----- Reading back a message -----

  // What the reader makes of one segment.
  ghost function Reading(text: seq<byte>, s: Segment): seq<byte>
    requires 0 <= s.start < s.end <= |text|
  {
    if s.kind == T then TextMode.ReadText(TextMode.TextCodewords(Part(text, s))) else Part(text, s)
  }

  ghost function Readings(text: seq<byte>, list: seq<Segment>, i: nat): seq<byte>
    requires Encodable(text, list) && i <= |list|
    decreases |list| - i
  {
    if i == |list| then [] else Reading(text, list[i]) + Readings(text, list, i + 1)
  }

  // The text the segments stand for.
  ghost function Content(text: seq<byte>, list: seq<Segment>, i: nat): seq<byte>
    requires Encodable(text, list) && i <= |list|
    decreases |list| - i
  {
    if i == |list| then [] else Part(text, list[i]) + Content(text, list, i + 1)
  }

  lemma BodyHasNoLatch(kind: Kind, part: seq<byte>)
    requires kind == N ==> IsDigits(part)
    ensures forall i :: 0 <= i < |Body(kind, part)| ==> !IsLatch(Body(kind, part)[i])
  {
    hide TextMode.TextCodewords, NumericMode.NumericCodewords, ByteMode.ByteCodewords;
    match kind
    case T => TextMode.TextIsUnlatched(part);
    case N => NumericMode.NumericInBase(part);
    case B => ByteMode.ByteInBase(part);
  }

  lemma BodyReadsBack(text: seq<byte>, s: Segment)
    requires 0 <= s.start < s.end <= |text| && Numeric(text, s)
    ensures ReadRun(Latch(s), Body(s.kind, Part(text, s))) == Reading(text, s)
  {
    hide TextMode.TextCodewords, NumericMode.NumericCodewords, ByteMode.ByteCodewords;
    hide TextMode.ReadText, NumericMode.ReadNumeric, ByteMode.ReadBytes;
    match s.kind
    case T =>
    case N => NumericMode.NumericRoundTrip(Part(text, s));
    case B => ByteMode.ByteRoundTrip(Part(text, s));
  }

  lemma {:induction false} SegmentsReadBack(text: seq<byte>, list: seq<Segment>, i: nat)
    requires Encodable(text, list) && i < |list|
    ensures ReadStream(Latch(list[i]), Body(list[i].kind, Part(text, list[i])) + Message(text, list, i + 1))
            == Readings(text, list, i)
    decreases |list| - i
  {
    hide ReadStream, ReadRun, Body, Latch, Reading;
    var s := list[i];
    var body, rest := Body(s.kind, Part(text, s)), Message(text, list, i + 1);
    BodyHasNoLatch(s.kind, Part(text, s));
    BodyReadsBack(text, s);
    if i + 1 < |list| {
      LatchIsLatch(list[i + 1]);
      SegmentsReadBack(text, list, i + 1);
      assert rest[1..] == Body(list[i + 1].kind, Part(text, list[i + 1])) + Message(text, list, i + 2);
    }
    ReadStreamRun(Latch(s), body, rest);
  }

  lemma LatchIsLatch(s: Segment)
    ensures IsLatch(Latch(s))
  {}

  lemma MessageReadsBack(text: seq<byte>, list: seq<Segment>)
    requires Encodable(text, list)
    ensures ReadMessage(Message(text, list, 0)) == Readings(text, list, 0)
  {
    hide ReadStream, ReadRun, Body, Reading;
    var m := Message(text, list, 0);
    if list == [] {
      ReadStreamRun(TEXT_MODE, [], []);
      EmptyRun();
      assert [] + m == m;
    } else {
      SegmentsReadBack(text, list, 0);
      var s := list[0];
      var after := Body(s.kind, Part(text, s)) + Message(text, list, 1);
      if s.kind == T {
        assert m == after;
      } else {
        LatchIsLatch(s);
        assert m == [] + ([Latch(s)] + after);
        ReadStreamRun(TEXT_MODE, [], [Latch(s)] + after);
        EmptyRun();
      }
    }
  }

  lemma EmptyRun()
    ensures ReadRun(TEXT_MODE, []) == []
  {}

  // How many codewords of a stream are mode latches.
  function Latches(cws: seq<int>): nat {
    if cws == [] then 0 else (if IsLatch(cws[0]) then 1 else 0) + Latches(cws[1..])
  }

  lemma {:induction false} LatchesAppend(a: seq<int>, b: seq<int>)
    ensures Latches(a + b) == Latches(a) + Latches(b)
  {
    if a == [] {
      assert a + b == b;
    } else {
      assert (a + b)[1..] == a[1..] + b;
      LatchesAppend(a[1..], b);
    }
  }

  lemma {:induction false} NoLatches(cws: seq<int>)
    requires forall i :: 0 <= i < |cws| ==> !IsLatch(cws[i])
    ensures Latches(cws) == 0
  {
    if cws != [] { NoLatches(cws[1..]); }
  }

  // A message holds one latch a segment and no more, and none for a text
  // segment that comes first.
  lemma {:induction false} OneLatchEach(text: seq<byte>, list: seq<Segment>, i: nat)
    requires Encodable(text, list) && i <= |list|
    ensures Latches(Message(text, list, i)) == |list| - i - if i == 0 && list != [] && list[0].kind == T then 1 else 0
    decreases |list| - i
  {
    hide Body, Latch, IsLatch;
    MessageUnfold(text, list, i);
    if i < |list| {
      var s := list[i];
      var body := Body(s.kind, Part(text, s));
      var head := if i == 0 && s.kind == T then [] else [Latch(s)];
      LatchIsLatch(s);
      assert Latches(head) == |head|;
      BodyHasNoLatch(s.kind, Part(text, s));
      NoLatches(body);
      LatchesAppend(head, body);
      LatchesAppend(head + body, Message(text, list, i + 1));
      OneLatchEach(text, list, i + 1);
    }
  }

  // ----- When the text comes back -----

  // Is there a NUL in a text segment?
  ghost predicate NulInText(text: seq<byte>, list: seq<Segment>, i: nat)
    requires Encodable(text, list)
  {
    exists j :: i <= j < |list| && list[j].kind == T && 0 in Part(text, list[j])
  }

  // The reader never makes up a NUL, so every one in a text segment is lost.
  lemma {:induction false} NulsAreLost(text: seq<byte>, list: seq<Segment>, i: nat)
    requires Encodable(text, list) && i <= |list|
    ensures multiset(Readings(text, list, i))[0] <= multiset(Content(text, list, i))[0]
    ensures NulInText(text, list, i) ==>
              multiset(Readings(text, list, i))[0] < multiset(Content(text, list, i))[0]
    ensures !NulInText(text, list, i) ==> Readings(text, list, i) == Content(text, list, i)
    decreases |list| - i
  {
    hide TextMode.ReadText, TextMode.TextCodewords;
    if i < |list| {
      var part, reading := Part(text, list[i]), Reading(text, list[i]);
      NulsAreLost(text, list, i + 1);
      assert multiset(Readings(text, list, i)) == multiset(reading) + multiset(Readings(text, list, i + 1));
      assert multiset(Content(text, list, i)) == multiset(part) + multiset(Content(text, list, i + 1));
      if list[i].kind == T {
        TextMode.TextRoundTrip(part);
        TextMode.TextReadsNoNul(part);
        assert 0 !in multiset(reading);
        assert 0 in part <==> 0 in multiset(part);
      }
    }
  }

  lemma {:induction false} ContentIsSlice(text: seq<byte>, list: seq<Segment>, i: nat)
    requires Encodable(text, list) && Contiguous(list) && i < |list|
    ensures list[i].start <= EndOf(list) <= |text|
    ensures Content(text, list, i) == text[list[i].start..EndOf(list)]
    decreases |list| - i
  {
    hide Numeric;
    if i + 1 < |list| {
      ContentIsSlice(text, list, i + 1);
      assert list[i].end == list[i + 1].start;
    }
  }

  // For every segment list that covers a prefix of the text without gaps,
  // reading the message gives that prefix, exactly when no text segment holds
  // a NUL; it gives the whole text exactly when, besides, nothing is missing.
  lemma MessageRoundTrip(text: seq<byte>, list: seq<Segment>)
    requires Encodable(text, list) && Contiguous(list) && list != []
    ensures EndOf(list) <= |text|
    ensures ReadMessage(Message(text, list, 0)) == text[..EndOf(list)] <==> !NulInText(text, list, 0)
    ensures ReadMessage(Message(text, list, 0)) == text
            <==> !NulInText(text, list, 0) && EndOf(list) == |text|
  {
    hide ReadMessage, Message, Readings, Content, NulInText, Encodable;
    MessageReadsBack(text, list);
    NulsAreLost(text, list, 0);
    ContentIsSlice(text, list, 0);
    var e := EndOf(list);
    assert text[0..e] == text[..e];
    assert text == text[..e] + text[e..];
    assert multiset(text) == multiset(text[..e]) + multiset(text[e..]);
  }

  // ----- Padding, range, and the whole of breakString -----

  function Pads(n: nat): (p: seq<int>)
    ensures |p| == n && forall i :: 0 <= i < n ==> p[i] == 900
  {
    seq(n, _ => TEXT_MODE)
  }

  lemma {:induction false} OnePadIsSilent(latch: int, cws: seq<int>)
    ensures ReadStream(latch, cws + [TEXT_MODE]) == ReadStream(latch, cws)
    decreases |cws|
  {
    hide ReadRun, RunLength;
    var n := RunLength(cws);
    var run, rest := cws[..n], cws[n..];
    assert forall i :: 0 <= i < |run| ==> run[i] == cws[i];
    assert run + rest == cws && run + (rest + [TEXT_MODE]) == cws + [TEXT_MODE];
    ReadStreamRun(latch, run, rest);
    ReadStreamRun(latch, run, rest + [TEXT_MODE]);
    if rest != [] {
      OnePadIsSilent(rest[0], rest[1..]);
      assert (rest + [TEXT_MODE])[1..] == rest[1..] + [TEXT_MODE];
    } else {
      assert (rest + [TEXT_MODE])[1..] == [];
      EmptyStream();
    }
  }

  lemma EmptyStream()
    ensures ReadStream(TEXT_MODE, []) == []
  {
    EmptyRun();
  }

  // The text latches that fill up a symbol add nothing to the message.
  lemma {:induction false} PadsAreSilent(cws: seq<int>, n: nat)
    ensures ReadMessage(cws + Pads(n)) == ReadMessage(cws)
    decreases n
  {
    hide ReadStream;
    if n == 0 {
      assert cws + Pads(0) == cws;
    } else {
      PadsAreSilent(cws, n - 1);
      OnePadIsSilent(TEXT_MODE, cws + Pads(n - 1));
      assert cws + Pads(n) == (cws + Pads(n - 1)) + [TEXT_MODE];
    }
  }

  // Every codeword is one the symbol's pattern tables have an entry for.
  lemma {:induction false} MessageInRange(text: seq<byte>, list: seq<Segment>, i: nat)
    requires Encodable(text, list) && i <= |list|
    ensures forall j :: 0 <= j < |Message(text, list, i)| ==> 0 <= Message(text, list, i)[j] < 929
    decreases |list| - i
  {
    hide Body, Latch, Numeric;
    if i < |list| {
      LatchIsLatch(list[i]);
      NumericPart(text, list[i]);
      BodyInRange(list[i].kind, Part(text, list[i]));
      MessageInRange(text, list, i + 1);
    }
  }

  lemma NumericPart(text: seq<byte>, s: Segment)
    requires 0 <= s.start < s.end <= |text| && Numeric(text, s)
    ensures s.kind == N ==> IsDigits(Part(text, s))
  {}

  lemma BodyInRange(kind: Kind, part: seq<byte>)
    requires kind == N ==> IsDigits(part)
    ensures forall j :: 0 <= j < |Body(kind, part)| ==> 0 <= Body(kind, part)[j] < 929
  {
    hide TextMode.TextCodewords, NumericMode.NumericCodewords, ByteMode.ByteCodewords;
    match kind
    case T => TextMode.TextIsUnlatched(part);
    case N => NumericMode.NumericInBase(part);
    case B => ByteMode.ByteInBase(part);
  }

  lemma SegmentsAreEncodable(text: seq<byte>)
    ensures var list := Segments(text);
            && Encodable(text, list) && Contiguous(list) && EndOf(list) <= |text|
            && (EndOf(list) == |text| <==> !LosesText(text))
            && (text != [] ==> list != [])
  {
    hide AfterBinary, LosesText;
    BreakStringCovers(text);
    InBounds(AfterBinary(text), |text|);
  }

  // The whole encoder, from text to codewords and back: for every nonempty
  // text the reader gets it back exactly when no merge pass dropped its end
  // and no NUL ended up in a text segment.
  lemma EncoderRoundTrip(text: seq<byte>)
    requires text != []
    ensures var list := Segments(text);
            && Encodable(text, list)
            && (ReadMessage(Message(text, list, 0)) == text <==> !LosesText(text) && !NulInText(text, list, 0))
  {
    hide Segments, LosesText, Encodable, Contiguous, EndOf, NulInText, ReadMessage, Message;
    SegmentsAreEncodable(text);
    MessageRoundTrip(text, Segments(text));
  }

  lemma NoNulNoneInText(text: seq<byte>, list: seq<Segment>)
    requires Encodable(text, list) && 0 !in text
    ensures !NulInText(text, list, 0)
  {
    hide Numeric;
  }

  // Text without a NUL comes back exactly when no merge pass drops its end.
  lemma RoundTripWithoutNul(text: seq<byte>)
    requires text != [] && 0 !in text
    ensures Encodable(text, Segments(text))
    ensures ReadMessage(Message(text, Segments(text), 0)) == text <==> !LosesText(text)
  {
    hide Segments, LosesText, Encodable, NulInText, ReadMessage, Message;
    EncoderRoundTrip(text);
    NoNulNoneInText(text, Segments(text));
  }

  // A NUL between letters: no end is dropped, and yet the text does not come
  // back.
  lemma LostNulExample()
    ensures var text: seq<byte> := [97, 98, 99, 0, 100, 101, 102];
            && Encodable(text, Segments(text)) && !LosesText(text) && NulInText(text, Segments(text), 0)
            && ReadMessage(Message(text, Segments(text), 0)) != text
  {
    hide Segments, LosesText, ReadMessage, Message;
    var text: seq<byte> := [97, 98, 99, 0, 100, 101, 102];
    EncoderRoundTrip(text);
    NulExample();
    assert Part(text, Segments(text)[0])[3] == 0;
  }

  // Text of printable characters, CR, LF and TAB always comes back.
  lemma PlainTextRoundTrip(text: seq<byte>, pads: nat)
    requires text != []
    requires forall i :: 0 <= i < |text| ==> 32 <= text[i] <= 126 || text[i] == 9 || text[i] == 10 || text[i] == 13
    ensures Encodable(text, Segments(text))
    ensures ReadMessage(Message(text, Segments(text), 0) + Pads(pads)) == text
  {
    hide Segments, LosesText, ReadMessage, Message;
    EncoderRoundTrip(text);
    PlainTextIsKept(text);
    PadsAreSilent(Message(text, Segments(text), 0), pads);
  }

  // ----- The code -----

  method AssembleOne(p: Encoder, v: Segment, k: nat)
    requires p.Valid() && 1 <= p.cwPtr <= MAX_DATA_CODEWORDS && p.error == Success
    requires |p.text| <= ABSOLUTE_MAX_TEXT_SIZE
    requires 0 <= v.start < v.end <= |p.text| && Numeric(p.text, v)
    modifies p, p.codewords
    ensures p.Valid()
    ensures var m := (if k == 0 && v.kind == T then [] else [Latch(v)]) + Body(v.kind, Part(p.text, v));
            if old(p.cwPtr) + |m| > MAX_DATA_CODEWORDS then p.error == TextTooBig
            else p.error == Success && p.cwPtr == old(p.cwPtr) + |m| && p.Written() == old(p.Written()) + m
  {
    hide TextMode.TextCodewords, NumericMode.NumericCodewords, ByteMode.ByteCodewords;
    match v.kind
    case T =>
      if k != 0 {
        p.codewords[p.cwPtr] := TEXT_MODE;
        p.cwPtr := p.cwPtr + 1;
      }
      TextCompaction.TextCompact(p, v.start, v.end - v.start);
    case N =>
      p.codewords[p.cwPtr] := NUMERIC_MODE;
      p.cwPtr := p.cwPtr + 1;
      NumericMode.NumberCompaction(p, v.start, v.end - v.start);
    case B =>
      p.codewords[p.cwPtr] := if (v.end - v.start) % 6 != 0 then BYTE_MODE else BYTE_MODE_6;
      p.cwPtr := p.cwPtr + 1;
      ByteMode.ByteCompaction(p, v.start, v.end - v.start);
  }

  // Writes codewords[1..]; the first is set when the length is known.
  method Assemble(p: Encoder, list: ArrayList)
    requires p.Valid() && p.error == Success && list.Valid()
    requires |p.text| <= ABSOLUTE_MAX_TEXT_SIZE
    requires Encodable(p.text, list.Elements())
    requires p.codewords as object != list.store
    modifies p, p.codewords
    ensures p.Valid()
    ensures list.size == 0 ==> p.error == Success && p.cwPtr == old(p.cwPtr) && p.codewords[..] == old(p.codewords[..])
    ensures list.size != 0 ==>
      var m := Message(p.text, list.Elements(), 0);
      if 1 + |m| > MAX_DATA_CODEWORDS then p.error == TextTooBig
      else p.error == Success && p.cwPtr == 1 + |m| && p.codewords[1..p.cwPtr] == m
  {
    hide Body, Latch, Numeric, Message;
    if list.size == 0 {
      return;
    }
    p.cwPtr := 1;
    ghost var first := [p.codewords[0]];
    ghost var els := list.Elements();
    ghost var m := Message(p.text, els, 0);
    for k := 0 to list.size
      invariant p.Valid() && p.error == Success && list.Valid()
      invariant list.Elements() == els && list.size == |els|
      invariant 1 <= p.cwPtr <= MAX_DATA_CODEWORDS
      invariant p.Written() + Message(p.text, els, k) == first + m
    {
      ghost var before := p.Written();
      var v := list.store[k];
      assert v == els[k];
      MessageUnfold(p.text, els, k);
      AssembleOne(p, v, k);
      if p.error != Success {
        assert |before + Message(p.text, els, k)| == 1 + |m|;
        return;
      }
    }
    MessageUnfold(p.text, els, |els|);
    assert p.Written() == first + m;
  }

  lemma MessageUnfold(text: seq<byte>, list: seq<Segment>, i: nat)
    requires Encodable(text, list) && i <= |list|
    ensures i == |list| ==> Message(text, list, i) == []
    ensures i < |list| ==>
      (list[i].kind == N ==> IsDigits(Part(text, list[i])))
      && Message(text, list, i)
         == (if i == 0 && list[i].kind == T then [] else [Latch(list[i])])
            + Body(list[i].kind, Part(text, list[i])) + Message(text, list, i + 1)
  {}
}
