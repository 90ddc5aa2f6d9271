// linkmod_files.c: frames as base64 lines in a file, and the loop that reads
// them back through a line buffer of fixed size into the frame pipe.

module FramesFile {
  import opened Octets
  import Base64
  import opened Base64Codec
  import opened PointerFifo

  const ETHER_MIN_LEN := 64
  const ETHER_MAX_LEN := 1518
  const PIGEON_LINK_MTU := 170
  const READ_BUFFER_SIZE := PIGEON_LINK_MTU * 10
  const NEWLINE: byte := 10

  // The longest frame whose line, newline included, fits the read buffer.
  const LONGEST_READABLE := 1272

  type Frame = seq<byte>

  // pigeon_frame_new. A short buffer is extended to the minimum length with
  // whatever memory follows it.
  function NewFrame(buffer: seq<byte>, beyond: seq<byte>): (r: Option<Frame>)
    requires |beyond| >= ETHER_MIN_LEN
    ensures r.Some? <==> |buffer| <= 1518
    ensures r.Some? ==> 64 <= |r.value| <= 1518 && buffer <= r.value
    ensures r.Some? && |buffer| >= 64 ==> r.value == buffer
    ensures |buffer| < 64 ==> |r.value| == 64 && r.value[|buffer|..] == beyond[..64 - |buffer|]
  {
    if |buffer| > ETHER_MAX_LEN then None
    else if |buffer| < ETHER_MIN_LEN then Some(buffer + beyond[..ETHER_MIN_LEN - |buffer|])
    else Some(buffer)
  }

  predicate IsFrame(f: Frame) {
    ETHER_MIN_LEN <= |f| <= ETHER_MAX_LEN
  }

  ghost predicate AllFrames(frames: seq<Frame>) {
    forall i :: 0 <= i < |frames| ==> IsFrame(frames[i])
  }

  function Line(f: Frame): seq<byte> {
    Base64.Encode(f) + [NEWLINE]
  }

  function FileOf(frames: seq<Frame>): seq<byte> {
    if frames == [] then [] else Line(frames[0]) + FileOf(frames[1..])
  }

  // fgets: at most size - 1 bytes, up to and with the first newline.
  function Fgets(rest: seq<byte>, size: nat): (line: seq<byte>)
    ensures line <= rest
  {
    if size <= 1 || rest == [] then []
    else if rest[0] == NEWLINE then [NEWLINE]
    else [rest[0]] + Fgets(rest[1..], size - 1)
  }

  function Strlen(line: seq<byte>): (n: nat)
    ensures n <= |line|
  {
    if line == [] || line[0] == 0 then 0 else 1 + Strlen(line[1..])
  }

  lemma {:induction false} FileOfSnoc(frames: seq<Frame>, f: Frame)
    ensures FileOf(frames + [f]) == FileOf(frames) + Line(f)
    decreases |frames|
  {
    hide Line;
    if frames == [] {
      assert [f][1..] == [];
      assert [] + [f] == [f];
      assert Line(f) + [] == Line(f) == [] + Line(f);
    } else {
      FileOfSnoc(frames[1..], f);
      assert (frames + [f])[1..] == frames[1..] + [f];
      assert Line(frames[0]) + (FileOf(frames[1..]) + Line(f)) == (Line(frames[0]) + FileOf(frames[1..])) + Line(f);
    }
  }

  // Reading stops at the newline if it comes early enough, else at the end of
  // the buffer.
  lemma {:induction false} FgetsLine(body: seq<byte>, rest: seq<byte>, size: nat)
    requires size >= 1 && forall i :: 0 <= i < |body| ==> body[i] != NEWLINE
    ensures Fgets(body + [NEWLINE] + rest, size)
            == if |body| + 1 < size then body + [NEWLINE] else if |body| + 1 == size then body else body[..size - 1]
    decreases |body|
  {
    hide Fgets;
    var all := body + [NEWLINE] + rest;
    FgetsFirst(all, size);
    if body == [] {
      assert all[0] == NEWLINE;
    } else if size > 1 {
      FgetsLine(body[1..], rest, size - 1);
      assert all[0] == body[0] && all[1..] == body[1..] + [NEWLINE] + rest;
      assert [body[0]] + body[1..] == body;
      assert [body[0]] + (body[1..] + [NEWLINE]) == body + [NEWLINE];
      assert size - 1 <= |body| ==> [body[0]] + body[1..][..size - 2] == body[..size - 1];
    }
  }

  lemma FgetsFirst(file: seq<byte>, size: nat)
    requires file != []
    ensures Fgets(file, size)
            == if size <= 1 then []
               else if file[0] == NEWLINE then [NEWLINE]
               else [file[0]] + Fgets(file[1..], size - 1)
  {}

  lemma {:induction false} StrlenWithoutNul(line: seq<byte>)
    requires forall i :: 0 <= i < |line| ==> line[i] != 0
    ensures Strlen(line) == |line|
    decreases |line|
  {
    if line != [] { StrlenWithoutNul(line[1..]); }
  }

  // What fgets returns, without its recursion: a beginning of the rest that
  // fits, has no newline before its last place, and stops nowhere else than
  // behind a newline, at the end of the buffer, or at the end of the file.
  lemma {:induction false} FgetsStops(rest: seq<byte>, size: nat)
    requires size >= 1
    ensures var line := Fgets(rest, size);
            && line <= rest && |line| <= size - 1
            && (forall i :: 0 <= i < |line| - 1 ==> line[i] != 10)
            && (line == rest || |line| == size - 1 || (line != [] && line[|line| - 1] == 10))
    decreases |rest|
  {
    hide Fgets;
    if rest == [] {
      FgetsNothing(size);
    } else {
      FgetsFirst(rest, size);
      if size > 1 { FgetsStops(rest[1..], size - 1); }
    }
  }

  lemma FgetsNothing(size: nat)
    ensures Fgets([], size) == []
  {}

  // The length strlen finds: the characters before the first NUL.
  lemma {:induction false} StrlenStops(line: seq<byte>)
    ensures var n := Strlen(line);
            && (forall i :: 0 <= i < n ==> line[i] != 0)
            && (n == |line| || line[n] == 0)
    decreases |line|
  {
    if line != [] { StrlenStops(line[1..]); }
  }

  // The line of a frame fits the buffer exactly when the frame has at most
  // 1272 bytes.
  lemma ReadableFrames(f: Frame)
    ensures |Line(f)| == 4 * ((|f| + 2) / 3) + 1
    ensures |Line(f)| < READ_BUFFER_SIZE <==> |f| <= 1272
  {
    hide Base64.Encode;
  }

  // What one call of fgets sees of a frame's line.
  lemma LineRead(f: Frame, rest: seq<byte>)
    requires f != []
    ensures var line := Fgets(Line(f) + rest, READ_BUFFER_SIZE);
            && Strlen(line) == |line| > 0
            && (|f| <= LONGEST_READABLE ==> line == Line(f) && line[|line| - 1] == NEWLINE)
            && (|f| > LONGEST_READABLE ==> line[|line| - 1] != NEWLINE)
  {
    hide Base64.Encode, Fgets;
    ReadableFrames(f);
    var body := Base64.Encode(f);
    Base64.EncodingIsPrintable(f);
    FgetsLine(body, rest, READ_BUFFER_SIZE);
    StrlenWithoutNul(Fgets(Line(f) + rest, READ_BUFFER_SIZE));
  }

  // The frames before the first one whose line is too long.
  function Readable(frames: seq<Frame>): seq<Frame> {
    if frames == [] || |frames[0]| > LONGEST_READABLE then []
    else [frames[0]] + Readable(frames[1..])
  }

  lemma {:induction false} ReadableIsPrefix(frames: seq<Frame>)
    ensures var r := Readable(frames);
            && r <= frames
            && (|r| < |frames| ==> |frames[|r|]| > 1272)
            && (forall i :: 0 <= i < |r| ==> |r[i]| <= 1272)
    decreases |frames|
  {
    if frames != [] && |frames[0]| <= 1272 {
      ReadableIsPrefix(frames[1..]);
      assert frames == [frames[0]] + frames[1..];
    }
  }

  // Every frame comes back exactly when none has more than 1272 bytes.
  lemma AllReadable(frames: seq<Frame>)
    ensures Readable(frames) == frames <==> forall i :: 0 <= i < |frames| ==> |frames[i]| <= 1272
  {
    hide Readable;
    ReadableIsPrefix(frames);
    if |Readable(frames)| == |frames| {
      assert Readable(frames) == frames;
    }
  }

  // As many frames as a buffer has room for.
  function Accepted(frames: seq<Frame>, room: nat): seq<Frame> {
    if room < |frames| then frames[..room] else frames
  }

  lemma AcceptedCons(f: Frame, rest: seq<Frame>, room: nat)
    ensures room > 0 ==> Accepted([f] + rest, room) == [f] + Accepted(rest, room - 1)
    ensures Accepted([f] + rest, 0) == [] && Accepted(rest, 0) == []
  {}

  // ----- Any file -----

  // A line base64_decode takes: not empty, and of whole groups.
  predicate IsB64(line: seq<byte>) {
    line != [] && |line| % 4 == 0
  }

  // The frame a line stands for, if it is not too long.
  function FrameOf(table: seq<byte>, beyond: seq<byte>, line: seq<byte>): Option<Frame>
    requires |table| == 256 && |beyond| >= ETHER_MIN_LEN && IsB64(line)
  {
    NewFrame(Base64.Decode(table, line), beyond)
  }

  // Does what fgets returned end a line?
  predicate IsWhole(line: seq<byte>) {
    Strlen(line) > 0 && line[Strlen(line) - 1] == NEWLINE
  }

  function WithoutNewline(line: seq<byte>): seq<byte>
    requires IsWhole(line)
  {
    line[..Strlen(line) - 1]
  }

  // Every line up to the first that does not fit the buffer can be decoded.
  predicate Decodable(file: seq<byte>)
    decreases |file|
  {
    var line := Fgets(file, READ_BUFFER_SIZE);
    if line == [] then true
    else if IsWhole(line) then IsB64(WithoutNewline(line)) && Decodable(file[|line|..])
    else Strlen(line) > 0 || Decodable(file[|line|..])
  }

  function ToSeq(f: Option<Frame>): seq<Frame> {
    if f == None then [] else [f.value]
  }

  // The frames of a file, up to the first line that does not fit the buffer. A
  // line that begins with NUL is passed over.
  function Delivered(table: seq<byte>, beyond: seq<byte>, file: seq<byte>): seq<Frame>
    requires |table| == 256 && |beyond| >= ETHER_MIN_LEN && Decodable(file)
    decreases |file|
  {
    var line := Fgets(file, READ_BUFFER_SIZE);
    if line == [] then []
    else if IsWhole(line) then
      ToSeq(FrameOf(table, beyond, WithoutNewline(line))) + Delivered(table, beyond, file[|line|..])
    else if Strlen(line) > 0 then []
    else Delivered(table, beyond, file[|line|..])
  }

  // ----- Line by line -----

  // A line of whole groups that fits: its frame, unless it has more than 1518
  // bytes, and then the lines behind it.
  lemma DecodableLine(table: seq<byte>, beyond: seq<byte>, body: seq<byte>, rest: seq<byte>)
    requires |table| == 256 && |beyond| >= 64 && Decodable(rest)
    requires forall i :: 0 <= i < |body| ==> body[i] != 10 && body[i] != 0
    requires 0 < |body| < 1699 && |body| % 4 == 0
    ensures Decodable(body + [10] + rest)
    ensures var d := Base64.Decode(table, body);
            Delivered(table, beyond, body + [10] + rest)
            == (if |d| > 1518 then [] else if |d| < 64 then [d + beyond[..64 - |d|]] else [d])
               + Delivered(table, beyond, rest)
  {
    hide Base64.Decode, Fgets, Strlen;
    var file, line := body + [10] + rest, body + [10];
    FgetsLine(body, rest, 1700);
    StrlenWithoutNul(line);
    assert line[..|line| - 1] == body && file[|line|..] == rest;
  }

  // A file in which no newline comes early enough delivers nothing more.
  lemma LongLine(table: seq<byte>, beyond: seq<byte>, file: seq<byte>)
    requires |table| == 256 && |beyond| >= 64 && file != [] && file[0] != 0
    requires forall i :: 0 <= i < |file| && i < 1699 ==> file[i] != 10
    ensures Decodable(file) && Delivered(table, beyond, file) == []
  {
    hide Fgets, Strlen;
    FgetsStops(file, 1700);
    StrlenStops(Fgets(file, 1700));
  }

  // A line that begins with NUL is passed over, up to its newline or to the
  // end of the buffer.
  lemma NulLine(table: seq<byte>, beyond: seq<byte>, line: seq<byte>, rest: seq<byte>)
    requires |table| == 256 && |beyond| >= 64 && Decodable(rest)
    requires 0 < |line| < 1700 && line[0] == 0 && (forall i :: 0 <= i < |line| - 1 ==> line[i] != 10)
    requires line[|line| - 1] == 10 || |line| == 1699
    ensures Decodable(line + rest) && Delivered(table, beyond, line + rest) == Delivered(table, beyond, rest)
  {
    hide Fgets, Strlen;
    var file, got := line + rest, Fgets(line + rest, 1700);
    FgetsStops(file, 1700);
    StrlenStops(got);
    assert forall i :: 0 <= i < |got| && i < |line| ==> got[i] == file[i] == line[i];
    assert got == line && file[|line|..] == rest;
  }

  // A file of frames delivers those before the first one whose line is too
  // long, whatever follows in memory and in the rest of the table.
  lemma {:induction false} FramesDelivered(table: seq<byte>, beyond: seq<byte>, frames: seq<Frame>)
    requires Base64.Inverts(table) && |beyond| >= ETHER_MIN_LEN && AllFrames(frames)
    ensures Decodable(FileOf(frames)) && Delivered(table, beyond, FileOf(frames)) == Readable(frames)
    decreases |frames|
  {
    hide Line, Base64.Encode, Base64.Inverts, Base64.Decode, Fgets, Strlen, NewFrame;
    if frames == [] {
      NothingToRead();
    } else {
      var f, rest := frames[0], FileOf(frames[1..]);
      FramesDelivered(table, beyond, frames[1..]);
      LineRead(f, rest);
      LineBody(f, rest);
      Base64.DecodeEncode(table, f);
      FrameIsItself(f, beyond);
    }
  }

  lemma NothingToRead()
    ensures Fgets([], READ_BUFFER_SIZE) == []
  {}

  lemma FrameIsItself(f: Frame, beyond: seq<byte>)
    requires IsFrame(f) && |beyond| >= ETHER_MIN_LEN
    ensures NewFrame(f, beyond) == Some(f)
    ensures f != [] && IsB64(Base64.Encode(f))
  {
    hide Base64.Encode;
  }

  class LinkmodFiles {
    const base64: Codec
    var framesFile: seq<byte>

    ghost predicate Valid()
      reads this, base64, base64.decodingTable
    {
      base64.Valid()
    }

    constructor ()
      ensures Valid() && framesFile == [] && fresh(base64) && fresh(base64.decodingTable)
    {
      base64 := new Codec();
      framesFile := [];
    }

    // _pigeon_frame_to_file: one more line.
    method PigeonFrameToFile(frame: Frame, ghost frames: seq<Frame>)
      requires Valid() && framesFile == FileOf(frames)
      modifies this`framesFile
      ensures Valid() && framesFile == FileOf(frames + [frame])
    {
      hide Base64.Encode, Base64.Inverts, FileOf;
      var b64 := base64.EncodeData(frame);
      framesFile := framesFile + b64[..];
      framesFile := framesFile + [NEWLINE];
      FileOfSnoc(frames, frame);
      assert FileOf(frames) + Base64.Encode(frame) + [NEWLINE] == FileOf(frames) + (Base64.Encode(frame) + [NEWLINE]);
    }

    // _b64_to_pigeon_frame; `beyond` is what follows the decoded bytes in
    // memory.
    method B64ToPigeonFrame(line: seq<byte>, beyond: seq<byte>) returns (frame: Option<Frame>)
      requires Valid() && |beyond| >= ETHER_MIN_LEN && IsB64(line)
      ensures frame == FrameOf(base64.decodingTable[..], beyond, line)
    {
      hide Base64.Decode, NewFrame;
      var decoded := base64.DecodeData(line);
      frame := NewFrame(decoded[..], beyond);
    }

    // A line without its newline: decoded, and pushed if there is room.
    method PushLine(line: seq<byte>, beyond: seq<byte>, fifo: PointerFifo<Frame>)
      requires Valid() && fifo.Valid() && |beyond| >= ETHER_MIN_LEN && IsB64(line)
      requires fifo.buffer as object != base64.decodingTable
      modifies fifo, fifo.buffer
      ensures Valid() && fifo.Valid() && fifo.buffer == old(fifo.buffer)
      ensures base64.decodingTable[..] == old(base64.decodingTable[..])
      ensures var queued := old(fifo.Contents());
              fifo.Contents()
              == queued + Accepted(ToSeq(FrameOf(base64.decodingTable[..], beyond, line)),
                 fifo.buffer.Length - 1 - |queued|)
    {
      hide Base64.Inverts, FrameOf;
      ghost var queued := fifo.Contents();
      assert queued + [] == queued;
      var frame := B64ToPigeonFrame(line, beyond);
      if frame != None {
        var _ := fifo.Push(frame.value);
      }
    }

    // _pop_from_frames_file: what the file delivers is pushed, in order, as far
    // as the pipe has room; then the file is cleared.
    method PopFromFramesFile(fifo: PointerFifo<Frame>, beyond: seq<byte>)
      requires Valid() && fifo.Valid() && |beyond| >= ETHER_MIN_LEN && Decodable(framesFile)
      requires fifo.buffer as object != base64.decodingTable
      modifies this`framesFile, fifo, fifo.buffer
      ensures Valid() && fifo.Valid() && fifo.buffer == old(fifo.buffer)
      ensures base64.decodingTable[..] == old(base64.decodingTable[..])
      ensures fifo.Contents()
              == old(fifo.Contents())
                 + Accepted(Delivered(base64.decodingTable[..], beyond, old(framesFile)),
                            fifo.buffer.Length - 1 - |old(fifo.Contents())|)
      ensures framesFile == []
    {
      hide Base64.Inverts, Fgets, Strlen, Accepted, Delivered, Decodable, FrameOf;
      var pos := 0;
      base64.TableSize();
      ghost var was, size, table := fifo.Contents(), fifo.buffer.Length, base64.decodingTable[..];
      ghost var all := Delivered(table, beyond, framesFile);
      assert framesFile[0..] == framesFile;
      var rawBuffer := Fgets(framesFile[pos..], READ_BUFFER_SIZE);
      while rawBuffer != []
        invariant Valid() && fifo.Valid() && fifo.buffer == old(fifo.buffer) && framesFile == old(framesFile)
        invariant base64.decodingTable[..] == table && |table| == 256
        invariant pos <= |framesFile| && Decodable(framesFile[pos..])
        invariant rawBuffer == Fgets(framesFile[pos..], READ_BUFFER_SIZE)
        invariant fifo.Contents() + Accepted(Delivered(table, beyond, framesFile[pos..]), size - 1 - |fifo.Contents()|)
                  == was + Accepted(all, size - 1 - |was|)
        decreases |framesFile| - pos
      {
        ghost var rest, queued := framesFile[pos..], fifo.Contents();
        DeliveredUnfold(table, beyond, rest);
        var lineLength := Strlen(rawBuffer);
        pos := pos + |rawBuffer|;
        assert framesFile[pos..] == rest[|rawBuffer|..];
        if lineLength > 0 && rawBuffer[lineLength - 1] == NEWLINE {
          lineLength := lineLength - 1;
          ghost var one := ToSeq(FrameOf(table, beyond, rawBuffer[..lineLength]));
          PushLine(rawBuffer[..lineLength], beyond, fifo);
          AcceptedStep(queued, one, Delivered(table, beyond, framesFile[pos..]), size - 1 - |queued|);
        } else if lineLength > 0 {
          AcceptedNothing(size - 1 - |queued|);
          assert queued + [] == queued;
          break;
        }
        rawBuffer := Fgets(framesFile[pos..], READ_BUFFER_SIZE);
      }
      if rawBuffer == [] {
        DeliveredUnfold(table, beyond, framesFile[pos..]);
        AcceptedNothing(size - 1 - |fifo.Contents()|);
        assert fifo.Contents() + [] == fifo.Contents();
      }
      framesFile := [];
    }
  }

  lemma DeliveredUnfold(table: seq<byte>, beyond: seq<byte>, file: seq<byte>)
    requires |table| == 256 && |beyond| >= ETHER_MIN_LEN && Decodable(file)
    ensures var line := Fgets(file, READ_BUFFER_SIZE);
            if line == [] then Delivered(table, beyond, file) == []
            else if IsWhole(line) then
              && IsB64(WithoutNewline(line)) && Decodable(file[|line|..])
              && Delivered(table, beyond, file)
                 == ToSeq(FrameOf(table, beyond, WithoutNewline(line))) + Delivered(table, beyond, file[|line|..])
            else if Strlen(line) > 0 then Delivered(table, beyond, file) == []
            else Decodable(file[|line|..]) && Delivered(table, beyond, file) == Delivered(table, beyond, file[|line|..])
  {
    hide FrameOf, Fgets, Strlen;
  }

  // First one frame or none, then the rest, each as far as there is room.
  lemma AcceptedStep(queued: seq<Frame>, one: seq<Frame>, rest: seq<Frame>, room: nat)
    requires |one| <= 1
    ensures |Accepted(one, room)| <= room
    ensures queued + Accepted(one + rest, room)
            == (queued + Accepted(one, room)) + Accepted(rest, room - |Accepted(one, room)|)
  {
    if one == [] {
      assert one + rest == rest && queued + [] == queued;
    } else if room == 0 {
      assert queued + [] == queued && queued + [] + [] == queued;
    } else {
      AcceptedCons(one[0], rest, room);
      assert one == [one[0]];
      AppendAssociates(queued, one, Accepted(rest, room - 1));
    }
  }

  lemma AcceptedNothing(room: nat)
    ensures Accepted([], room) == []
  {}

  lemma LineBody(f: Frame, rest: seq<byte>)
    ensures |Line(f)| > 0 && Line(f)[..|Line(f)| - 1] == Base64.Encode(f)
    ensures (Line(f) + rest)[|Line(f)|..] == rest
  {
    hide Base64.Encode;
  }

  lemma AppendAssociates<T>(a: seq<T>, b: seq<T>, c: seq<T>)
    ensures a + (b + c) == (a + b) + c
  {}
}
