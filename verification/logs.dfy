/**
 * Decoding a framed container log into its last lines (container/service.go). Text is a sequence of bytes, as in Go.
 */
module LogLines {

  type Byte = b: int | 0 <= b < 256

  type Bytes = seq<Byte>

  const LF: Byte := 10
  const CR: Byte := 13
  const HEADER_SIZE: nat := 8
  const SIZE_LIMIT: int := 0x1_0000_0000

  // ------------------------------------------------------------------ lines of a text

  /** `strings.TrimRight(s, "\r")`. */
  function TrimCR(s: Bytes): Bytes {
    if s != [] && s[|s| - 1] == CR then TrimCR(s[..|s| - 1]) else s
  }

  /** `strings.TrimRight(s, "\r\n")`. */
  function TrimCRLF(s: Bytes): Bytes {
    if s != [] && (s[|s| - 1] == CR || s[|s| - 1] == LF) then TrimCRLF(s[..|s| - 1]) else s
  }

  function FirstLF(s: Bytes): (i: nat)
    ensures i <= |s| && LF !in s[..i] && (i < |s| ==> s[i] == LF)
  {
    if s == [] || s[0] == LF then 0
    else
      var rest := FirstLF(s[1..]);
      assert s[..rest + 1] == [s[0]] + s[1..][..rest];
      rest + 1
  }

  /** The line a segment between line feeds stands for, if it is not empty. */
  function Clean(segment: Bytes): seq<Bytes> {
    var line := TrimCR(segment);
    if line == [] then [] else [line]
  }

  /** The non-empty lines of a text, trailing carriage returns stripped: the reference the decoder is held to. */
  function Lines(text: Bytes): seq<Bytes> {
    var i := FirstLF(text);
    if i == |text| then Clean(text) else Clean(text[..i]) + Lines(text[i + 1..])
  }

  /** The last `max` lines, or all of them when `max` is not positive. */
  function Last(lines: seq<Bytes>, max: int): seq<Bytes> {
    if 0 < max < |lines| then lines[|lines| - max..] else lines
  }

  /** What follows the last line feed. */
  function Tail(text: Bytes): Bytes {
    if text == [] || text[|text| - 1] == LF then [] else Tail(text[..|text| - 1]) + [text[|text| - 1]]
  }

  /** The non-empty lines that are complete, that is, ended by a line feed. */
  function Complete(text: Bytes): seq<Bytes> {
    if text == [] then []
    else
      var front := text[..|text| - 1];
      if text[|text| - 1] == LF then Complete(front) + Clean(Tail(front)) else Complete(front)
  }

  lemma AppendByte(text: Bytes, b: Byte)
    ensures Tail(text + [b]) == if b == LF then [] else Tail(text) + [b]
    ensures Complete(text + [b]) == if b == LF then Complete(text) + Clean(Tail(text)) else Complete(text)
  {
    assert (text + [b])[..|text|] == text;
  }

  /** A part without line feeds only lengthens the tail. */
  lemma {:induction false} AppendPlain(text: Bytes, part: Bytes)
    requires LF !in part
    ensures Tail(text + part) == Tail(text) + part && Complete(text + part) == Complete(text)
  {
    hide Tail, Complete, Clean;
    if part == [] {
      assert text + part == text;
    } else {
      var front, b := part[..|part| - 1], part[|part| - 1];
      AppendPlain(text, front);
      AppendByte(text + front, b);
      assert text + part == (text + front) + [b];
    }
  }

  /** `more` seen after `text` adds what it adds on its own. */
  predicate Adds(text: Bytes, more: Bytes) {
    Tail(text + more) == Tail(more) && Complete(text + more) == Complete(text) + Complete(more)
  }

  lemma AddsNothing(text: Bytes)
    requires text == [] || text[|text| - 1] == LF
    ensures Adds(text, [])
  {
    assert text + [] == text;
  }

  lemma AddsByte(text: Bytes, front: Bytes, b: Byte)
    requires Adds(text, front)
    ensures Adds(text, front + [b])
  {
    hide Tail, Complete, Clean;
    var seen, all := text + front, text + (front + [b]);
    assert all == seen + [b];
    assert Tail(all) == Tail(front + [b]) by {
      AppendByte(seen, b);
      AppendByte(front, b);
    }
    assert Complete(all) == Complete(text) + Complete(front + [b]) by {
      AppendByte(seen, b);
      AppendByte(front, b);
      if b == LF { Regroup(Complete(text), Complete(front), Clean(Tail(front))); }
    }
  }

  lemma {:induction false} AppendAfterLineFeed(text: Bytes, more: Bytes)
    requires text == [] || text[|text| - 1] == LF
    ensures Adds(text, more)
  {
    hide Adds;
    if more == [] {
      AddsNothing(text);
    } else {
      AppendAfterLineFeed(text, more[..|more| - 1]);
      AddsByte(text, more[..|more| - 1], more[|more| - 1]);
      assert more == more[..|more| - 1] + [more[|more| - 1]];
    }
  }

  lemma Regroup(a: seq<Bytes>, b: seq<Bytes>, c: seq<Bytes>)
    ensures (a + b) + c == a + (b + c)
  {
  }

  lemma NothingSeen()
    ensures Tail([]) == [] && Complete([]) == []
  {
  }

  /** A text without line feeds is all tail. */
  lemma OnlyTail(text: Bytes)
    requires LF !in text
    ensures Tail(text) == text && Complete(text) == []
  {
    NothingSeen();
    AppendPlain([], text);
    hide *;
    assert [] + text == text;
  }

  /** The first line of a text, and then the rest. */
  lemma FirstLine(first: Bytes, rest: Bytes)
    requires LF !in first
    ensures Tail((first + [LF]) + rest) == Tail(rest)
    ensures Complete((first + [LF]) + rest) == Clean(first) + Complete(rest)
  {
    OnlyTail(first);
    AppendByte(first, LF);
    AppendAfterLineFeed(first + [LF], rest);
    hide Tail, Complete, Clean;
    assert [] + Clean(first) == Clean(first);
  }

  lemma LinesFirst(text: Bytes)
    ensures var i := FirstLF(text);
            Lines(text) == if i == |text| then Clean(text) else Clean(text[..i]) + Lines(text[i + 1..])
  {
    hide Clean, FirstLF;
    var i := FirstLF(text);
    if i < |text| {
      var first, rest := Clean(text[..i]), Lines(text[i + 1..]);
      assert Lines(text) == first + rest;
    }
  }

  /** The complete lines and the tail make up the lines of the reference. */
  lemma {:induction false} LinesAreCompletePlusTail(text: Bytes)
    ensures Lines(text) == Complete(text) + Clean(Tail(text))
    decreases |text|
  {
    hide *;
    LinesFirst(text);
    var i := FirstLF(text);
    if i == |text| {
      assert text[..i] == text;
      OnlyTail(text);
    } else {
      var first, rest := text[..i], text[i + 1..];
      assert text == (first + [LF]) + rest;
      FirstLine(first, rest);
      LinesAreCompletePlusTail(rest);
      Regroup(Clean(first), Complete(rest), Clean(Tail(rest)));
    }
  }

  lemma {:induction false} TailHasNoLineFeed(text: Bytes)
    ensures LF !in Tail(text)
  {
    if text != [] && text[|text| - 1] != LF { TailHasNoLineFeed(text[..|text| - 1]); }
  }

  lemma {:induction false} TrimWithoutLineFeed(s: Bytes)
    requires LF !in s
    ensures TrimCRLF(s) == TrimCR(s) && TrimCR(TrimCR(s)) == TrimCR(s)
  {
    if s != [] && s[|s| - 1] == CR { TrimWithoutLineFeed(s[..|s| - 1]); }
  }

  lemma TrimPending(tail: Bytes, ended: bool)
    requires LF !in tail
    ensures TrimCR(TrimCRLF(if ended then tail + [LF] else tail)) == TrimCR(tail)
  {
    TrimWithoutLineFeed(tail);
    assert (tail + [LF])[..|tail|] == tail;
  }

  /** In bytes: a line ends at a 10 or with the text, loses the 13s at its end, and counts if anything remains. */
  lemma LineByLine(line: Bytes, returned: Bytes, rest: Bytes)
    requires 10 !in line && (line == [] || line[|line| - 1] != 13)
    requires forall i :: 0 <= i < |returned| ==> returned[i] == 13
    ensures Lines(line + returned) == if line == [] then [] else [line]
    ensures Lines((line + returned) + ([10] + rest)) == (if line == [] then [] else [line]) + Lines(rest)
  {
    var segment := line + returned;
    TrimReturns(line, returned);
    assert LF !in segment;
    assert segment[..|segment|] == segment;
    LinesFirst(segment);
    LinesFirst(segment + ([10] + rest));
    FirstLFAt(segment, rest);
    hide FirstLF;
  }

  lemma {:induction false} TrimReturns(line: Bytes, returned: Bytes)
    requires (line == [] || line[|line| - 1] != 13) && forall i :: 0 <= i < |returned| ==> returned[i] == 13
    ensures TrimCR(line + returned) == line
  {
    if returned == [] {
      assert line + returned == line;
    } else {
      TrimReturns(line, returned[..|returned| - 1]);
      assert (line + returned)[..|line + returned| - 1] == line + returned[..|returned| - 1];
    }
  }

  lemma {:induction false} FirstLFAt(segment: Bytes, rest: Bytes)
    requires LF !in segment
    ensures FirstLF(segment) == |segment| && FirstLF(segment + ([LF] + rest)) == |segment|
    ensures (segment + ([LF] + rest))[..|segment|] == segment && (segment + ([LF] + rest))[|segment| + 1..] == rest
  {
    if segment == [] {
      assert segment + ([LF] + rest) == [LF] + rest;
    } else {
      FirstLFAt(segment[1..], rest);
      assert (segment + ([LF] + rest))[1..] == segment[1..] + ([LF] + rest);
    }
  }

  /** The last lines are the end of the list, `max` of them at most when `max` is positive. */
  lemma LastAreAtTheEnd(lines: seq<Bytes>, max: int)
    ensures exists n :: 0 <= n <= |lines| && lines[n..] == Last(lines, max)
                        && (if 0 < max < |lines| then |lines| - n == max else n == 0)
  {
    assert lines[0..] == lines;
    if 0 < max < |lines| { assert lines[|lines| - max..] == Last(lines, max); }
  }

  lemma LastOfLast(lines: seq<Bytes>, line: Bytes, max: int)
    ensures Last(Last(lines, max) + [line], max) == Last(lines + [line], max)
  {
  }

  // ------------------------------------------------------------------ the collector

  /** `strings.SplitAfter(chunk, "\n")`. */
  function SplitAfter(chunk: Bytes): (parts: seq<Bytes>)
    ensures forall p :: p in parts ==> LF !in p || (p[|p| - 1] == LF && LF !in p[..|p| - 1])
  {
    var i := FirstLF(chunk);
    if i == |chunk| then
      assert chunk[..i] == chunk;
      [chunk]
    else
      assert chunk[..i + 1][..i] == chunk[..i];
      [chunk[..i + 1]] + SplitAfter(chunk[i + 1..])
  }

  function Joined(parts: seq<Bytes>): Bytes {
    if parts == [] then [] else Joined(parts[..|parts| - 1]) + parts[|parts| - 1]
  }

  lemma {:induction false} JoinedCons(part: Bytes, parts: seq<Bytes>)
    ensures Joined([part] + parts) == part + Joined(parts)
  {
    if parts == [] {
      assert [part] + parts == [part] && Joined([part][..0]) == [];
    } else {
      var front, last := parts[..|parts| - 1], parts[|parts| - 1];
      JoinedCons(part, front);
      JoinedAppend(front, last);
      JoinedAppend([part] + front, last);
      hide *;
      assert parts == front + [last];
      assert [part] + parts == ([part] + front) + [last];
      Assoc(part, Joined(front), last);
    }
  }

  lemma JoinedAppend(parts: seq<Bytes>, last: Bytes)
    ensures Joined(parts + [last]) == Joined(parts) + last
  {
    assert (parts + [last])[..|parts|] == parts;
  }

  lemma Assoc(a: Bytes, b: Bytes, c: Bytes)
    ensures (a + b) + c == a + (b + c)
  {
  }

  lemma JoinedOne(part: Bytes)
    ensures Joined([part]) == part
  {
    assert Joined([part][..0]) == [];
  }

  lemma SplitAfterFirst(chunk: Bytes)
    ensures var i := FirstLF(chunk);
            SplitAfter(chunk) == if i == |chunk| then [chunk] else [chunk[..i + 1]] + SplitAfter(chunk[i + 1..])
  {
  }

  lemma {:induction false} SplitAfterJoins(chunk: Bytes)
    ensures Joined(SplitAfter(chunk)) == chunk
    decreases |chunk|
  {
    hide *;
    var i := FirstLF(chunk);
    SplitAfterFirst(chunk);
    if i == |chunk| {
      JoinedOne(chunk);
    } else {
      SplitAfterJoins(chunk[i + 1..]);
      JoinedCons(chunk[..i + 1], SplitAfter(chunk[i + 1..]));
    }
  }

  class LogLineCollector {
    const maxLines: int
    var lines: seq<Bytes>
    var pending: Bytes

    constructor (maxLines: int)
      ensures this.maxLines == maxLines && HasSeen([])
    {
      this.maxLines := maxLines;
      lines, pending := [], [];
    }

    /** The collector's state after it has been given `text`, in whatever chunks. */
    ghost predicate HasSeen(text: Bytes)
      reads this
    {
      pending == Tail(text) && lines == Last(Complete(text), maxLines)
    }

    method AddLine(raw: Bytes)
      modifies this`lines
      ensures var line := TrimCR(raw);
              lines == if line == [] then old(lines) else Last(old(lines) + [line], maxLines)
    {
      var line := TrimCR(raw);
      if line == [] { return; }
      lines := lines + [line];
      if maxLines > 0 && |lines| > maxLines {
        lines := lines[|lines| - maxLines..];
      }
    }

    method Flush()
      modifies this
      ensures pending == []
      ensures var line := TrimCR(TrimCRLF(old(pending)));
              lines == if line == [] then old(lines) else Last(old(lines) + [line], maxLines)
    {
      if pending == [] { return; }
      AddLine(TrimCRLF(pending));
      pending := [];
    }

    method AddPart(part: Bytes, ghost text: Bytes)
      requires HasSeen(text) && (LF !in part || (part[|part| - 1] == LF && LF !in part[..|part| - 1]))
      modifies this
      ensures HasSeen(text + part)
    {
      pending := pending + part;
      TailHasNoLineFeed(text);
      if part != [] && part[|part| - 1] == LF {
        ghost var body := part[..|part| - 1];
        assert part == body + [LF] && pending == (Tail(text) + body) + [LF] && text + part == (text + body) + [LF];
        AppendPlain(text, body);
        AppendByte(text + body, LF);
        TrimPending(Tail(text) + body, true);
        hide Tail, Complete, TrimCR, TrimCRLF;
        LastOfLast(Complete(text), TrimCR(Tail(text) + body), maxLines);
        Flush();
        AddedLine(Complete(text), Tail(text) + body, maxLines);
      } else {
        AppendPlain(text, part);
      }
    }

    method AddChunk(chunk: Bytes, ghost text: Bytes)
      requires HasSeen(text)
      modifies this
      ensures HasSeen(text + chunk)
    {
      hide HasSeen;
      var parts := SplitAfter(chunk);
      assert text + Joined(parts[..0]) == text;
      for i := 0 to |parts|
        invariant HasSeen(text + Joined(parts[..i]))
      {
        assert parts[..i + 1][..i] == parts[..i];
        assert parts[i] in parts;
        AddPart(parts[i], text + Joined(parts[..i]));
        assert text + Joined(parts[..i]) + parts[i] == text + Joined(parts[..i + 1]);
      }
      assert parts[..|parts|] == parts;
      SplitAfterJoins(chunk);
    }

    /** The final flush adds the unfinished last line. */
    method Finish(ghost text: Bytes)
      requires HasSeen(text)
      modifies this
      ensures lines == Last(Lines(text), maxLines)
    {
      TailHasNoLineFeed(text);
      TrimPending(Tail(text), false);
      LinesAreCompletePlusTail(text);
      hide Tail, Complete, TrimCR, TrimCRLF, Lines;
      LastOfLast(Complete(text), TrimCR(Tail(text)), maxLines);
      Flush();
      AddedLine(Complete(text), Tail(text), maxLines);
    }
  }

  lemma AddedLine(complete: seq<Bytes>, segment: Bytes, max: int)
    ensures var line := TrimCR(segment);
            Last(complete + Clean(segment), max) == if line == [] then Last(complete, max)
                else Last(Last(complete, max) + [line], max)
  {
    hide TrimCR;
    LastOfLast(complete, TrimCR(segment), max);
    assert complete + [] == complete;
  }

  // ------------------------------------------------------------------ frames

  /** `binary.BigEndian.Uint32`. */
  function BigEndian(b: Bytes): (n: int)
    requires |b| == 4
    ensures 0 <= n < SIZE_LIMIT
  {
    ((b[0] as int * 256 + b[1] as int) * 256 + b[2] as int) * 256 + b[3] as int
  }

  function Zeros(n: nat): Bytes {
    seq(n, _ => 0)
  }

  /** The text the frames of a stream carry; a last frame that is cut short is filled up with zero bytes. */
  function FramedText(stream: Bytes): Bytes {
    if |stream| < HEADER_SIZE then []
    else
      var size := BigEndian(stream[4..8]);
      var rest := stream[HEADER_SIZE..];
      if |rest| < size then rest + Zeros(size - |rest|)
      else rest[..size] + FramedText(rest[size..])
  }

  /** The text of a stream that starts with a header, in terms of what follows the header. */
  lemma FramedStep(stream: Bytes)
    requires |stream| >= HEADER_SIZE
    ensures var size, rest := BigEndian(stream[4..8]), stream[HEADER_SIZE..];
            FramedText(stream) == if |rest| < size then rest + Zeros(size - |rest|)
                                  else rest[..size] + FramedText(rest[size..])
    ensures BigEndian(stream[4..8]) == 0 ==> FramedText(stream) == FramedText(stream[HEADER_SIZE..])
  {
    var rest := stream[HEADER_SIZE..];
    hide BigEndian;
    if BigEndian(stream[4..8]) == 0 {
      assert rest[0..] == rest;
      assert rest[..0] + FramedText(rest[0..]) == FramedText(rest);
    }
  }

  lemma NothingFramed(stream: Bytes, text: Bytes)
    requires |stream| < HEADER_SIZE
    ensures text + FramedText(stream) == text
  {
  }

  /** What reading one frame of `stream` after `text` leaves to be read, in all three cases. */
  lemma FrameRead(stream: Bytes, text: Bytes, size: nat, rest: Bytes)
    requires |stream| >= HEADER_SIZE && size == BigEndian(stream[4..8]) && rest == stream[HEADER_SIZE..]
    ensures |rest| < size ==> text + (rest + Zeros(size - |rest|)) == text + FramedText(stream)
    ensures |rest| >= size ==> (text + rest[..size]) + FramedText(rest[size..]) == text + FramedText(stream)
    ensures size == 0 ==> text + FramedText(rest) == text + FramedText(stream)
  {
    FramedStep(stream);
    hide *;
    if |rest| >= size { Assoc(text, rest[..size], FramedText(rest[size..])); }
  }

  method ReadPayload(collector: LogLineCollector, payload: Bytes, ghost text: Bytes, ended: bool)
    requires collector.HasSeen(text)
    modifies collector
    ensures !ended ==> collector.HasSeen(text + payload)
    ensures ended ==> collector.lines == Last(Lines(text + payload), collector.maxLines)
  {
    hide *;
    collector.AddChunk(payload, text);
    if ended { collector.Finish(text + payload); }
  }

  /** One round of the loop: a frame, an empty frame, or a last frame that is cut short. */
  method ReadFrame(collector: LogLineCollector, stream: Bytes, ghost text: Bytes)
    returns (more: bool, rest: Bytes, ghost text': Bytes)
    requires |stream| >= HEADER_SIZE && collector.HasSeen(text)
    modifies collector
    ensures more ==> collector.HasSeen(text') && |rest| < |stream|
    ensures more ==> text' + FramedText(rest) == text + FramedText(stream)
    ensures !more ==> collector.lines == Last(Lines(text + FramedText(stream)), collector.maxLines)
  {
    assert HEADER_SIZE == 8;
    hide *;
    var size := BigEndian(stream[4..8]);
    rest, text' := stream[HEADER_SIZE..], text;
    FrameRead(stream, text, size, rest);
    if size <= 0 { return true, rest, text; }
    if |rest| < size {
      ReadPayload(collector, rest + Zeros(size - |rest|), text, true);
      return false, rest, text;
    }
    ReadPayload(collector, rest[..size], text, false);
    return true, rest[size..], text + rest[..size];
  }

  method ParseDockerFramedLogLines(stream: Bytes, maxLines: int) returns (lines: seq<Bytes>)
    ensures lines == Last(Lines(FramedText(stream)), maxLines)
  {
    hide FramedText, Lines, Last, Tail, Complete;
    var collector := new LogLineCollector(maxLines);
    var rest := stream;
    ghost var text: Bytes := [];
    while |rest| >= HEADER_SIZE
      invariant fresh(collector) && collector.maxLines == maxLines
      invariant collector.HasSeen(text) && text + FramedText(rest) == FramedText(stream)
      decreases |rest|
    {
      var more;
      more, rest, text := ReadFrame(collector, rest, text);
      if !more { return collector.lines; }
    }
    NothingFramed(rest, text);
    collector.Finish(text);
    return collector.lines;
  }

  /** The most significant byte comes first. */
  lemma BigEndianPlaces(a: Byte, b: Byte, c: Byte, d: Byte)
    ensures BigEndian([a, b, c, d])
         == a as int * 0x100_0000 + b as int * 0x1_0000 + c as int * 0x100 + d as int
  {
  }

  datatype Frame = Frame(stream: Byte, payload: Bytes)

  function BigEndianBytes(n: int): (b: Bytes)
    requires 0 <= n < SIZE_LIMIT
    ensures |b| == 4
  {
    [n / 0x100_0000, n / 0x1_0000 % 256, n / 256 % 256, n % 256]
  }

  lemma BigEndianRoundTrip(n: int)
    requires 0 <= n < SIZE_LIMIT
    ensures BigEndian(BigEndianBytes(n)) == n
  {
    assert n / 256 / 256 == n / 0x1_0000 && n / 0x1_0000 / 256 == n / 0x100_0000;
  }

  function Header(stream: Byte, size: int): (h: Bytes)
    requires 0 <= size < SIZE_LIMIT
    ensures |h| == HEADER_SIZE
  {
    [stream, 0, 0, 0] + BigEndianBytes(size)
  }

  ghost predicate Fits(frames: seq<Frame>) {
    forall f :: f in frames ==> |f.payload| < SIZE_LIMIT
  }

  function Encode(frames: seq<Frame>): Bytes
    requires Fits(frames)
  {
    if frames == [] then []
    else Header(frames[0].stream, |frames[0].payload|) + frames[0].payload + Encode(frames[1..])
  }

  function Payloads(frames: seq<Frame>): Bytes {
    if frames == [] then [] else frames[0].payload + Payloads(frames[1..])
  }

  lemma DecodeFrame(kind: Byte, size: int, body: Bytes)
    requires 0 <= size < SIZE_LIMIT
    ensures var stream := Header(kind, size) + body;
            FramedText(stream) == if |body| < size then body + Zeros(size - |body|)
                else body[..size] + FramedText(body[size..])
  {
    var stream := Header(kind, size) + body;
    assert stream[4..8] == BigEndianBytes(size) && stream[HEADER_SIZE..] == body;
    BigEndianRoundTrip(size);
  }

  lemma DecodeOne(f: Frame, rest: Bytes)
    requires |f.payload| < SIZE_LIMIT
    ensures FramedText(Header(f.stream, |f.payload|) + (f.payload + rest)) == f.payload + FramedText(rest)
  {
    var body := f.payload + rest;
    DecodeFrame(f.stream, |f.payload|, body);
    hide *;
    assert body[..|f.payload|] == f.payload;
    assert body[|f.payload|..] == rest;
  }

  lemma {:induction false} DecodeThenRest(frames: seq<Frame>, rest: Bytes)
    requires Fits(frames)
    ensures FramedText(Encode(frames) + rest) == Payloads(frames) + FramedText(rest)
  {
    if frames == [] {
      assert Encode(frames) + rest == rest;
    } else {
      var f, later := frames[0], frames[1..];
      var header := Header(f.stream, |f.payload|);
      assert Encode(frames) == (header + f.payload) + Encode(later) && Payloads(frames) == f.payload + Payloads(later);
      DecodeThenRest(later, rest);
      hide *;
      Assoc(header + f.payload, Encode(later), rest);
      Assoc(header, f.payload, Encode(later) + rest);
      DecodeOne(f, Encode(later) + rest);
      Assoc(f.payload, Payloads(later), FramedText(rest));
    }
  }

  /** Decoding undoes encoding, however the text is cut into frames. */
  lemma DecodeEncode(frames: seq<Frame>)
    requires Fits(frames)
    ensures FramedText(Encode(frames)) == Payloads(frames)
  {
    DecodeThenRest(frames, []);
    assert Encode(frames) + [] == Encode(frames) && Payloads(frames) + [] == Payloads(frames);
  }

  /** Two framings of one text yield the same lines; the lines are those of the text. */
  lemma FramingIsIrrelevant(a: seq<Frame>, b: seq<Frame>, maxLines: int)
    requires Fits(a) && Fits(b) && Payloads(a) == Payloads(b)
    ensures Last(Lines(FramedText(Encode(a))), maxLines) == Last(Lines(FramedText(Encode(b))), maxLines)
    ensures Last(Lines(FramedText(Encode(a))), maxLines) == Last(Lines(Payloads(a)), maxLines)
  {
    DecodeEncode(a);
    DecodeEncode(b);
  }

  /** A stream cut inside a frame: what arrived counts, followed by zero bytes up to the announced size. */
  lemma CutFrameIsPadded(frames: seq<Frame>, kind: Byte, size: int, arrived: Bytes)
    requires Fits(frames) && |arrived| < size < SIZE_LIMIT
    ensures FramedText(Encode(frames) + (Header(kind, size) + arrived))
        == Payloads(frames) + arrived + seq(size - |arrived|, _ => 0)
  {
    DecodeThenRest(frames, Header(kind, size) + arrived);
    DecodeFrame(kind, size, arrived);
    assert Payloads(frames) + (arrived + Zeros(size - |arrived|))
        == Payloads(frames) + arrived + Zeros(size - |arrived|);
  }

  /** A stream cut inside a header loses nothing that was complete. */
  lemma CutHeaderIsDropped(frames: seq<Frame>, arrived: Bytes)
    requires Fits(frames) && |arrived| < HEADER_SIZE
    ensures FramedText(Encode(frames) + arrived) == Payloads(frames)
  {
    DecodeThenRest(frames, arrived);
    assert Payloads(frames) + [] == Payloads(frames);
  }

  /** `looksLikeDockerLogStream`. */
  predicate LooksLikeDockerLogStream(data: Bytes) {
    |data| >= HEADER_SIZE && data[1] == 0 && data[2] == 0 && data[3] == 0
  }

  /** A text without zero bytes is not. */
  lemma TextIsNotRecognised(data: Bytes)
    requires 0 !in data
    ensures !LooksLikeDockerLogStream(data)
  {
  }

  /** Every non-empty series of frames is recognised as a framed stream. */
  lemma EncodedIsRecognised(frames: seq<Frame>)
    requires Fits(frames) && frames != []
    ensures LooksLikeDockerLogStream(Encode(frames))
  {
    var h := Header(frames[0].stream, |frames[0].payload|);
    assert forall i :: 0 <= i < HEADER_SIZE ==> Encode(frames)[i] == h[i];
  }
}
