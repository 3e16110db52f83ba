/** From the server's encoder through any chunking to the client's events. */
module SseDelivery {
  import opened Wrappers
  import opened SseText
  import opened SseParser

  // The events of a list of frames, up to the first frame that throws.
  function Events(decode: Decoder, frames: seq<string>): seq<AgentEvent> {
    if frames == [] then []
    else
      match Frame(decode, frames[0])
      case Failure => []
      case Silent => Events(decode, frames[1..])
      case Event(e) => [e] + Events(decode, frames[1..])
  }

  ghost predicate AllParse(decode: Decoder, frames: seq<string>) {
    forall i :: 0 <= i < |frames| ==> !Frame(decode, frames[i]).Failure?
  }

  lemma {:induction false} EventsAppend(decode: Decoder, a: seq<string>, b: seq<string>)
    ensures AllParse(decode, a) ==> Events(decode, a + b) == Events(decode, a) + Events(decode, b)
    ensures Events(decode, a) <= Events(decode, a + b)
  {
    hide Frame;
    if a == [] {
      assert a + b == b;
    } else {
      EventsAppend(decode, a[1..], b);
      EventsStep(decode, a);
      EventsStep(decode, a + b);
      assert (a + b)[0] == a[0] && (a + b)[1..] == a[1..] + b;
      hide Events;
      assert AllParse(decode, a) ==> AllParse(decode, a[1..]);
    }
  }

  lemma EventsStep(decode: Decoder, frames: seq<string>)
    requires frames != []
    ensures Events(decode, frames) ==
              match Frame(decode, frames[0])
              case Failure => []
              case Silent => Events(decode, frames[1..])
              case Event(e) => [e] + Events(decode, frames[1..])
  {
  }

  // Draining a buffer is splitting it and reading the frames.
  lemma {:induction false} DrainIsSplit(decode: Decoder, s: string)
    ensures Drain(decode, s).failed <==> !AllParse(decode, Split(s).frames)
    ensures !Drain(decode, s).failed ==>
              Drain(decode, s) == Drained(Events(decode, Split(s).frames), Split(s).rest, false)
    decreases |s|
  {
    hide Split, FindBreak, Frame, Drain, Events;
    var found := FindBreak(s);
    DrainStep(decode, s);
    if found.Some? {
      var i := found.value;
      SplitAt(s, i);
      EventsStep(decode, Split(s).frames);
      DrainIsSplit(decode, s[i + 2..]);
      var frames := Split(s).frames;
      assert frames[0] == s[..i] && frames[1..] == Split(s[i + 2..]).frames;
      assert AllParse(decode, frames) <==> !Frame(decode, frames[0]).Failure? && AllParse(decode, frames[1..]) by {
        assert forall k :: 0 < k < |frames| ==> frames[k] == frames[1..][k - 1];
      }
    } else {
      SplitWhole(s);
      NoFramesNoEvents(decode);
    }
  }

  lemma NoFramesNoEvents(decode: Decoder)
    ensures Events(decode, []) == []
  {
  }

  lemma DrainStep(decode: Decoder, s: string)
    ensures var found := FindBreak(s);
            Drain(decode, s) ==
              if found.None? then Drained([], s, false)
              else
                var rest := s[found.value + 2..];
                match Frame(decode, s[..found.value])
                case Failure => Drained([], rest, true)
                case Silent => Drain(decode, rest)
                case Event(e) =>
                  var tail := Drain(decode, rest);
                  if tail.failed then tail else Drained([e] + tail.events, tail.rest, false)
  {
    hide Frame, FindBreak;
  }

  // A client that pushes chunk after chunk and stops at the first throw.
  function Receive(decode: Decoder, chunks: seq<string>): Drained {
    if chunks == [] then Drained([], "", false)
    else
      var before := Receive(decode, chunks[..|chunks| - 1]);
      if before.failed then before
      else
        var step := Drain(decode, Normalize(before.rest + chunks[|chunks| - 1]));
        Drained(before.events + if step.failed then [] else step.events, step.rest, step.failed)
  }

  lemma {:induction false} ReceiveFollowsFrames(decode: Decoder, chunks: seq<string>)
    requires Clean(Concat(chunks))
    ensures var whole := Split(Normalize(Concat(chunks)));
            var got := Receive(decode, chunks);
            && (got.failed <==> !AllParse(decode, whole.frames))
            && got.events <= Events(decode, whole.frames)
            && (!got.failed ==> got == Drained(Events(decode, whole.frames), whole.rest, false))
  {
    if chunks == [] {
      NothingToSplit();
    } else {
      var front, chunk := chunks[..|chunks| - 1], chunks[|chunks| - 1];
      var seen := Concat(front);
      CleanHead(seen + chunk, |seen|);
      assert (seen + chunk)[..|seen|] == seen;
      ReceiveFollowsFrames(decode, front);
      ChunkContinuesSplit(seen, chunk);
      var before := Split(Normalize(seen));
      var step := Split(Normalize(before.rest + chunk));
      DrainIsSplit(decode, Normalize(before.rest + chunk));
      EventsAppend(decode, before.frames, step.frames);
      AllParseAppend(decode, before.frames, step.frames);
    }
  }

  lemma AllParseAppend(decode: Decoder, a: seq<string>, b: seq<string>)
    ensures AllParse(decode, a + b) <==> AllParse(decode, a) && AllParse(decode, b)
  {
    assert forall i :: 0 <= i < |a| ==> (a + b)[i] == a[i];
    assert forall i :: 0 <= i < |b| ==> (a + b)[|a| + i] == b[i];
  }

  // Chunk independence of the whole client: for a stream without CR CR LF every chunking throws
  // or none does; without a throw all chunkings hand out the same events and flush the same
  // last frame, and with one, each hands out a prefix of the same events.
  lemma ChunkingDoesNotMatter(decode: Decoder, chunks: seq<string>, others: seq<string>)
    requires Concat(chunks) == Concat(others) && Clean(Concat(chunks))
    ensures var a, b := Receive(decode, chunks), Receive(decode, others);
            && a.failed == b.failed
            && (!a.failed ==> a == b && Normalize(a.rest) == a.rest)
            && (a.events <= b.events || b.events <= a.events)
  {
    ReceiveFollowsFrames(decode, chunks);
    ReceiveFollowsFrames(decode, others);
    RestIsNormal(Concat(chunks));
  }

  /* ---------- the server's side ---------- */

  // Serializer: the server's JSON text of an event.
  type Serializer = AgentEvent -> string

  datatype Item = Sent(event: AgentEvent) | Keepalive

  function FrameText(json: Serializer, item: Item): string {
    match item
    case Sent(e) => "id: " + e.eventId + "\nevent: " + e.kind + "\ndata: " + json(e)
    case Keepalive => ": keepalive"
  }

  function Encode(json: Serializer, items: seq<Item>): string {
    if items == [] then "" else FrameText(json, items[0]) + "\n\n" + Encode(json, items[1..])
  }

  function SentEvents(items: seq<Item>): seq<AgentEvent> {
    if items == [] then []
    else (if items[0].Sent? then [items[0].event] else []) + SentEvents(items[1..])
  }

  predicate OneLine(s: string) {
    '\n' !in s && '\r' !in s
  }

  // The encoder writes ids, types and JSON without raw line ends, and the client decodes what
  // the server serialized.
  ghost predicate Faithful(json: Serializer, decode: Decoder, items: seq<Item>) {
    forall i :: 0 <= i < |items| && items[i].Sent? ==>
      var e := items[i].event;
      OneLine(e.eventId) && OneLine(e.kind) && OneLine(json(e)) && decode(json(e)) == Some(e)
  }

  lemma {:induction false} IndexOfFirst(s: string, c: char, i: nat)
    requires i < |s| && s[i] == c && c !in s[..i]
    ensures IndexOf(s, c) == Some(i)
  {
    if i > 0 {
      assert s[..i][0] == s[0] && s[1..][..i - 1] == s[..i][1..];
      IndexOfFirst(s[1..], c, i - 1);
    }
  }

  lemma LinesOfOne(s: string)
    requires '\n' !in s
    ensures Lines(s) == [s]
  {
  }

  lemma LinesCons(first: string, rest: string)
    requires '\n' !in first
    ensures Lines(first + "\n" + rest) == [first] + Lines(rest)
  {
    var s := first + "\n" + rest;
    assert s[..|first|] == first && s[|first| + 1..] == rest;
    IndexOfFirst(s, '\n', |first|);
  }

  // A field line reads back as its name and value, minus the one space after the colon.
  lemma FieldLine(fields: Fields, name: string, value: string)
    requires ':' !in name && name != ""
    ensures ReadLine(fields, name + ": " + value) ==
              if name == "event" then fields.(eventType := Some(value))
              else if name == "data" then fields.(data := fields.data + [value])
              else fields
  {
    var line := name + ": " + value;
    assert line[..|name|] == name && line[|name|] == ':' && line[|name| + 1..] == " " + value;
    IndexOfFirst(line, ':', |name|);
    assert (" " + value)[1..] == value;
    assert line[0] == name[0] && name[0] in name;
  }

  lemma ReadThree(a: string, b: string, c: string)
    ensures ReadLines([a, b, c]) == ReadLine(ReadLine(ReadLine(Fields(None, []), a), b), c)
  {
    hide ReadLine;
    assert [a, b, c][..2] == [a, b] && [a, b][..1] == [a] && [a][..0] == [];
    assert ReadLines([a]) == ReadLine(ReadLines([]), a);
    assert ReadLines([a, b]) == ReadLine(ReadLines([a]), b);
  }

  lemma FrameLines(json: Serializer, e: AgentEvent)
    requires OneLine(e.eventId) && OneLine(e.kind) && OneLine(json(e))
    ensures Lines(FrameText(json, Sent(e))) == ["id: " + e.eventId, "event: " + e.kind, "data: " + json(e)]
  {
    hide Lines;
    var id, event, data := "id: " + e.eventId, "event: " + e.kind, "data: " + json(e);
    assert FrameText(json, Sent(e)) == id + "\n" + (event + "\n" + data);
    LinesCons(id, event + "\n" + data);
    LinesCons(event, data);
    LinesOfOne(data);
  }

  lemma FrameRoundTrip(json: Serializer, decode: Decoder, e: AgentEvent)
    requires OneLine(e.eventId) && OneLine(e.kind) && OneLine(json(e)) && decode(json(e)) == Some(e)
    ensures Frame(decode, FrameText(json, Sent(e))) == Event(e)
  {
    hide Lines, ReadLine, ReadLines, FrameText;
    FrameLines(json, e);
    ReadThree("id: " + e.eventId, "event: " + e.kind, "data: " + json(e));
    FieldLine(Fields(None, []), "id", e.eventId);
    FieldLine(Fields(None, []), "event", e.kind);
    FieldLine(Fields(Some(e.kind), []), "data", json(e));
    assert "id" + ": " == "id: " && "event" + ": " == "event: " && "data" + ": " == "data: ";
    assert [] + [json(e)] == [json(e)];
  }

  lemma KeepaliveIsSilent(json: Serializer, decode: Decoder)
    ensures Frame(decode, FrameText(json, Keepalive)) == Silent
  {
    hide Lines, ReadLine, IndexOf, JoinLines;
    var text := ": keepalive";
    LinesOfOne(text);
    CommentLine(Fields(None, []), text);
    assert [text][..0] == [];
    assert ReadLines([]) == Fields(None, []);
    assert ReadLines([text]) == ReadLine(ReadLines([text][..0]), text);
  }

  lemma CommentLine(fields: Fields, line: string)
    requires line != "" && line[0] == ':'
    ensures ReadLine(fields, line) == fields
  {
  }

  // A frame's text holds no CR, no break, and does not end a line.
  predicate Framed(s: string) {
    s != "" && s[|s| - 1] != '\n' && '\r' !in s && forall j: nat :: j + 1 < |s| ==> !(s[j] == '\n' && s[j + 1] == '\n')
  }

  lemma FramedGrows(frame: string, line: string)
    requires Framed(frame) && OneLine(line) && line != ""
    ensures Framed(frame + "\n" + line)
  {
    var s := frame + "\n" + line;
    assert forall k :: 0 <= k < |frame| ==> s[k] == frame[k];
    assert forall k {:trigger s[k]} :: |frame| < k < |s| ==> s[k] == line[k - |frame| - 1] && s[k] in line;
  }

  lemma OneLineIsFramed(s: string)
    requires OneLine(s) && s != ""
    ensures Framed(s)
  {
  }

  lemma FrameTextIsFramed(json: Serializer, item: Item)
    requires item.Sent? ==> OneLine(item.event.eventId) && OneLine(item.event.kind) && OneLine(json(item.event))
    ensures Framed(FrameText(json, item))
  {
    hide Framed;
    if item.Sent? {
      var e := item.event;
      var id, event, data := "id: " + e.eventId, "event: " + e.kind, "data: " + json(e);
      OneLineIsFramed(id);
      FramedGrows(id, event);
      FramedGrows(id + "\n" + event, data);
      assert FrameText(json, item) == id + "\n" + event + "\n" + data;
    } else {
      OneLineIsFramed(": keepalive");
    }
  }

  lemma SplitFramed(frame: string, rest: string)
    requires Framed(frame)
    ensures Split(frame + "\n\n" + rest) == Parts([frame] + Split(rest).frames, Split(rest).rest)
  {
    var s := frame + "\n\n" + rest;
    var i := |frame|;
    assert s[..i] == frame && s[i + 2..] == rest && BreakAt(s, i);
    assert forall j :: 0 <= j < i ==> s[j] == frame[j];
    assert forall j: nat :: j < i ==> !BreakAt(s, j);
    SplitAt(s, i);
  }

  lemma ItemFrame(json: Serializer, decode: Decoder, item: Item)
    requires Faithful(json, decode, [item])
    ensures Framed(FrameText(json, item))
    ensures Frame(decode, FrameText(json, item)) == if item.Sent? then Event(item.event) else Silent
  {
    assert [item][0] == item;
    FrameTextIsFramed(json, item);
    if item.Sent? { FrameRoundTrip(json, decode, item.event); } else { KeepaliveIsSilent(json, decode); }
  }

  lemma {:induction false} EncodedFrames(json: Serializer, decode: Decoder, items: seq<Item>)
    requires Faithful(json, decode, items)
    ensures '\r' !in Encode(json, items)
    ensures Split(Encode(json, items)).rest == ""
    ensures AllParse(decode, Split(Encode(json, items)).frames)
    ensures Events(decode, Split(Encode(json, items)).frames) == SentEvents(items)
  {
    if items == [] {
      NothingToSplit();
    } else {
      hide Split, Frame, FrameText, AllParse, Events;
      var item, tail := items[0], Encode(json, items[1..]);
      assert Faithful(json, decode, items[1..]) by {
        assert forall i :: 0 <= i < |items[1..]| ==> items[1..][i] == items[i + 1];
      }
      EncodedFrames(json, decode, items[1..]);
      assert Faithful(json, decode, [item]);
      ItemFrame(json, decode, item);
      var text := FrameText(json, item);
      SplitFramed(text, tail);
      OneFrameFirst(decode, text, Split(tail).frames);
    }
  }

  lemma OneFrameFirst(decode: Decoder, frame: string, frames: seq<string>)
    requires !Frame(decode, frame).Failure?
    ensures AllParse(decode, [frame] + frames) <==> AllParse(decode, frames)
    ensures Events(decode, [frame] + frames) ==
              (if Frame(decode, frame).Event? then [Frame(decode, frame).event] else []) + Events(decode, frames)
  {
    hide Frame;
    AllParseAppend(decode, [frame], frames);
    EventsStep(decode, [frame] + frames);
    assert ([frame] + frames)[1..] == frames;
  }

  // What the server encodes arrives, event for event, through every chunking of the transport,
  // with nothing left in the buffer.
  lemma EncodedStreamArrives(json: Serializer, decode: Decoder, items: seq<Item>, chunks: seq<string>)
    requires Faithful(json, decode, items) && Concat(chunks) == Encode(json, items)
    ensures Receive(decode, chunks) == Drained(SentEvents(items), "", false)
  {
    EncodedFrames(json, decode, items);
    NormalizeKeepsNormal(Concat(chunks));
    ReceiveFollowsFrames(decode, chunks);
  }

  // A connection cut anywhere has delivered a prefix of the events, and no push throws.
  lemma CutStreamDeliversPrefix(json: Serializer, decode: Decoder, items: seq<Item>, chunks: seq<string>, lost: string)
    requires Faithful(json, decode, items) && Concat(chunks) + lost == Encode(json, items)
    ensures !Receive(decode, chunks).failed && Receive(decode, chunks).events <= SentEvents(items)
  {
    EncodedFrames(json, decode, items);
    assert forall c :: c in Concat(chunks) ==> c in Concat(chunks) + lost;
    NormalizeKeepsNormal(Concat(chunks));
    NormalizeKeepsNormal(Concat(chunks) + lost);
    ReceiveFollowsFrames(decode, chunks);
    ChunkContinuesSplit(Concat(chunks), lost);
    var before := Split(Normalize(Concat(chunks)));
    var step := Split(Normalize(before.rest + lost));
    EventsAppend(decode, before.frames, step.frames);
    AllParseAppend(decode, before.frames, step.frames);
  }

  /* ---------- a stream with CR CR LF ---------- */

  lemma CrCrLfTwice(x: string, y: string)
    requires OneLine(x) && OneLine(y)
    ensures Normalize(x + "\r\r\n\r\r\n" + y) == x + "\r\n\r\n" + y
    ensures Normalize(x + "\r\n\r\n" + y) == x + "\n\n" + y
  {
    NormalizeKeepsNormal(x);
    NormalizeKeepsNormal(y);
    NormalizeCrCrLf("");
    NormalizeCrCrLf("\r\r\n");
    assert "\r\r\n" + "\r\r\n" == "\r\r\n\r\r\n" && "" + "\r\r\n" == "\r\r\n";
    assert Normalize("\r\r\n\r\r\n") == "\r\n\r\n";
    NormalizeKeepsNormal("\n\n");
    NormalizeDistributes("\r\n", "\r\n");
    assert Normalize("\r\n") == "\n" by { assert "\r\n"[2..] == ""; }
    assert "\r\n" + "\r\n" == "\r\n\r\n";
    NormalizeDistributes(x + "\r\r\n\r\r\n", y);
    NormalizeDistributes(x, "\r\r\n\r\r\n");
    NormalizeDistributes(x + "\r\n\r\n", y);
    NormalizeDistributes(x, "\r\n\r\n");
  }

  lemma NoBreakBetweenCrLfs(x: string, y: string)
    requires OneLine(x) && OneLine(y)
    ensures FindBreak(x + "\r\n\r\n" + y) == None
  {
    var s := x + "\r\n\r\n" + y;
    var n := |x|;
    assert forall j :: 0 <= j < n ==> s[j] == x[j] && s[j] in x;
    assert s[n] == '\r' && s[n + 1] == '\n' && s[n + 2] == '\r' && s[n + 3] == '\n';
    assert forall j {:trigger s[j]} :: n + 4 <= j < |s| ==> s[j] == y[j - n - 4] && s[j] in y;
    assert forall j: nat :: !BreakAt(s, j);
  }

  lemma DataOnly(decode: Decoder, text: string, e: AgentEvent)
    requires OneLine(text) && decode(text) == Some(e)
    ensures Frame(decode, "data: " + text) == Event(e)
  {
    hide Lines, ReadLine;
    var line := "data: " + text;
    LinesOfOne(line);
    FieldLine(Fields(None, []), "data", text);
    assert "data" + ": " + text == line && [line][..0] == [] && [] + [text] == [text];
    assert ReadLines([line]) == ReadLine(ReadLines([line][..0]), line);
  }

  // Such a stream can deliver different events: two data frames parted by CR CR LF CR CR LF yield the first one when
  // the cut falls between them, and none when they arrive in one push.
  lemma ChunkingChangesEvents(decode: Decoder, a: string, b: string, e: AgentEvent)
    requires OneLine(a) && OneLine(b) && decode(a) == Some(e)
    ensures var first, second := "data: " + a + "\r\r\n\r\r\n", "data: " + b;
            && Concat([first, second]) == Concat([first + second])
            && Receive(decode, [first, second]) == Drained([e], second, false)
            && Receive(decode, [first + second]).events == []
  {
    hide Normalize, FindBreak, Drain, Frame, Receive, Concat;
    var x, y := "data: " + a, "data: " + b;
    var first := x + "\r\r\n\r\r\n";
    OnePush(decode, x, y);
    OnePush(decode, x, "");
    assert first + "" == first && x + "\r\n\r\n" + "" == x + "\r\n\r\n";
    ReceiveOne(decode, first);
    ReceiveOne(decode, first + y);
    ReceiveMore(decode, first, y);
    CrCrLfTwice(x, y);
    TwoFrames(decode, x, y, a, e);
    assert [] + [e] == [e];
    TwoChunks(first, y);
  }

  lemma ReceiveOne(decode: Decoder, chunk: string)
    ensures Concat([chunk]) == chunk
    ensures var step := Drain(decode, Normalize(chunk));
            Receive(decode, [chunk]) == Drained(if step.failed then [] else step.events, step.rest, step.failed)
  {
    hide Drain, Normalize;
    assert [chunk][..0] == [] && "" + chunk == chunk;
    assert Receive(decode, [chunk][..0]) == Drained([], "", false);
    var step := Drain(decode, Normalize(chunk));
    assert [] + step.events == step.events;
  }

  lemma ReceiveMore(decode: Decoder, first: string, second: string)
    requires !Receive(decode, [first]).failed
    ensures var before := Receive(decode, [first]);
            var step := Drain(decode, Normalize(before.rest + second));
            Receive(decode, [first, second]) ==
              Drained(before.events + if step.failed then [] else step.events, step.rest, step.failed)
  {
    hide Drain, Normalize;
    assert [first, second][..1] == [first];
  }

  lemma OnePush(decode: Decoder, x: string, y: string)
    requires OneLine(x) && OneLine(y)
    ensures Drain(decode, Normalize(x + "\r\r\n\r\r\n" + y)) == Drained([], x + "\r\n\r\n" + y, false)
  {
    hide Normalize, FindBreak, Frame;
    CrCrLfTwice(x, y);
    NoBreakBetweenCrLfs(x, y);
    DrainStep(decode, x + "\r\n\r\n" + y);
  }

  lemma TwoFrames(decode: Decoder, x: string, y: string, a: string, e: AgentEvent)
    requires x == "data: " + a && OneLine(a) && OneLine(y) && decode(a) == Some(e)
    ensures Drain(decode, x + "\n\n" + y) == Drained([e], y, false)
  {
    hide Split, FindBreak, Frame, Drain, Events, AllParse;
    DataOnly(decode, a, e);
    OneLineIsFramed(x);
    SplitFramed(x, y);
    WholeLine(y);
    DrainIsSplit(decode, x + "\n\n" + y);
    OneFrameFirst(decode, x, []);
    assert [x] + [] == [x];
    NoFramesNoEvents(decode);
    assert AllParse(decode, []) by { NothingFails(decode); }
  }

  lemma NothingFails(decode: Decoder)
    ensures AllParse(decode, [])
  {
  }

  lemma WholeLine(y: string)
    requires OneLine(y)
    ensures Split(y) == Parts([], y)
  {
    assert forall j: nat :: !BreakAt(y, j);
    SplitWhole(y);
  }
}
