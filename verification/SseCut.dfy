/** Where a stream ends: what the last flush makes of a frame that was cut. */
module SseCut {
  import opened Wrappers
  import opened SseText
  import opened SseParser
  import opened SseDelivery

  // What an event's frame holds before its data line.
  function HeadText(e: AgentEvent): string {
    "id: " + e.eventId + "\nevent: " + e.kind + "\n"
  }

  // The first n characters of a frame and the line end that follows it.
  function Cut(json: Serializer, item: Item, n: nat): string
    requires n <= |FrameText(json, item)| + 1
  {
    (FrameText(json, item) + "\n")[..n]
  }

  // What flushing it yields: nothing up to the word data, a throw while the data line is incomplete, and the
  // event once it is whole.
  function FlushOf(json: Serializer, item: Item, n: nat): Outcome {
    match item
    case Keepalive => Silent
    case Sent(e) =>
      if n < |HeadText(e)| + 4 then Silent else if n < |FrameText(json, item)| then Failure else Event(e)
  }

  // As for JSON objects: the text is not empty and no proper prefix of it decodes.
  ghost predicate SelfDelimiting(json: Serializer, decode: Decoder, items: seq<Item>) {
    forall i :: 0 <= i < |items| && items[i].Sent? ==>
      var text := json(items[i].event);
      text != "" && forall m :: 0 <= m < |text| ==> decode(text[..m]).None?
  }

  /* ---------- one cut frame ---------- */

  // A line that cannot be a data field.
  predicate Quiet(line: string) {
    |line| < 4 || line[0] != 'd'
  }

  lemma QuietLine(fields: Fields, line: string)
    requires Quiet(line)
    ensures ReadLine(fields, line).data == fields.data
  {
    if line != "" && line[0] != ':' {
      var separator := IndexOf(line, ':');
      var field := if separator.None? then line else line[..separator.value];
      assert field != "data";
    }
  }

  lemma {:induction false} QuietLines(decode: Decoder, lines: seq<string>)
    requires forall i :: 0 <= i < |lines| ==> Quiet(lines[i])
    ensures ReadLines(lines).data == [] && Interpret(decode, ReadLines(lines)) == Silent
  {
    hide ReadLine, Quiet;
    if lines != [] {
      QuietLines(decode, lines[..|lines| - 1]);
      QuietLine(ReadLines(lines[..|lines| - 1]), lines[|lines| - 1]);
    }
  }

  // The data line read after m characters.
  function DataRead(json: string, m: nat): string
    requires m <= 6 + |json|
  {
    if m < 6 then "" else json[..m - 6]
  }

  lemma DataPrefix(fields: Fields, json: string, m: nat)
    requires 4 <= m <= 6 + |json|
    ensures ReadLine(fields, ("data: " + json)[..m]) == fields.(data := fields.data + [DataRead(json, m)])
  {
    var line := ("data: " + json)[..m];
    if m >= 6 {
      assert line == "data" + ": " + json[..m - 6];
      FieldLine(fields, "data", json[..m - 6]);
    } else if m == 5 {
      assert line == "data:";
      IndexOfFirst(line, ':', 4);
      assert line[..4] == "data" && line[5..] == "";
    } else {
      assert line == "data";
    }
  }

  lemma EventHead(e: AgentEvent)
    ensures ReadLines(["id: " + e.eventId, "event: " + e.kind]) == Fields(Some(e.kind), [])
  {
    hide ReadLine;
    var id, event := "id: " + e.eventId, "event: " + e.kind;
    FieldLine(Fields(None, []), "id", e.eventId);
    FieldLine(Fields(None, []), "event", e.kind);
    assert "id" + ": " == "id: " && "event" + ": " == "event: ";
    assert [id, event][..1] == [id] && [id][..0] == [];
    assert ReadLines([id]) == ReadLine(ReadLines([id][..0]), id);
    assert ReadLines([id, event]) == ReadLine(ReadLines([id, event][..1]), event);
  }

  // The lines of a cut frame, by the line in which the cut falls.
  lemma CutLines(json: Serializer, e: AgentEvent, n: nat)
    requires OneLine(e.eventId) && OneLine(e.kind) && OneLine(json(e))
    requires n <= |FrameText(json, Sent(e))| + 1
    ensures var id, event, data := "id: " + e.eventId, "event: " + e.kind, "data: " + json(e);
            Lines(Cut(json, Sent(e), n)) ==
              if n <= |id| then [id[..n]]
              else if n <= |id| + 1 + |event| then [id, event[..n - |id| - 1]]
              else if n <= |HeadText(e)| + |data| then [id, event, data[..n - |HeadText(e)|]]
              else [id, event, data, ""]
  {
    hide Lines;
    var id, event, data := "id: " + e.eventId, "event: " + e.kind, "data: " + json(e);
    var s := Cut(json, Sent(e), n);
    assert FrameText(json, Sent(e)) + "\n" == id + ("\n" + (event + ("\n" + (data + "\n"))));
    if n <= |id| {
      assert s == id[..n];
      LinesOfOne(s);
    } else if n <= |id| + 1 + |event| {
      assert s == id + "\n" + event[..n - |id| - 1];
      LinesCons(id, event[..n - |id| - 1]);
      LinesOfOne(event[..n - |id| - 1]);
    } else {
      var tail := (data + "\n")[..n - |HeadText(e)|];
      assert s == id + "\n" + (event + "\n" + tail);
      LinesCons(id, event + "\n" + tail);
      LinesCons(event, tail);
      if n <= |HeadText(e)| + |data| {
        assert tail == data[..n - |HeadText(e)|];
        LinesOfOne(tail);
      } else {
        assert tail == data + "\n" + "";
        LinesCons(data, "");
        LinesOfOne("");
      }
    }
  }

  lemma AfterData(decode: Decoder, e: AgentEvent, text: string, m: nat)
    requires decode(text) == Some(e) && text != "" && forall k :: 0 <= k < |text| ==> decode(text[..k]).None?
    requires m <= 6 + |text|
    ensures var lines := ["id: " + e.eventId, "event: " + e.kind, ("data: " + text)[..m]];
            Interpret(decode, ReadLines(lines)) == if m < 4 then Silent else if m < 6 + |text| then Failure else Event(e)
  {
    hide ReadLine, IndexOf;
    var id, event, part := "id: " + e.eventId, "event: " + e.kind, ("data: " + text)[..m];
    EventHead(e);
    assert [id, event, part][..2] == [id, event];
    assert ReadLines([id, event, part]) == ReadLine(ReadLines([id, event, part][..2]), part);
    if m < 4 {
      QuietLine(Fields(Some(e.kind), []), part);
    } else {
      DataPrefix(Fields(Some(e.kind), []), text, m);
      var read := DataRead(text, m);
      assert [] + [read] == [read];
      assert m == 6 + |text| ==> read == text;
      assert m < 6 + |text| ==> decode(read).None? by {
        assert text[..0] == "";
      }
    }
  }

  lemma TrailingEmptyLine(lines: seq<string>)
    ensures ReadLines(lines + [""]) == ReadLines(lines)
  {
    assert (lines + [""])[..|lines|] == lines;
  }

  lemma CutEventFrame(json: Serializer, decode: Decoder, e: AgentEvent, n: nat)
    requires Faithful(json, decode, [Sent(e)]) && SelfDelimiting(json, decode, [Sent(e)])
    requires n <= |FrameText(json, Sent(e))| + 1
    ensures Frame(decode, Cut(json, Sent(e), n)) == FlushOf(json, Sent(e), n)
  {
    hide Lines, ReadLine, ReadLines, IndexOf, Cut;
    assert [Sent(e)][0] == Sent(e);
    var id, event, data := "id: " + e.eventId, "event: " + e.kind, "data: " + json(e);
    var lines := Lines(Cut(json, Sent(e), n));
    CutLines(json, e, n);
    assert |FrameText(json, Sent(e))| == |HeadText(e)| + |data|;
    if n <= |id| + 1 + |event| {
      QuietLines(decode, lines);
    } else if n <= |HeadText(e)| + |data| {
      AfterData(decode, e, json(e), n - |HeadText(e)|);
    } else {
      AfterData(decode, e, json(e), |data|);
      assert data[..|data|] == data;
      TrailingEmptyLine([id, event, data]);
      assert [id, event, data] + [""] == [id, event, data, ""];
    }
  }

  lemma CutKeepalive(json: Serializer, decode: Decoder, n: nat)
    requires n <= |FrameText(json, Keepalive)| + 1
    ensures Frame(decode, Cut(json, Keepalive, n)) == Silent
  {
    hide Lines, ReadLine, ReadLines, IndexOf;
    var text := ": keepalive";
    if n <= |text| {
      assert Cut(json, Keepalive, n) == text[..n];
      LinesOfOne(text[..n]);
      QuietLines(decode, [text[..n]]);
    } else {
      assert Cut(json, Keepalive, n) == text + "\n" + "";
      LinesCons(text, "");
      LinesOfOne("");
      QuietLines(decode, [text] + [""]);
    }
  }

  lemma CutFrame(json: Serializer, decode: Decoder, item: Item, n: nat)
    requires Faithful(json, decode, [item]) && SelfDelimiting(json, decode, [item])
    requires n <= |FrameText(json, item)| + 1
    ensures Frame(decode, Cut(json, item, n)) == FlushOf(json, item, n)
  {
    if item.Sent? { CutEventFrame(json, decode, item.event, n); } else { CutKeepalive(json, decode, n); }
  }

  /* ---------- a cut stream ---------- */

  // How many whole frames the first n characters of a stream hold, and how many characters follow them.
  function Whole(json: Serializer, items: seq<Item>, n: nat): (k: nat)
    ensures k <= |items|
  {
    if items == [] then 0
    else
      var size := |FrameText(json, items[0])| + 2;
      if n < size then 0 else 1 + Whole(json, items[1..], n - size)
  }

  function Within(json: Serializer, items: seq<Item>, n: nat): (m: nat)
    ensures var k := Whole(json, items, n); k < |items| ==> m <= |FrameText(json, items[k])| + 1
  {
    if items == [] then 0
    else
      var size := |FrameText(json, items[0])| + 2;
      if n < size then n else Within(json, items[1..], n - size)
  }

  function Leftover(json: Serializer, items: seq<Item>, n: nat): string {
    var k := Whole(json, items, n);
    if k == |items| then "" else Cut(json, items[k], Within(json, items, n))
  }

  lemma PartialHasNoBreak(frame: string, n: nat)
    requires Framed(frame) && n <= |frame| + 1
    ensures FindBreak((frame + "\n")[..n]) == None
  {
    var s := (frame + "\n")[..n];
    assert forall j :: 0 <= j < n ==> s[j] == if j < |frame| then frame[j] else '\n';
    assert forall j: nat :: !BreakAt(s, j);
  }

  lemma CutInFirst(json: Serializer, decode: Decoder, items: seq<Item>, s: string, lost: string)
    requires items != [] && Faithful(json, decode, [items[0]]) && s + lost == Encode(json, items)
    requires |s| < |FrameText(json, items[0])| + 2
    ensures Split(s) == Parts([], Cut(json, items[0], |s|))
  {
    hide Split, FindBreak, Framed, FrameText, Frame, Faithful;
    var text := FrameText(json, items[0]);
    ItemFrame(json, decode, items[0]);
    PrefixOfFirst(s, lost, text, Encode(json, items[1..]));
    PartialHasNoBreak(text, |s|);
    SplitWhole(s);
  }

  lemma PrefixOfFirst(s: string, lost: string, text: string, rest: string)
    requires s + lost == text + "\n\n" + rest && |s| < |text| + 2
    ensures s == (text + "\n")[..|s|]
  {
    assert s == (s + lost)[..|s|];
    assert text + "\n\n" + rest == (text + "\n") + ("\n" + rest);
  }

  lemma CutPastFirst(json: Serializer, items: seq<Item>, s: string, lost: string) returns (tail: string)
    requires items != [] && s + lost == Encode(json, items) && |s| >= |FrameText(json, items[0])| + 2
    ensures s == FrameText(json, items[0]) + "\n\n" + tail && tail + lost == Encode(json, items[1..])
  {
    hide FrameText;
    var first := FrameText(json, items[0]) + "\n\n";
    tail := s[|first|..];
    assert (s + lost)[..|first|] == first;
    assert s == first + tail;
    assert (s + lost)[|first|..] == tail + lost;
    assert (first + Encode(json, items[1..]))[|first|..] == Encode(json, items[1..]);
  }

  lemma {:induction false} CutSplit(json: Serializer, decode: Decoder, items: seq<Item>, s: string, lost: string)
    requires Faithful(json, decode, items) && s + lost == Encode(json, items)
    ensures Split(s).rest == Leftover(json, items, |s|)
    ensures AllParse(decode, Split(s).frames)
    ensures Events(decode, Split(s).frames) == SentEvents(items[..Whole(json, items, |s|)])
    decreases |items|
  {
    hide Split, Frame, FrameText, AllParse, Events, Cut;
    if items == [] {
      NothingToSplit();
      NothingParses(decode);
    } else {
      var item, rest := items[0], items[1..];
      assert Faithful(json, decode, [item]) && Faithful(json, decode, rest) by {
        assert [item][0] == items[0];
        assert forall i :: 0 <= i < |rest| ==> rest[i] == items[i + 1];
      }
      var text := FrameText(json, item);
      if |s| < |text| + 2 {
        CutInFirst(json, decode, items, s, lost);
        NothingParses(decode);
      } else {
        var tail := CutPastFirst(json, items, s, lost);
        CutSplit(json, decode, rest, tail, lost);
        ItemFrame(json, decode, item);
        SplitFramed(text, tail);
        OneFrameFirst(decode, text, Split(tail).frames);
        var k := Whole(json, rest, |tail|);
        assert items[..k + 1][0] == item && items[..k + 1][1..] == rest[..k];
      }
    }
  }

  lemma NothingParses(decode: Decoder)
    ensures AllParse(decode, []) && Events(decode, []) == []
  {
  }

  lemma {:induction false} SentAppend(a: seq<Item>, b: seq<Item>)
    ensures SentEvents(a + b) == SentEvents(a) + SentEvents(b)
  {
    if a == [] {
      assert a + b == b;
    } else {
      SentAppend(a[1..], b);
      assert (a + b)[1..] == a[1..] + b;
    }
  }

  // A stream that ends anywhere has delivered the events of its whole frames; the flush then yields nothing,
  // throws or yields the next event, by where in the next frame the end falls.
  lemma EndedStreamIsExact(json: Serializer, decode: Decoder, items: seq<Item>, chunks: seq<string>, lost: string)
    requires Faithful(json, decode, items) && SelfDelimiting(json, decode, items)
    requires Concat(chunks) + lost == Encode(json, items)
    ensures var n := |Concat(chunks)|;
            var k := Whole(json, items, n);
            && Receive(decode, chunks) == Drained(SentEvents(items[..k]), Leftover(json, items, n), false)
            && Frame(decode, Normalize(Leftover(json, items, n))) ==
               if k == |items| then Silent else FlushOf(json, items[k], Within(json, items, n))
  {
    hide Split, Frame, FlushOf, AllParse, Events, Encode, FrameText, Cut, Receive, Normalize;
    var s := Concat(chunks);
    var k := Whole(json, items, |s|);
    EncodedFrames(json, decode, items);
    assert forall c :: c in s ==> c in s + lost;
    assert Clean(s) && NoCrLf(s);
    NormalizeKeepsNormal(s);
    ReceiveFollowsFrames(decode, chunks);
    CutSplit(json, decode, items, s, lost);
    RestIsNormal(s);
    if k < |items| {
      assert Faithful(json, decode, [items[k]]) && SelfDelimiting(json, decode, [items[k]]) by {
        assert [items[k]][0] == items[k];
      }
      CutFrame(json, decode, items[k], Within(json, items, |s|));
    } else {
      EmptyFlush(decode);
    }
  }

  lemma EmptyFlush(decode: Decoder)
    ensures Frame(decode, "") == Silent
  {
    hide Lines, ReadLine;
    LinesOfOne("");
    QuietLines(decode, [""]);
  }

  // Pushes and flush together deliver a prefix of the events; only the flush can throw, and it does exactly when
  // the stream ends inside a data line.
  lemma EndedStreamDeliversPrefix(json: Serializer, decode: Decoder, items: seq<Item>, chunks: seq<string>, lost: string)
    requires Faithful(json, decode, items) && SelfDelimiting(json, decode, items)
    requires Concat(chunks) + lost == Encode(json, items)
    ensures var got := Receive(decode, chunks);
            var flush := Frame(decode, Normalize(got.rest));
            var n := |Concat(chunks)|;
            var k, m := Whole(json, items, n), Within(json, items, n);
            && !got.failed
            && got.events + (if flush.Event? then [flush.event] else []) <= SentEvents(items)
            && (flush.Failure? <==> k < |items| && items[k].Sent?
                                    && |HeadText(items[k].event)| + 4 <= m < |FrameText(json, items[k])|)
  {
    hide Frame, Receive, Normalize, Leftover, HeadText, FrameText;
    EndedStreamIsExact(json, decode, items, chunks, lost);
    var k := Whole(json, items, |Concat(chunks)|);
    assert items[..k] + items[k..] == items;
    SentAppend(items[..k], items[k..]);
    if k < |items| {
      assert items[k..][0] == items[k];
    }
  }
}
