/** What the client reads off a frame, line by line, and what a throw leaves in the buffer. */
module SseFields {
  import opened Wrappers
  import opened SseText
  import opened SseParser
  import opened SseDelivery

  /* ---------- one line ---------- */

  // What a field of this name does: event names the type, data adds a line, everything else is ignored.
  function WithField(fields: Fields, name: string, value: string): Fields {
    if name == "event" then Fields(Some(value), fields.data)
    else if name == "data" then Fields(fields.eventType, fields.data + [value])
    else fields
  }

  // A field line is its name, a colon, at most one space, and the value; without a colon the value is empty. Empty
  // lines and comments are skipped.
  lemma FieldForms(fields: Fields, name: string, value: string)
    requires ':' !in name && name != ""
    ensures ReadLine(fields, name + ": " + value) == WithField(fields, name, value)
    ensures value == "" || value[0] != ' ' ==> ReadLine(fields, name + ":" + value) == WithField(fields, name, value)
    ensures ReadLine(fields, name) == WithField(fields, name, "")
    ensures ReadLine(fields, "") == fields && ReadLine(fields, ":" + value) == fields
  {
    FieldLine(fields, name, value);
    var line := name + ":" + value;
    assert line[..|name|] == name && line[|name|] == ':' && line[|name| + 1..] == value;
    IndexOfFirst(line, ':', |name|);
    assert line[0] == name[0] && name[0] in name;
    NoIndex(name, ':');
    hide IndexOf;
  }

  lemma {:induction false} NoIndex(s: string, c: char)
    requires c !in s
    ensures IndexOf(s, c) == None
  {
    if s != "" { NoIndex(s[1..], c); }
  }

  /* ---------- lines and data ---------- */

  // Splitting at line feeds and joining with them undo each other.
  lemma {:induction false} LinesOfJoined(data: seq<string>)
    requires data != [] && forall i :: 0 <= i < |data| ==> '\n' !in data[i]
    ensures Lines(JoinLines(data)) == data
  {
    if |data| == 1 {
      LinesOfOne(data[0]);
    } else {
      hide Lines;
      JoinFromTheFront(data);
      var tail := data[1..];
      assert forall i :: 0 <= i < |tail| ==> tail[i] == data[i + 1];
      LinesOfJoined(tail);
      LinesCons(data[0], JoinLines(tail));
      assert [data[0]] + tail == data;
    }
  }

  lemma {:induction false} JoinFromTheFront(data: seq<string>)
    requires |data| > 1
    ensures JoinLines(data) == data[0] + "\n" + JoinLines(data[1..])
  {
    var front, last := data[..|data| - 1], data[|data| - 1];
    if |data| > 2 {
      JoinFromTheFront(front);
      assert front[1..] == data[1..][..|data| - 2];
      assert data[1..][|data| - 2] == last;
      assert JoinLines(data[1..]) == JoinLines(front[1..]) + "\n" + last;
      assert front[0] == data[0];
    } else {
      assert front == [data[0]] && data[1..] == [last];
    }
  }

  lemma {:induction false} JoinedLines(s: string)
    ensures Lines(s) != [] && JoinLines(Lines(s)) == s
    ensures forall i :: 0 <= i < |Lines(s)| ==> '\n' !in Lines(s)[i]
    decreases |s|
  {
    var i := IndexOf(s, '\n');
    if i.Some? {
      var head, tail := s[..i.value], s[i.value + 1..];
      JoinedLines(tail);
      assert s == head + "\n" + tail;
      var lines := [head] + Lines(tail);
      JoinFromTheFront(lines);
      assert lines[1..] == Lines(tail);
    }
  }

  function DataLines(data: seq<string>): seq<string> {
    if data == [] then [] else DataLines(data[..|data| - 1]) + ["data: " + data[|data| - 1]]
  }

  lemma ReadMore(lines: seq<string>, line: string)
    ensures ReadLines(lines + [line]) == ReadLine(ReadLines(lines), line)
  {
    hide ReadLine;
    assert (lines + [line])[..|lines|] == lines;
  }

  // All data lines of a frame are kept, in order.
  lemma {:induction false} DataLinesRead(lines: seq<string>, data: seq<string>)
    ensures ReadLines(lines + DataLines(data)) ==
            Fields(ReadLines(lines).eventType, ReadLines(lines).data + data)
  {
    hide ReadLine, ReadLines;
    if data == [] {
      assert lines + DataLines(data) == lines;
      assert ReadLines(lines).data + data == ReadLines(lines).data;
    } else {
      var front, last := data[..|data| - 1], data[|data| - 1];
      DataLinesRead(lines, front);
      var before := ReadLines(lines + DataLines(front));
      assert lines + DataLines(data) == (lines + DataLines(front)) + ["data: " + last];
      ReadMore(lines + DataLines(front), "data: " + last);
      FieldForms(before, "data", last);
      assert "data" + ": " + last == "data: " + last;
      assert ReadLines(lines).data + front + [last] == ReadLines(lines).data + data;
    }
  }

  /* ---------- the frame ---------- */

  // A frame is silent without data; otherwise it is the event its joined data decodes to, unless that fails or a
  // named type, not empty, contradicts it.
  lemma FramesAreReadExactly(decode: Decoder, frame: string, e: AgentEvent)
    ensures var fields := ReadLines(Lines(frame));
            && (Frame(decode, frame) == Silent <==> fields.data == [])
            && (Frame(decode, frame) == Event(e) <==>
                  fields.data != [] && decode(JoinLines(fields.data)) == Some(e)
                  && (fields.eventType == None || fields.eventType == Some("") || fields.eventType == Some(e.kind)))
            && (Frame(decode, frame) == Failure <==>
                  fields.data != []
                  && (decode(JoinLines(fields.data)) == None
                      || (fields.eventType.Some? && fields.eventType.value != ""
                          && fields.eventType.value != decode(JoinLines(fields.data)).value.kind)))
  {
    hide Lines, ReadLines, JoinLines;
  }

  /* ---------- a throw ---------- */

  // A throw takes the frame that caused it out of the buffer, with every frame before it, and leaves the rest.
  lemma {:induction false} ThrowLeavesTheTail(decode: Decoder, s: string)
    requires Drain(decode, s).failed
    ensures Drain(decode, s).events == []
    ensures exists k :: 0 <= k < |Split(s).frames| && Frame(decode, Split(s).frames[k]) == Failure
                        && AllParse(decode, Split(s).frames[..k])
                        && s == Join(Parts(Split(s).frames[..k + 1], Drain(decode, s).rest))
    decreases |s|
  {
    hide Split, FindBreak, Frame, Drain;
    var found := FindBreak(s);
    DrainStep(decode, s);
    if found.Some? {
      var i := found.value;
      SplitAt(s, i);
      var frames, tail := Split(s).frames, s[i + 2..];
      assert s == s[..i] + "\n\n" + tail;
      if Frame(decode, s[..i]).Failure? {
        assert frames[..0] == [] && frames[..1] == [s[..i]];
        assert frames[..1][1..] == [];
        assert Join(Parts(frames[..1], tail)) == s[..i] + "\n\n" + Join(Parts([], tail));
      } else {
        ThrowLeavesTheTail(decode, tail);
        var k :| 0 <= k < |Split(tail).frames| && Frame(decode, Split(tail).frames[k]) == Failure
                 && AllParse(decode, Split(tail).frames[..k])
                 && tail == Join(Parts(Split(tail).frames[..k + 1], Drain(decode, tail).rest));
        assert frames[k + 1] == Split(tail).frames[k];
        assert frames[..k + 2] == [s[..i]] + Split(tail).frames[..k + 1];
        assert frames[..k + 2][1..] == Split(tail).frames[..k + 1];
        assert frames[..k + 1] == [s[..i]] + Split(tail).frames[..k];
        AllParseAppend(decode, [s[..i]], Split(tail).frames[..k]);
      }
    }
  }
}
