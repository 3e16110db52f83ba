/**
  IncrementalSseParser. JSON.parse followed by the event contract is a parameter: decode
  returns None where either of them throws.
*/
module SseParser {
  import opened Wrappers
  import opened SseText

  // sequence is a JavaScript number, so it need not be an integer.
  datatype AgentEvent = AgentEvent(eventId: string, eventTime: string, payload: string, runId: string,
                                   schemaVersion: string, sequence: real, kind: string)

  type Decoder = string -> Option<AgentEvent>

  datatype SseError = FinishedParser | BadFrame

  datatype Outcome = Silent | Event(event: AgentEvent) | Failure

  datatype Fields = Fields(eventType: Option<string>, data: seq<string>)

  function IndexOf(s: string, c: char): (r: Option<nat>)
    ensures r.Some? ==> r.value < |s| && s[r.value] == c && c !in s[..r.value]
    ensures r.None? ==> c !in s
  {
    if s == "" then None
    else if s[0] == c then Some(0)
    else
      var rest := IndexOf(s[1..], c);
      if rest.Some? then Some(rest.value + 1) else None
  }

  // frame.split('\n')
  function Lines(s: string): seq<string>
    decreases |s|
  {
    var i := IndexOf(s, '\n');
    if i.None? then [s] else [s[..i.value]] + Lines(s[i.value + 1..])
  }

  function ReadLine(fields: Fields, line: string): Fields {
    if line == "" || line[0] == ':' then fields
    else
      var separator := IndexOf(line, ':');
      var field := if separator.None? then line else line[..separator.value];
      var raw := if separator.None? then "" else line[separator.value + 1..];
      var value := if raw != "" && raw[0] == ' ' then raw[1..] else raw;
      if field == "event" then fields.(eventType := Some(value))
      else if field == "data" then fields.(data := fields.data + [value])
      else fields
  }

  function ReadLines(lines: seq<string>): Fields {
    if lines == [] then Fields(None, []) else ReadLine(ReadLines(lines[..|lines| - 1]), lines[|lines| - 1])
  }

  // data.join('\n')
  function JoinLines(data: seq<string>): string
    requires data != []
  {
    if |data| == 1 then data[0] else JoinLines(data[..|data| - 1]) + "\n" + data[|data| - 1]
  }

  function Interpret(decode: Decoder, fields: Fields): Outcome {
    if fields.data == [] then Silent
    else
      var event := decode(JoinLines(fields.data));
      if event.None? then Failure
      else if fields.eventType.Some? && fields.eventType.value != "" && event.value.kind != fields.eventType.value
      then Failure
      else Event(event.value)
  }

  function Frame(decode: Decoder, frame: string): Outcome {
    Interpret(decode, ReadLines(Lines(frame)))
  }

  // One push: frames are taken until the buffer holds no break or a frame throws. A throw
  // loses the events of this push.
  datatype Drained = Drained(events: seq<AgentEvent>, rest: string, failed: bool)

  function Drain(decode: Decoder, buffer: string): Drained
    decreases |buffer|
  {
    var boundary := FindBreak(buffer);
    if boundary.None? then Drained([], buffer, false)
    else
      var rest := buffer[boundary.value + 2..];
      match Frame(decode, buffer[..boundary.value])
      case Failure => Drained([], rest, true)
      case Silent => Drain(decode, rest)
      case Event(e) =>
        var tail := Drain(decode, rest);
        if tail.failed then tail else Drained([e] + tail.events, tail.rest, false)
  }

  class IncrementalSseParser {
    const decode: Decoder
    var buffer: string
    var finished: bool

    constructor (decode: Decoder)
      ensures this.decode == decode && buffer == "" && !finished
    {
      this.decode := decode;
      buffer, finished := "", false;
    }

    method ParseFrame(frame: string) returns (outcome: Outcome)
      ensures outcome == Frame(decode, frame)
    {
      var eventType: Option<string> := None;
      var data := [];
      var lines := Lines(frame);
      for n := 0 to |lines|
        invariant Fields(eventType, data) == ReadLines(lines[..n])
      {
        assert lines[..n + 1][..n] == lines[..n];
        var line := lines[n];
        if line == "" || line[0] == ':' {
          continue;
        }
        var separator := IndexOf(line, ':');
        var field := if separator.None? then line else line[..separator.value];
        var value := if separator.None? then "" else line[separator.value + 1..];
        if value != "" && value[0] == ' ' {
          value := value[1..];
        }
        if field == "event" {
          eventType := Some(value);
        }
        if field == "data" {
          data := data + [value];
        }
      }
      assert lines[..|lines|] == lines;
      return Interpret(decode, Fields(eventType, data));
    }

    method Push(chunk: string) returns (result: Result<seq<AgentEvent>, SseError>)
      modifies this`buffer
      ensures old(finished) ==> result == Err(FinishedParser) && buffer == old(buffer)
      ensures !old(finished) ==>
                var drained := Drain(decode, Normalize(old(buffer) + chunk));
                && buffer == drained.rest
                && result == if drained.failed then Err(BadFrame) else Ok(drained.events)
    {
      if finished {
        return Err(FinishedParser);
      }
      buffer := Normalize(buffer + chunk);
      ghost var whole := Drain(decode, buffer);
      var events := [];
      var boundary := FindBreak(buffer);
      while boundary.Some?
        invariant boundary == FindBreak(buffer)
        invariant var d := Drain(decode, buffer);
                  && whole.failed == d.failed && whole.rest == d.rest
                  && (!d.failed ==> whole.events == events + d.events)
        decreases |buffer|
      {
        var frame := buffer[..boundary.value];
        buffer := buffer[boundary.value + 2..];
        var parsed := ParseFrame(frame);
        if parsed.Failure? {
          return Err(BadFrame);
        }
        if parsed.Event? {
          events := events + [parsed.event];
        }
        boundary := FindBreak(buffer);
      }
      assert events + [] == events;
      return Ok(events);
    }

    method Finish() returns (result: Result<seq<AgentEvent>, SseError>)
      modifies this`buffer, this`finished
      ensures finished
      ensures old(finished) ==> result == Ok([]) && buffer == old(buffer)
      ensures !old(finished) ==>
                && buffer == ""
                && result == match Frame(decode, Normalize(old(buffer)))
                             case Silent => Ok([])
                             case Event(e) => Ok([e])
                             case Failure => Err(BadFrame)
    {
      if finished {
        return Ok([]);
      }
      finished := true;
      var frame := Normalize(buffer);
      buffer := "";
      var parsed := ParseFrame(frame);
      match parsed
      case Silent => return Ok([]);
      case Event(e) => return Ok([e]);
      case Failure => return Err(BadFrame);
    }
  }
}
