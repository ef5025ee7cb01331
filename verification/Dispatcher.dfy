/**
 The dispatcher: three buffers that fields update and a blank line empties. Its ghost
 history, the lines it has seen, says what every buffer must hold.
 */
module Dispatcher {
  import opened Utf8
  import opened EventStream
  import opened Limits
  import opened Wrappers

  /** The data buffer after `lines`: every value since the last blank line, each with its LF. */
  ghost function PendingData(lines: seq<LineKind>): string {
    var data := Values(Block(lines), "data");
    if data == [] then "" else JoinLf(data) + "\n"
  }

  /** `line` would take the pending event past `max` bytes of data. */
  ghost predicate EventOverflows(max: nat, lines: seq<LineKind>, line: LineKind) {
    line.Field? && line.name == "data" && Len(PendingData(lines)) + Len(line.value) + 1 > max
  }

  class Dispatcher {
    var pendingEvent: string
    var pendingData: string
    var lastEventId: Option<string>
    const maxEventBytes: nat

    ghost var history: seq<LineKind>

    ghost predicate Valid()
      reads this
    {
      && pendingEvent == EventType(history)
      && pendingData == PendingData(history)
      && lastEventId == LastId(history)
      && Len(pendingData) <= maxEventBytes
    }

    constructor (maxEventBytes: nat)
      ensures Valid() && this.maxEventBytes == maxEventBytes && history == []
    {
      pendingEvent, pendingData, lastEventId := "", "", None;
      this.maxEventBytes := maxEventBytes;
      history := [];
    }

    /** Takes one field, or refuses a `data` field that would cross the bound. */
    method ProcessField(name: string, value: string) returns (r: Result<Option<Frame>, Overflow>)
      requires Valid()
      modifies this
      ensures Valid()
      ensures var line := Field(name, value);
              if EventOverflows(maxEventBytes, old(history), line)
              then r == Err(Event(maxEventBytes)) && history == old(history)
              else r == Ok(FrameOf(old(history), line)) && history == old(history) + [line]
    {
      hide EventType, PendingData, LastId, ParseRetry, Encode;
      FieldUpdatesBuffers(history, name, value);
      LenOfData(pendingData, value);
      if name == "event" {
        pendingEvent := value;
        r := Ok(None);
      } else if name == "data" {
        var after := Len(pendingData) + Len(value) + 1;
        if after > maxEventBytes {
          return Err(Event(maxEventBytes));
        }
        pendingData := pendingData + value + "\n";
        r := Ok(None);
      } else if name == "id" {
        if '\0' !in value {
          lastEventId := Some(value);
        }
        r := Ok(None);
      } else if name == "retry" {
        var millis := ParseRetry(value);
        r := Ok(if millis.Some? then Some(RetryFrame(millis.value)) else None);
      } else {
        r := Ok(None);
      }
      history := history + [Field(name, value)];
    }

    /** Closes the block: the message its data lines make, if there are any. */
    method Dispatch() returns (frame: Option<Frame>)
      requires Valid()
      modifies this
      ensures Valid() && history == old(history) + [Blank]
      ensures frame == FrameOf(old(history), Blank)
    {
      BlankClearsBuffers(history);
      if pendingData == "" {
        pendingEvent := "";
        frame := None;
      } else {
        if pendingData[|pendingData| - 1] == '\n' {
          pendingData := pendingData[..|pendingData| - 1];
        }
        frame := Some(MessageFrame(Message(pendingEvent, pendingData, lastEventId)));
        pendingEvent, pendingData := "", "";
      }
      history := history + [Blank];
    }

    /** A comment reaches no buffer; only the history takes note of it. */
    ghost method PassComment()
      requires Valid()
      modifies `history
      ensures Valid() && history == old(history) + [Comment]
    {
      CommentChangesNothing(history);
      history := history + [Comment];
    }
  }

  lemma LenOfData(data: string, value: string)
    ensures Len(data + value + "\n") == Len(data) + Len(value) + 1
  {
    EncodeConcat(data + value, "\n");
    EncodeConcat(data, value);
    assert Encode("\n") == EncodeChar('\n') + Encode("");
  }

  /** What each buffer must hold once one more field has been seen. */
  lemma FieldUpdatesBuffers(lines: seq<LineKind>, name: string, value: string)
    ensures var grown := lines + [Field(name, value)];
            && EventType(grown) == (if name == "event" then value else EventType(lines))
            && PendingData(grown)
               == (if name == "data" then PendingData(lines) + value + "\n" else PendingData(lines))
            && LastId(grown) == (if name == "id" && '\0' !in value then Some(value) else LastId(lines))
  {
    hide Block, Values, JoinLf, NulFree;
    var line := Field(name, value);
    BlockGrows(lines, line);
    ValuesGrow(Block(lines), line, "event");
    ValuesGrow(Block(lines), line, "data");
    JoinLfGrows(Values(Block(lines), "data"), value);
    assert "" + value == value;
    ValuesGrow(lines, line, "id");
    NulFreeGrows(Values(lines, "id"), value);
  }

  lemma BlankClearsBuffers(lines: seq<LineKind>)
    ensures var grown := lines + [Blank];
            EventType(grown) == "" && PendingData(grown) == "" && LastId(grown) == LastId(lines)
  {
    BlockGrows(lines, Blank);
    ValuesGrow(lines, Blank, "id");
  }

  lemma CommentChangesNothing(lines: seq<LineKind>)
    ensures var grown := lines + [Comment];
            && EventType(grown) == EventType(lines) && PendingData(grown) == PendingData(lines)
            && LastId(grown) == LastId(lines)
  {
    BlockGrows(lines, Comment);
    ValuesGrow(Block(lines), Comment, "event");
    ValuesGrow(Block(lines), Comment, "data");
    ValuesGrow(lines, Comment, "id");
  }

  /** Together with the three above: the buffers start empty, and a blank line reads them. */
  lemma DispatchReadsBuffers(lines: seq<LineKind>)
    ensures EventType([]) == "" && PendingData([]) == "" && LastId([]) == None
    ensures FrameOf(lines, Blank)
            == var data := PendingData(lines);
               if data == "" then None
               else Some(MessageFrame(Message(EventType(lines), data[..|data| - 1], LastId(lines))))
  {
    var values := Values(Block(lines), "data");
    assert values != [] ==> (JoinLf(values) + "\n")[..|JoinLf(values)|] == JoinLf(values);
  }
}
