/**
 * `DigoleDisplay`: the read operations that register a pending request,
 * the poll `doCheck`, and the catalog operations that shape their
 * arguments. The display's byte output goes through its `DigolePrimitive`.
 */
module Display {
  import opened Wrappers
  import opened Encoding
  import opened Chunking
  import opened Primitive
  import opened Catalog
  import opened Correlator

  /** What `doCheck` returns, or that it raised a bus error. */
  datatype PollResult = Events(events: seq<Event>) | BusError

  class DigoleDisplay {
    /** The command and recording layer this display writes through. */
    const primitive: DigolePrimitive
    /** `_waitBuffer`: the pending read requests, oldest first. */
    var waitBuffer: seq<Pending>
    /** `_inBuffer`: values read from the display and not yet matched. */
    var inBuffer: seq<int>

    /** No values are kept while nothing is pending. */
    ghost predicate Valid()
      reads this, primitive
    {
      && primitive.Valid()
      && WellFormed(waitBuffer)
      && (waitBuffer == [] ==> inBuffer == [])
    }

    constructor ()
      ensures Valid() && fresh(primitive)
      ensures primitive.bus == [] && !primitive.IsRecording()
      ensures waitBuffer == [] && inBuffer == []
    {
      primitive := new DigolePrimitive();
      waitBuffer := [];
      inBuffer := [];
    }

    /** Sends a read opcode, which takes no arguments, and registers the reply it asks for. */
    method Register(opcode: string, kind: EventKind, now: int)
      requires Valid() && IsAscii(opcode) && |opcode| <= ChunkSize
      modifies this, primitive
      ensures Valid()
      ensures primitive.bus == old(primitive.bus) + [Ascii(opcode)]
      ensures primitive.paperTrail == Appended(old(primitive.paperTrail), Ascii(opcode))
      ensures primitive.recordStart == old(primitive.recordStart)
      ensures waitBuffer == old(waitBuffer) + [Pending(kind, Arity(kind), now)]
      ensures inBuffer == old(inBuffer)
    {
      assert EncodeCommand(Ascii(opcode), []).value == Ascii(opcode);
      ChunksShape(Ascii(opcode));
      var _ := primitive.SendCommand(Ascii(opcode), []);
      waitBuffer := waitBuffer + [Pending(kind, Arity(kind), now)];
    }

    /** `readTouchScreen`: "RPNXYW", answered by two values once the screen is touched. */
    method ReadTouchScreen(now: int)
      requires Valid()
      modifies this, primitive
      ensures Valid()
      ensures primitive.bus == old(primitive.bus) + [Ascii("RPNXYW")]
      ensures primitive.paperTrail == Appended(old(primitive.paperTrail), Ascii("RPNXYW"))
      ensures primitive.recordStart == old(primitive.recordStart)
      ensures waitBuffer == old(waitBuffer) + [Pending(Click, 2, now)]
      ensures inBuffer == old(inBuffer)
    {
      Register("RPNXYW", Click, now);
    }

    /** `readClick`: "RPNXYC", answered by two values once the touch is released. */
    method ReadClick(now: int)
      requires Valid()
      modifies this, primitive
      ensures Valid()
      ensures primitive.bus == old(primitive.bus) + [Ascii("RPNXYC")]
      ensures primitive.paperTrail == Appended(old(primitive.paperTrail), Ascii("RPNXYC"))
      ensures primitive.recordStart == old(primitive.recordStart)
      ensures waitBuffer == old(waitBuffer) + [Pending(Click, 2, now)]
      ensures inBuffer == old(inBuffer)
    {
      Register("RPNXYC", Click, now);
    }

    /** `checkTouchScreen`: "RPNXYI", answered at once by two values (out of range when untouched). */
    method CheckTouchScreen(now: int)
      requires Valid()
      modifies this, primitive
      ensures Valid()
      ensures primitive.bus == old(primitive.bus) + [Ascii("RPNXYI")]
      ensures primitive.paperTrail == Appended(old(primitive.paperTrail), Ascii("RPNXYI"))
      ensures primitive.recordStart == old(primitive.recordStart)
      ensures waitBuffer == old(waitBuffer) + [Pending(Click, 2, now)]
      ensures inBuffer == old(inBuffer)
    {
      Register("RPNXYI", Click, now);
    }

    /** `readVoltage`: "RDBAT", answered by one value in millivolts. */
    method ReadVoltage(now: int)
      requires Valid()
      modifies this, primitive
      ensures Valid()
      ensures primitive.bus == old(primitive.bus) + [Ascii("RDBAT")]
      ensures primitive.paperTrail == Appended(old(primitive.paperTrail), Ascii("RDBAT"))
      ensures primitive.recordStart == old(primitive.recordStart)
      ensures waitBuffer == old(waitBuffer) + [Pending(Voltage, 1, now)]
      ensures inBuffer == old(inBuffer)
    {
      Register("RDBAT", Voltage, now);
    }

    /** `readAnalog`: "RDAUX", answered by one value in 0..4095. */
    method ReadAnalog(now: int)
      requires Valid()
      modifies this, primitive
      ensures Valid()
      ensures primitive.bus == old(primitive.bus) + [Ascii("RDAUX")]
      ensures primitive.paperTrail == Appended(old(primitive.paperTrail), Ascii("RDAUX"))
      ensures primitive.recordStart == old(primitive.recordStart)
      ensures waitBuffer == old(waitBuffer) + [Pending(Analog, 1, now)]
      ensures inBuffer == old(inBuffer)
    {
      Register("RDAUX", Analog, now);
    }

    /** `readTemperature`: "RDTMP", answered by one value. */
    method ReadTemperature(now: int)
      requires Valid()
      modifies this, primitive
      ensures Valid()
      ensures primitive.bus == old(primitive.bus) + [Ascii("RDTMP")]
      ensures primitive.paperTrail == Appended(old(primitive.paperTrail), Ascii("RDTMP"))
      ensures primitive.recordStart == old(primitive.recordStart)
      ensures waitBuffer == old(waitBuffer) + [Pending(Temp, 1, now)]
      ensures inBuffer == old(inBuffer)
    {
      Register("RDTMP", Temp, now);
    }

    /**
     * The drain of `doCheck`: one `_readInt` per pending entry, appended to
     * `_inBuffer` in arrival order, until the bus times out or fails.
     */
    method DrainReplies(replies: seq<Reply>) returns (fault: bool)
      requires Valid()
      modifies this
      ensures WellFormed(waitBuffer) && primitive.Valid()
      ensures var d := Drain(replies, |old(waitBuffer)|);
        && fault == d.fault
        && waitBuffer == old(waitBuffer) && inBuffer == old(inBuffer) + d.values
    {
      var n := |waitBuffer|;
      ghost var drained := Drain(replies, n);
      DrainValues(replies, n);
      var k := 0;
      while k < n
        invariant k <= |drained.values|
        invariant inBuffer == old(inBuffer) + drained.values[..k]
        invariant waitBuffer == old(waitBuffer)
      {
        if k >= |replies| {
          break;
        }
        match replies[k] {
          case Data(hi, lo) =>
            assert drained.values[..k + 1] == drained.values[..k] + [BigEndian(hi, lo)];
            inBuffer := inBuffer + [BigEndian(hi, lo)];
          case TimedOut =>
            break;
          case Fault =>
            assert drained.values[..k] == drained.values;
            return true;
        }
        k := k + 1;
      }
      assert drained.values[..k] == drained.values;
      fault := false;
    }

    /**
     * The walk of `doCheck`: Python's list iterator over `_waitBuffer`, which
     * `pop(0)` shortens while it runs.
     */
    method WalkPending(now: int) returns (result: seq<Event>)
      requires WellFormed(waitBuffer)
      modifies this
      ensures var w := Walk(old(waitBuffer), old(inBuffer), now, 0);
        waitBuffer == w.wait && inBuffer == w.inBuf && result == w.events
    {
      result := [];
      var i := 0;
      while i < |waitBuffer|
        invariant WellFormed(waitBuffer)
        invariant Walk(old(waitBuffer), old(inBuffer), now, 0)
          == Walk(waitBuffer, inBuffer, now, i).(events := result + Walk(waitBuffer, inBuffer, now, i).events)
        decreases |waitBuffer| - i
      {
        var entry := waitBuffer[i];
        i := i + 1;
        if now - entry.stamp > Timeout {
          waitBuffer := waitBuffer[1..];
          continue;
        }
        if |inBuffer| < entry.arity {
          break;
        }
        var args := inBuffer[..entry.arity];
        inBuffer := inBuffer[entry.arity..];
        if entry.kind == Click && args[0] > 1000 {
          continue;
        }
        var derived :=
          if entry.kind == Analog then Some(AnalogVolts(args[0]))
          else if entry.kind == Temp then Some(TempCelsius(args[0]))
          else None;
        var event := Event(entry.kind, derived, args);
        assert result + ([event] + Walk(waitBuffer, inBuffer, now, i).events)
          == (result + [event]) + Walk(waitBuffer, inBuffer, now, i).events;
        result := result + [event];
      }
      assert result + [] == result;
    }

    /**
     * `doCheck()` at time `now`, with the bus answering the reads with
     * `replies`: drain, walk, and resynchronise the buffers once nothing is
     * pending.
     */
    method DoCheck(now: int, replies: seq<Reply>) returns (r: PollResult)
      requires Valid()
      modifies this
      ensures Valid()
      ensures var d := Drain(replies, |old(waitBuffer)|);
        if d.fault then
          r == BusError && waitBuffer == old(waitBuffer) && inBuffer == old(inBuffer) + d.values
        else
          var c := Check(old(waitBuffer), old(inBuffer) + d.values, now);
          r == Events(c.events) && waitBuffer == c.wait && inBuffer == c.inBuf
    {
      var fault := DrainReplies(replies);
      if fault {
        return BusError;
      }
      WalkTakesFromFront(waitBuffer, inBuffer, now, 0);
      var events := WalkPending(now);
      if waitBuffer == [] {
        inBuffer := [];
      }
      r := Events(events);
    }

    /** `setFont(b)` */
    method SetFont(b: int) returns (r: Outcome<Error>)
      requires Valid()
      modifies primitive
      ensures Valid()
      ensures primitive.recordStart == old(primitive.recordStart)
      ensures FontCommand(b).Failure? ==>
        r == Fail(FontCommand(b).error) && primitive.bus == old(primitive.bus)
        && primitive.paperTrail == old(primitive.paperTrail)
      ensures FontCommand(b).Success? ==>
        var cmd := FontCommand(b).value;
        match EncodeCommand(cmd.opcode, cmd.args)
        case Failure(e) =>
          r == Fail(e) && primitive.bus == old(primitive.bus) && primitive.paperTrail == old(primitive.paperTrail)
        case Success(bs) =>
          && r == Pass && primitive.bus == old(primitive.bus) + Chunks(bs)
          && primitive.paperTrail == Appended(old(primitive.paperTrail), bs)
    {
      match FontCommand(b) {
        case Failure(e) =>
          return Fail(e);
        case Success(cmd) =>
          r := primitive.SendCommand(cmd.opcode, cmd.args);
      }
    }

    /** `drawRectangle(x, y, w, h, filled)` */
    method DrawRectangle(x: int, y: int, w: int, h: int, filled: bool) returns (r: Outcome<Error>)
      requires Valid()
      modifies primitive
      ensures Valid()
      ensures primitive.recordStart == old(primitive.recordStart)
      ensures var cmd := RectangleCommand(x, y, w, h, filled);
        match EncodeCommand(cmd.opcode, cmd.args)
        case Failure(e) =>
          r == Fail(e) && primitive.bus == old(primitive.bus) && primitive.paperTrail == old(primitive.paperTrail)
        case Success(bs) =>
          && r == Pass && primitive.bus == old(primitive.bus) + Chunks(bs)
          && primitive.paperTrail == Appended(old(primitive.paperTrail), bs)
    {
      var cmd := RectangleCommand(x, y, w, h, filled);
      r := primitive.SendCommand(cmd.opcode, cmd.args);
    }

    /** `setColor(c)` */
    method SetColor(c: Color) returns (r: Outcome<Error>)
      requires Valid()
      modifies primitive
      ensures Valid()
      ensures primitive.recordStart == old(primitive.recordStart)
      ensures var cmd := ColorCommand(c);
        match EncodeCommand(cmd.opcode, cmd.args)
        case Failure(e) =>
          r == Fail(e) && primitive.bus == old(primitive.bus) && primitive.paperTrail == old(primitive.paperTrail)
        case Success(bs) =>
          && r == Pass && primitive.bus == old(primitive.bus) + Chunks(bs)
          && primitive.paperTrail == Appended(old(primitive.paperTrail), bs)
    {
      var cmd := ColorCommand(c);
      r := primitive.SendCommand(cmd.opcode, cmd.args);
    }
  }
}
