/**
 * `DigolePrimitive`: the chunked writer, the recording tap on it, script
 * replay and the command encoder's entry point.
 */
module Primitive {
  import opened Wrappers
  import opened Encoding
  import opened Chunking

  /** What a recording buffer becomes after `v` was written. */
  function Appended(trail: Option<seq<byte>>, v: seq<byte>): Option<seq<byte>>
  {
    match trail
    case None => None
    case Some(buffer) => Some(buffer + v)
  }

  lemma AppendedAppend(trail: Option<seq<byte>>, a: seq<byte>, b: seq<byte>)
    ensures Appended(Appended(trail, a), b) == Appended(trail, a + b)
    ensures Appended(trail, []) == trail
  {
    if trail.Some? {
      assert (trail.value + a) + b == trail.value + (a + b);
      assert trail.value + [] == trail.value;
    }
  }

  /** What a stream handler passed to `stopRecording` does with the buffer. */
  datatype HandlerOutcome = Returned | Raised

  /** The four ways `stopRecording` can end. */
  datatype StopResult =
    | NotRecording          // returned `None`: nothing was being recorded
    | Captured(data: seq<byte>)  // no handler: the buffer's contents
    | Size(n: nat)          // a handler ran and returned: the buffer's size
    | HandlerFailed         // the handler raised; the exception propagates

  class DigolePrimitive {
    /** Every `i2c.writeto(address, chunk)` so far, oldest first. */
    ghost var bus: seq<seq<byte>>
    /** Where in `bus` the current recording started. */
    ghost var recordStart: nat
    /** `_paperTrail`: `None` when idle, the recorded bytes while recording. */
    var paperTrail: Option<seq<byte>>

    /** While recording, the buffer holds exactly the bytes written to the bus since the recording started. */
    ghost predicate Valid()
      reads this
    {
      paperTrail.Some? ==> recordStart <= |bus| && Flatten(bus[recordStart..]) == paperTrail.value
    }

    constructor ()
      ensures Valid()
      ensures bus == [] && paperTrail == None
    {
      bus := [];
      recordStart := 0;
      paperTrail := None;
    }

    predicate IsRecording()
      reads this
    {
      paperTrail.Some?
    }

    /** `_write(v)`: every byte of output to the display passes here. */
    method Write(v: seq<byte>)
      requires Valid()
      modifies this
      ensures Valid()
      ensures bus == old(bus) + Chunks(v)
      ensures paperTrail == Appended(old(paperTrail), v)
      ensures recordStart == old(recordStart)
      decreases |v|
    {
      if |v| > ChunkSize {
        var i := 0;
        assert v[..0] == [];
        AppendedAppend(old(paperTrail), [], []);
        while i < |v|
          invariant Valid() && recordStart == old(recordStart)
          invariant old(bus) + Slices(v, 0) == bus + Slices(v, i)
          invariant paperTrail == Appended(old(paperTrail), v[..Min(i, |v|)])
        {
          var chunk := v[i..Min(i + ChunkSize, |v|)];
          Write(chunk);
          assert v[..Min(i + ChunkSize, |v|)] == v[..i] + chunk;
          AppendedAppend(old(paperTrail), v[..i], chunk);
          i := i + ChunkSize;
        }
        assert v[..Min(i, |v|)] == v;
      } else {
        ghost var before := bus;
        bus := bus + [v];
        if IsRecording() {
          paperTrail := Some(paperTrail.value + v);
          assert bus[recordStart..] == before[recordStart..] + [v];
          FlattenAppend(before[recordStart..], [v]);
          assert Flatten([v]) == v;
        }
      }
    }

    /** `startRecording`: begins a recording unless one is already running. */
    method StartRecording()
      requires Valid()
      modifies this
      ensures Valid()
      ensures bus == old(bus)
      ensures old(IsRecording()) ==> paperTrail == old(paperTrail) && recordStart == old(recordStart)
      ensures !old(IsRecording()) ==> paperTrail == Some([]) && recordStart == |bus|
    {
      if !IsRecording() {
        paperTrail := Some([]);
        recordStart := |bus|;
      }
    }

    /** `getRecordingSize`: the number of bytes recorded so far, 0 when idle. */
    method GetRecordingSize() returns (size: nat)
      ensures !IsRecording() ==> size == 0
      ensures IsRecording() ==> size == |paperTrail.value|
    {
      size := if !IsRecording() then 0 else |paperTrail.value|;
    }

    /**
     * `stopRecording(streamHandler)`: ends the recording on every path, also
     * when the handler raises. The handler, when given, sees the whole buffer.
     */
    method StopRecording(handler: Option<seq<byte> -> HandlerOutcome>) returns (r: StopResult)
      requires Valid()
      modifies this
      ensures Valid()
      ensures paperTrail == None && bus == old(bus)
      ensures !old(IsRecording()) ==> r == NotRecording
      ensures old(IsRecording()) && handler.None? ==> r == Captured(old(paperTrail).value)
      ensures old(IsRecording()) && handler.Some? ==>
        r == if handler.value(old(paperTrail).value) == Raised then HandlerFailed
             else Size(|old(paperTrail).value|)
      ensures r.Captured? ==> r.data == Flatten(bus[old(recordStart)..])
    {
      if !IsRecording() {
        return NotRecording;
      }
      var buffer := paperTrail.value;
      match handler {
        case Some(h) =>
          var size := GetRecordingSize();
          var outcome := h(buffer);
          r := if outcome == Raised then HandlerFailed else Size(size);
        case None =>
          r := Captured(buffer);
      }
      // the `finally` clause: the buffer is released on every path
      paperTrail := None;
    }

    /**
     * `executeScript`: replays recorded bytes through `_write`; the bytes that
     * reach the bus are exactly the script.
     */
    method ExecuteScript(script: seq<byte>)
      requires Valid()
      modifies this
      ensures Valid()
      ensures bus == old(bus) + Chunks(script)
      ensures Flatten(bus[|old(bus)|..]) == script
      ensures paperTrail == Appended(old(paperTrail), script)
      ensures recordStart == old(recordStart)
    {
      Write(script);
      assert bus[|old(bus)|..] == Chunks(script);
      ChunksFlatten(script);
    }

    /**
     * `_sendCommand(command, *args)`: encodes the opcode and arguments and
     * hands the result to `_write` in one call; an argument the encoder
     * refuses raises before anything is written.
     */
    method SendCommand(opcode: seq<byte>, args: seq<Arg>) returns (r: Outcome<Error>)
      requires Valid()
      modifies this
      ensures Valid()
      ensures recordStart == old(recordStart)
      ensures EncodeCommand(opcode, args).Failure? ==>
        r == Fail(EncodeCommand(opcode, args).error) && bus == old(bus) && paperTrail == old(paperTrail)
      ensures EncodeCommand(opcode, args).Success? ==>
        && r == Pass
        && bus == old(bus) + Chunks(EncodeCommand(opcode, args).value)
        && paperTrail == Appended(old(paperTrail), EncodeCommand(opcode, args).value)
    {
      var command := opcode;
      for i := 0 to |args|
        invariant unchanged(this)
        invariant EncodeArgs(args[..i]).Success?
        invariant command == opcode + EncodeArgs(args[..i]).value
      {
        EncodeArgsStep(args, i);
        var piece: seq<byte>;
        match args[i] {
          case Bytes(raw) =>
            piece := raw;
          case Int(n) =>
            piece := [];
            var rest := n;
            if rest >= 255 {
              piece := [Extension];
              rest := rest - 255;
            }
            if !(0 <= rest < 256) {
              EncodeArgsPrefixFailure(args, i + 1);
              return Fail(IntOutOfRange(n));
            }
            piece := piece + [rest as byte];
          case Absent =>
            piece := [];
          case _ =>
            piece := Utf8(TextOf(args[i])) + [0];
        }
        assert opcode + EncodeArgs(args[..i]).value + piece == opcode + (EncodeArgs(args[..i]).value + piece);
        command := command + piece;
      }
      assert args[..|args|] == args;
      Write(command);
      r := Pass;
    }
  }
}
