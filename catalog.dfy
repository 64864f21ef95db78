/**
 * The three catalog operations of `DigoleBasic` that shape their arguments
 * before encoding: `setFont`, `drawRectangle` and `setColor`.
 */
module Catalog {
  import opened Wrappers
  import opened Encoding

  /** An opcode and its arguments, as passed to `_sendCommand`. */
  datatype Command = Command(opcode: seq<byte>, args: seq<Arg>)

  /** The font codes `setFont` substitutes for the small indices 0..6. */
  const FontTable: seq<int> := [0, 6, 10, 18, 51, 120, 123]

  /** Python's `xs[k]`: a negative index counts from the end; outside the list it raises. */
  function PyIndex(xs: seq<int>, k: int): Option<int>
  {
    if 0 <= k < |xs| then Some(xs[k])
    else if -|xs| <= k < 0 then Some(xs[|xs| + k])
    else None
  }

  /** `setFont(b)`: indices below 7 go through the font table, others are sent as they are. */
  function FontCommand(b: int): Result<Command, Error>
  {
    if b < 7 then
      match PyIndex(FontTable, b)
      case None => Failure(FontIndexOutOfRange(b))
      case Some(code) => Success(Command(Ascii("SF"), [Int(code)]))
    else Success(Command(Ascii("SF"), [Int(b)]))
  }

  /**
   * Which font code `setFont(b)` sends: the table entry for 0..6, the entry
   * counted from the end for -7..-1 (Python's negative index), `b` itself from
   * 7 up; below -7 it raises. Every documented font (0..6, 200..203) goes out
   * as "SF" and a single byte.
   */
  lemma FontCommandCases(b: int)
    ensures 0 <= b < 7 ==> FontCommand(b) == Success(Command(Ascii("SF"), [Int(FontTable[b])]))
    ensures -7 <= b < 0 ==> FontCommand(b) == Success(Command(Ascii("SF"), [Int(FontTable[7 + b])]))
    ensures b >= 7 ==> FontCommand(b) == Success(Command(Ascii("SF"), [Int(b)]))
    ensures FontCommand(b).Failure? <==> b < -7
    ensures (0 <= b < 7 || 200 <= b <= 203) ==>
      exists code: byte :: code != Extension &&
        EncodeCommand(FontCommand(b).value.opcode, FontCommand(b).value.args) == Success(Ascii("SF") + [code])
  {
    if 0 <= b < 7 || 200 <= b <= 203 {
      var cmd := FontCommand(b).value;
      var code := cmd.args[0].n;
      assert 0 <= code < 255;
      EncodeSmallInts(cmd.args);
      assert EncodeArgs(cmd.args).value == [code as byte];
      assert EncodeCommand(cmd.opcode, cmd.args) == Success(Ascii("SF") + [code as byte]);
    }
  }

  /** `drawRectangle(x, y, w, h, filled)`: the display takes two corners, not a size. */
  function RectangleCommand(x: int, y: int, w: int, h: int, filled: bool): Command
  {
    Command(Ascii(if filled then "FR" else "DR"), [Int(x), Int(y), Int(x + w), Int(y + h)])
  }

  /**
   * The rectangle goes out as its opcode and the corners (x, y) and
   * (x + w, y + h); it is refused exactly when a corner coordinate lies
   * outside 0..510.
   */
  lemma RectangleBytes(x: int, y: int, w: int, h: int, filled: bool)
    ensures var cmd := RectangleCommand(x, y, w, h, filled);
      EncodeCommand(cmd.opcode, cmd.args).Failure? <==>
        !(0 <= x <= MaxInt && 0 <= y <= MaxInt && 0 <= x + w <= MaxInt && 0 <= y + h <= MaxInt)
    ensures var cmd := RectangleCommand(x, y, w, h, filled);
      (0 <= x < 255 && 0 <= y < 255 && 0 <= x + w < 255 && 0 <= y + h < 255) ==>
        EncodeCommand(cmd.opcode, cmd.args)
          == Success(cmd.opcode + [x as byte, y as byte, (x + w) as byte, (y + h) as byte])
  {
    var cmd := RectangleCommand(x, y, w, h, filled);
    var corners := [x, y, x + w, y + h];
    assert forall k :: 0 <= k < 4 ==> cmd.args[k] == Int(corners[k]);
    EncodeArgsFailure(cmd.args);
    if !(0 <= x <= MaxInt && 0 <= y <= MaxInt && 0 <= x + w <= MaxInt && 0 <= y + h <= MaxInt) {
      var k := if !(0 <= x <= MaxInt) then 0 else if !(0 <= y <= MaxInt) then 1
                else if !(0 <= x + w <= MaxInt) then 2 else 3;
      assert Refused(cmd.args[k]);
    }
    if 0 <= x < 255 && 0 <= y < 255 && 0 <= x + w < 255 && 0 <= y + h < 255 {
      EncodeSmallInts(cmd.args);
      assert EncodeArgs(cmd.args).value == [x as byte, y as byte, (x + w) as byte, (y + h) as byte];
    }
  }

  /** The colour argument of `setColor`: a tuple or list of components, or anything else. */
  datatype Color = Components(values: seq<int>) | Plain(value: Arg)

  /** Python's `x >> 2`, which rounds toward minus infinity like Dafny's `/` by a positive number. */
  function Shr2(x: int): int
  {
    x / 4
  }

  /** `setColor(c)`: components are cut from 8 to 6 bits and sent with "ESC"; anything else with "SC". */
  function ColorCommand(c: Color): Command
  {
    match c
    case Components(cs) => Command(Ascii("ESC"), seq(|cs|, k requires 0 <= k < |cs| => Int(Shr2(cs[k]))))
    case Plain(v) => Command(Ascii("SC"), [v])
  }

  /** 8-bit colour components each become one byte, the component divided by 4 and rounded down. */
  lemma ColorBytes(cs: seq<int>)
    requires forall k :: 0 <= k < |cs| ==> 0 <= cs[k] < 256
    ensures var cmd := ColorCommand(Components(cs));
      EncodeCommand(cmd.opcode, cmd.args).Success?
      && var bs := EncodeCommand(cmd.opcode, cmd.args).value;
      && |bs| == 3 + |cs|
      && bs[..3] == Ascii("ESC")
      && forall k :: 0 <= k < |cs| ==> bs[3 + k] as int == cs[k] / 4 && bs[3 + k] < 64
  {
    var cmd := ColorCommand(Components(cs));
    EncodeSmallInts(cmd.args);
  }
}
