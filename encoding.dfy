/**
 * The argument encoder of `DigolePrimitive._sendCommand` and the two-byte
 * decoder of `_readInt`, as pure functions on bytes.
 */
module Encoding {
  import opened Wrappers

  newtype byte = x: int | 0 <= x < 256

  /** The exceptions the protocol core raises by itself. */
  datatype Error =
    | IntOutOfRange(n: int)         // OverflowError from `int.to_bytes(1, "big")`
    | FontIndexOutOfRange(b: int)   // IndexError from the font table of `setFont`

  /** One argument of `_sendCommand`, by its Python run-time type. */
  datatype Arg =
    | Bytes(raw: seq<byte>)   // `type(arg) is bytes`: copied verbatim
    | Int(n: int)             // `type(arg) is int` (a `bool` is not one)
    | Str(text: string)       // `str`
    | Bool(b: bool)           // `bool`: falls through to `str(arg)`
    | Other(repr: string)     // any other value, given by what `str(arg)` returns
    | Absent                  // `None`: contributes nothing

  /** The extension byte: one of these in front of a byte adds 255 to it. */
  const Extension: byte := 0xFF

  /** The largest value the encoder accepts: one extension plus a full byte. */
  const MaxInt := 510

  // ---------------------------------------------------------------------------
  // Integers
  // ---------------------------------------------------------------------------

  /**
   * An `int` argument: values from 255 up get one 0xFF extension byte and
   * lose 255; what is left must fit `to_bytes(1, "big")`, i.e. lie in 0..255.
   */
  function EncodeInt(n: int): (r: Result<seq<byte>, Error>)
    ensures 0 <= n < 255 ==> r == Success([n as byte])
    ensures 255 <= n <= MaxInt ==> r == Success([Extension, (n - 255) as byte])
    ensures r.Success? <==> 0 <= n <= MaxInt
    ensures r.Failure? ==> r.error == IntOutOfRange(n)
  {
    if n >= 255 then
      if n - 255 < 256 then Success([Extension, (n - 255) as byte]) else Failure(IntOutOfRange(n))
    else
      if 0 <= n then Success([n as byte]) else Failure(IntOutOfRange(n))
  }

  /** How the display reads an extended integer: 255 for every leading 0xFF, plus the last byte. */
  function DecodeInt(bs: seq<byte>): (r: Option<int>)
  {
    if |bs| == 0 then None
    else if |bs| == 1 then Some(bs[0] as int)
    else if bs[0] == Extension then
      match DecodeInt(bs[1..])
      case Some(v) => Some(255 + v)
      case None => None
    else None
  }

  lemma EncodeIntRoundTrip(n: int)
    requires 0 <= n <= MaxInt
    ensures EncodeInt(n).Success?
    ensures 1 <= |EncodeInt(n).value| <= 2
    ensures DecodeInt(EncodeInt(n).value) == Some(n)
    ensures (EncodeInt(n).value[0] == Extension) <==> n >= 255
  {
    var bs := EncodeInt(n).value;
    if n >= 255 {
      assert bs[1..] == [(n - 255) as byte];
    }
  }

  /** Two different accepted integers never share an encoding. */
  lemma EncodeIntInjective(m: int, n: int)
    requires EncodeInt(m).Success? && EncodeInt(n).Success?
    requires EncodeInt(m) == EncodeInt(n)
    ensures m == n
  {
    EncodeIntRoundTrip(m);
    EncodeIntRoundTrip(n);
  }

  // ---------------------------------------------------------------------------
  // Text
  // ---------------------------------------------------------------------------

  /** The UTF-8 encoding of one Unicode scalar value. */
  function Utf8Char(c: char): (r: seq<byte>)
    ensures 1 <= |r| <= 4
    ensures |r| == 1 <==> c as int < 0x80
    ensures |r| == 1 ==> r[0] as int == c as int
    ensures c != '\0' ==> forall k :: 0 <= k < |r| ==> r[k] != 0
  {
    var cp := c as int;
    if cp < 0x80 then [cp as byte]
    else if cp < 0x800 then [(0xC0 + cp / 64) as byte, (0x80 + cp % 64) as byte]
    else if cp < 0x10000 then
      [(0xE0 + cp / 4096) as byte, (0x80 + (cp / 64) % 64) as byte, (0x80 + cp % 64) as byte]
    else
      [(0xF0 + cp / 262144) as byte, (0x80 + (cp / 4096) % 64) as byte,
       (0x80 + (cp / 64) % 64) as byte, (0x80 + cp % 64) as byte]
  }

  /** `s.encode("utf-8")` */
  function Utf8(s: string): seq<byte>
  {
    if s == [] then [] else Utf8Char(s[0]) + Utf8(s[1..])
  }

  /** The bytes of an ASCII literal such as `b'RPNXYW'`. */
  function Ascii(s: string): (r: seq<byte>)
    requires IsAscii(s)
    ensures |r| == |s|
    ensures forall k :: 0 <= k < |s| ==> r[k] as int == s[k] as int
  {
    seq(|s|, k requires 0 <= k < |s| => s[k] as byte)
  }

  predicate IsAscii(s: string)
  {
    forall k :: 0 <= k < |s| ==> s[k] as int < 0x80
  }

  lemma {:induction false} Utf8OfAscii(s: string)
    requires IsAscii(s)
    ensures Utf8(s) == Ascii(s)
  {
    if s != [] {
      Utf8OfAscii(s[1..]);
      assert Utf8(s) == [s[0] as byte] + Ascii(s[1..]);
    }
  }

  /** UTF-8 never produces a zero byte except for the NUL character itself. */
  lemma {:induction false} Utf8NoZero(s: string)
    requires forall k :: 0 <= k < |s| ==> s[k] != '\0'
    ensures forall k :: 0 <= k < |Utf8(s)| ==> Utf8(s)[k] != 0
  {
    if s != [] {
      Utf8NoZero(s[1..]);
      var head, tail := Utf8Char(s[0]), Utf8(s[1..]);
      forall k | 0 <= k < |head + tail| ensures (head + tail)[k] != 0 {
        if k >= |head| {
          assert (head + tail)[k] == tail[k - |head|];
        }
      }
    }
  }

  /** Number of bytes announced by a UTF-8 lead byte, or 0 if it is not one. */
  function LeadLength(b: byte): nat
  {
    if b < 0x80 then 1
    else if 0xC0 <= b < 0xE0 then 2
    else if 0xE0 <= b < 0xF0 then 3
    else if 0xF0 <= b < 0xF8 then 4
    else 0
  }

  predicate IsScalar(v: int)
  {
    0 <= v < 0xD800 || 0xE000 <= v < 0x11_0000
  }

  /** Reads back one character from its complete UTF-8 sequence. */
  function DecodeChar(bs: seq<byte>): Option<char>
    requires 1 <= |bs| <= 4
  {
    var v :=
      if |bs| == 1 then bs[0] as int
      else if |bs| == 2 then (bs[0] as int - 0xC0) * 64 + (bs[1] as int - 0x80)
      else if |bs| == 3 then
        (bs[0] as int - 0xE0) * 4096 + (bs[1] as int - 0x80) * 64 + (bs[2] as int - 0x80)
      else
        (bs[0] as int - 0xF0) * 262144 + (bs[1] as int - 0x80) * 4096
        + (bs[2] as int - 0x80) * 64 + (bs[3] as int - 0x80);
    if IsScalar(v) then Some(v as char) else None
  }

  /** A UTF-8 reader, the partner of `Utf8`. */
  function Utf8Decode(bs: seq<byte>): Option<string>
    decreases |bs|
  {
    if bs == [] then Some([])
    else
      var n := LeadLength(bs[0]);
      if n == 0 || n > |bs| then None
      else
        match DecodeChar(bs[..n])
        case None => None
        case Some(c) =>
          match Utf8Decode(bs[n..])
          case None => None
          case Some(rest) => Some([c] + rest)
  }

  lemma Utf8TwoBytes(c: char)
    requires 0x80 <= c as int < 0x800
    ensures LeadLength(Utf8Char(c)[0]) == 2
    ensures DecodeChar(Utf8Char(c)) == Some(c)
  {
    var cp := c as int;
    var bs := Utf8Char(c);
    var q, r := cp / 64, cp % 64;
    assert bs[0] as int - 0xC0 == q && bs[1] as int - 0x80 == r;
  }

  lemma Utf8ThreeBytes(c: char)
    requires 0x800 <= c as int < 0x10000
    ensures LeadLength(Utf8Char(c)[0]) == 3
    ensures DecodeChar(Utf8Char(c)) == Some(c)
  {
    var cp := c as int;
    var bs := Utf8Char(c);
    var q, r := cp / 64, cp % 64;
    var q2, r2 := q / 64, q % 64;
    assert cp / 4096 == q2;
    assert bs[0] as int - 0xE0 == q2 && bs[1] as int - 0x80 == r2 && bs[2] as int - 0x80 == r;
    assert q2 * 4096 + r2 * 64 + r == cp;
  }

  lemma Utf8FourBytes(c: char)
    requires 0x10000 <= c as int
    ensures LeadLength(Utf8Char(c)[0]) == 4
    ensures DecodeChar(Utf8Char(c)) == Some(c)
  {
    var cp := c as int;
    var bs := Utf8Char(c);
    var q, r := cp / 64, cp % 64;
    var q2, r2 := q / 64, q % 64;
    var q3, r3 := q2 / 64, q2 % 64;
    assert cp / 4096 == q2 && cp / 262144 == q3;
    assert bs[0] as int - 0xF0 == q3 && bs[1] as int - 0x80 == r3;
    assert bs[2] as int - 0x80 == r2 && bs[3] as int - 0x80 == r;
    assert q3 * 262144 + r3 * 4096 + r2 * 64 + r == cp;
  }

  /** A character's UTF-8 sequence announces its length in its first byte and reads back as the character. */
  lemma Utf8CharRoundTrip(c: char)
    ensures LeadLength(Utf8Char(c)[0]) == |Utf8Char(c)|
    ensures DecodeChar(Utf8Char(c)) == Some(c)
  {
    if c as int < 0x80 {
    } else if c as int < 0x800 {
      Utf8TwoBytes(c);
    } else if c as int < 0x10000 {
      Utf8ThreeBytes(c);
    } else {
      Utf8FourBytes(c);
    }
  }

  lemma {:induction false} Utf8RoundTrip(s: string)
    ensures Utf8Decode(Utf8(s)) == Some(s)
  {
    if s != [] {
      var head, tail := Utf8Char(s[0]), Utf8(s[1..]);
      Utf8CharRoundTrip(s[0]);
      Utf8RoundTrip(s[1..]);
      assert (head + tail)[0] == head[0];
      assert (head + tail)[..|head|] == head;
      assert (head + tail)[|head|..] == tail;
      assert [s[0]] + s[1..] == s;
    }
  }

  // ---------------------------------------------------------------------------
  // Arguments and whole commands
  // ---------------------------------------------------------------------------

  /** The text `str(arg)` yields for the arguments that are sent as text. */
  function TextOf(a: Arg): string
    requires a.Str? || a.Bool? || a.Other?
  {
    match a
    case Str(s) => s
    case Bool(b) => if b then "True" else "False"
    case Other(repr) => repr
  }

  /** The bytes one argument contributes to a command. */
  function EncodeArg(a: Arg): Result<seq<byte>, Error>
  {
    match a
    case Bytes(raw) => Success(raw)
    case Int(n) => EncodeInt(n)
    case Absent => Success([])
    case _ => Success(Utf8(TextOf(a)) + [0])
  }

  /**
   * A text argument is its UTF-8 encoding and one zero byte, and the bytes
   * before that terminator read back as the text; when the text holds no
   * NUL, the terminator is the only zero.
   */
  lemma TextArgRoundTrip(a: Arg)
    requires a.Str? || a.Bool? || a.Other?
    ensures EncodeArg(a).Success?
    ensures var bs := EncodeArg(a).value;
      && |bs| >= 1 && bs[|bs| - 1] == 0
      && Utf8Decode(bs[..|bs| - 1]) == Some(TextOf(a))
      && ((forall k :: 0 <= k < |TextOf(a)| ==> TextOf(a)[k] != '\0') ==> forall k :: 0 <= k < |bs| - 1 ==> bs[k] != 0)
  {
    var s := TextOf(a);
    var bs := EncodeArg(a).value;
    assert bs[..|bs| - 1] == Utf8(s);
    if forall k :: 0 <= k < |s| ==> s[k] != '\0' {
      Utf8NoZero(s);
    }
    Utf8RoundTrip(s);
  }

  /**
   * The arguments of `_sendCommand`, encoded one after another in order; the
   * first argument that fails aborts the whole command.
   */
  function EncodeArgs(args: seq<Arg>): Result<seq<byte>, Error>
  {
    if args == [] then Success([])
    else
      match EncodeArgs(args[..|args| - 1])
      case Failure(e) => Failure(e)
      case Success(front) =>
        match EncodeArg(args[|args| - 1])
        case Failure(e) => Failure(e)
        case Success(last) => Success(front + last)
  }

  /** The bytes `_sendCommand(command, *args)` hands to `_write`. */
  function EncodeCommand(opcode: seq<byte>, args: seq<Arg>): Result<seq<byte>, Error>
  {
    match EncodeArgs(args)
    case Failure(e) => Failure(e)
    case Success(body) => Success(opcode + body)
  }

  /** An argument the encoder refuses: an `int` outside 0..510. */
  predicate Refused(a: Arg)
  {
    a.Int? && !(0 <= a.n <= MaxInt)
  }

  /** Encoding distributes over concatenation of argument lists. */
  lemma {:induction false} EncodeArgsAppend(xs: seq<Arg>, ys: seq<Arg>)
    ensures EncodeArgs(xs + ys) ==
      match EncodeArgs(xs)
      case Failure(e) => Failure(e)
      case Success(a) =>
        match EncodeArgs(ys)
        case Failure(e) => Failure(e)
        case Success(b) => Success(a + b)
    decreases |ys|
  {
    if ys == [] {
      assert xs + ys == xs;
      if EncodeArgs(xs).Success? {
        assert EncodeArgs(xs).value + [] == EncodeArgs(xs).value;
      }
    } else {
      var ys', y := ys[..|ys| - 1], ys[|ys| - 1];
      assert (xs + ys)[..|xs + ys| - 1] == xs + ys';
      assert (xs + ys)[|xs + ys| - 1] == y;
      EncodeArgsAppend(xs, ys');
      if EncodeArgs(xs).Success? && EncodeArgs(ys').Success? && EncodeArg(y).Success? {
        var a, b, c := EncodeArgs(xs).value, EncodeArgs(ys').value, EncodeArg(y).value;
        assert EncodeArgs(xs + ys) == Success((a + b) + c);
        assert EncodeArgs(ys) == Success(b + c);
        assert (a + b) + c == a + (b + c);
      }
    }
  }

  /** Encoding one more argument of a list. */
  lemma EncodeArgsStep(args: seq<Arg>, i: nat)
    requires i < |args|
    ensures EncodeArgs(args[..i + 1]) ==
      match EncodeArgs(args[..i])
      case Failure(e) => Failure(e)
      case Success(front) =>
        match EncodeArg(args[i])
        case Failure(e) => Failure(e)
        case Success(last) => Success(front + last)
  {
    assert args[..i + 1][..i] == args[..i];
  }

  /** Once a prefix of the arguments fails, the whole list fails with the same error. */
  lemma EncodeArgsPrefixFailure(args: seq<Arg>, i: nat)
    requires i <= |args| && EncodeArgs(args[..i]).Failure?
    ensures EncodeArgs(args) == EncodeArgs(args[..i])
  {
    EncodeArgsAppend(args[..i], args[i..]);
    assert args[..i] + args[i..] == args;
  }

  /**
   * A command fails exactly when one of its arguments is refused, and then
   * with the error of the first refused argument.
   */
  lemma {:induction false} EncodeArgsFailure(args: seq<Arg>)
    ensures EncodeArgs(args).Failure? <==> exists k :: 0 <= k < |args| && Refused(args[k])
    ensures EncodeArgs(args).Failure? ==>
      exists k :: 0 <= k < |args| && Refused(args[k])
        && (forall j :: 0 <= j < k ==> !Refused(args[j]))
        && EncodeArgs(args).error == IntOutOfRange(args[k].n)
  {
    if args != [] {
      var front := args[..|args| - 1];
      EncodeArgsFailure(front);
      if EncodeArgs(front).Failure? {
        var k :| 0 <= k < |front| && Refused(front[k])
          && (forall j :: 0 <= j < k ==> !Refused(front[j]))
          && EncodeArgs(front).error == IntOutOfRange(front[k].n);
        assert args[k] == front[k];
        assert forall j :: 0 <= j < k ==> args[j] == front[j];
      } else {
        assert forall j :: 0 <= j < |front| ==> args[j] == front[j];
      }
    }
  }

  /** Glues a list of byte strings back together. */
  function Flatten(ws: seq<seq<byte>>): seq<byte>
  {
    if ws == [] then [] else ws[0] + Flatten(ws[1..])
  }

  lemma {:induction false} FlattenAppend(xs: seq<seq<byte>>, ys: seq<seq<byte>>)
    ensures Flatten(xs + ys) == Flatten(xs) + Flatten(ys)
  {
    if xs == [] {
      assert xs + ys == ys;
    } else {
      assert (xs + ys)[1..] == xs[1..] + ys;
      FlattenAppend(xs[1..], ys);
    }
  }

  /**
   * A command without refused arguments is its opcode followed by each
   * argument's own encoding, in argument order.
   */
  lemma {:induction false} EncodeCommandLayout(opcode: seq<byte>, args: seq<Arg>)
    requires forall k :: 0 <= k < |args| ==> !Refused(args[k])
    ensures forall k :: 0 <= k < |args| ==> EncodeArg(args[k]).Success?
    ensures EncodeCommand(opcode, args)
      == Success(opcode + Flatten(seq(|args|, k requires 0 <= k < |args| => EncodeArg(args[k]).value)))
  {
    EncodeArgsLayout(args);
  }

  lemma {:induction false} EncodeArgsLayout(args: seq<Arg>)
    requires forall k :: 0 <= k < |args| ==> !Refused(args[k])
    ensures forall k :: 0 <= k < |args| ==> EncodeArg(args[k]).Success?
    ensures EncodeArgs(args)
      == Success(Flatten(seq(|args|, k requires 0 <= k < |args| => EncodeArg(args[k]).value)))
  {
    if args != [] {
      var front := args[..|args| - 1];
      EncodeArgsLayout(front);
      var pieces := seq(|args|, k requires 0 <= k < |args| => EncodeArg(args[k]).value);
      var frontPieces := seq(|front|, k requires 0 <= k < |front| => EncodeArg(front[k]).value);
      assert pieces == frontPieces + [EncodeArg(args[|args| - 1]).value];
      FlattenAppend(frontPieces, [EncodeArg(args[|args| - 1]).value]);
      assert Flatten([EncodeArg(args[|args| - 1]).value]) == EncodeArg(args[|args| - 1]).value;
    }
  }

  /** Integers below 255 are sent as one byte each, in argument order. */
  lemma {:induction false} EncodeSmallInts(args: seq<Arg>)
    requires forall k :: 0 <= k < |args| ==> args[k].Int? && 0 <= args[k].n < 255
    ensures EncodeArgs(args).Success?
    ensures |EncodeArgs(args).value| == |args|
    ensures forall k :: 0 <= k < |args| ==> EncodeArgs(args).value[k] as int == args[k].n
  {
    if args != [] {
      EncodeSmallInts(args[..|args| - 1]);
    }
  }

  // ---------------------------------------------------------------------------
  // Responses
  // ---------------------------------------------------------------------------

  /** `int.from_bytes(raw, "big")` for the two bytes `_readInt` reads. */
  function BigEndian(hi: byte, lo: byte): (v: int)
    ensures 0 <= v < 0x1_0000
    ensures v / 256 == hi as int && v % 256 == lo as int
  {
    256 * hi as int + lo as int
  }
}
