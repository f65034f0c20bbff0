/** The byte framing of `java.io.DataOutput.writeUTF`/`writeInt` and
    `java.io.DataInput.readUTF`/`readInt`, as the plugin uses them through Guava's
    `ByteArrayDataOutput` and `ByteArrayDataInput`.

    A Java `String` is a sequence of UTF-16 code units (`char16` here). `writeUTF` puts a
    2-byte unsigned big-endian length and then each unit in "modified UTF-8": units
    0x0001-0x007F as one byte, 0x0000 and 0x0080-0x07FF as two, the rest as three.
    `readUTF` inverts that and throws on a short or malformed input. */
module DataIO {
  import opened Wrappers
  import opened JavaInt

  /** One octet of a payload (a Java `byte` read as `b & 0xff`). */
  type byte = b: int | 0 <= b < 0x100

  /** One UTF-16 code unit: a Java `char`. */
  type char16 = u: int | 0 <= u < 0x1_0000

  /** What a read or a write throws. */
  datatype Failure =
    | EndOfInput         // EOFException: the input ends before the format does
    | MalformedInput     // UTFDataFormatException from readUTF
    | UnpairedSurrogate  // readUTF produced a string with a lone surrogate code unit
    | EncodingTooLong    // UTFDataFormatException from writeUTF: more than 65535 bytes

  const MaxUtfLength: int := 0xFFFF

  // ------------------------------------------------------------------ Java strings

  predicate IsHighSurrogate(u: int) { 0xD800 <= u < 0xDC00 }
  predicate IsLowSurrogate(u: int) { 0xDC00 <= u < 0xE000 }

  /** The UTF-16 code units of one character: a surrogate pair above 0xFFFF, otherwise
      the character's own code. */
  function CharUnits(c: char): (us: seq<char16>)
    ensures 1 <= |us| <= 2
  {
    var n := c as int;
    if n < 0x1_0000 then [n]
    else [0xD800 + (n - 0x1_0000) / 0x400, 0xDC00 + (n - 0x1_0000) % 0x400]
  }

  /** The UTF-16 code units of a string, as Java holds it. */
  function ToChars16(s: string): (us: seq<char16>)
    ensures |s| <= |us| <= 2 * |s|
  {
    if s == [] then [] else CharUnits(s[0]) + ToChars16(s[1..])
  }

  /** The string a sequence of UTF-16 code units denotes; a surrogate that is not part of
      a pair has no counterpart among Dafny's characters. */
  function FromChars16(us: seq<char16>): (r: Result<string, Failure>)
    ensures r.Success? ==> |r.value| <= |us| <= 2 * |r.value|
    ensures r.Failure? ==> r.error == UnpairedSurrogate
  {
    if us == [] then Success([])
    else if IsHighSurrogate(us[0]) then
      if |us| >= 2 && IsLowSurrogate(us[1]) then
        var c := (0x1_0000 + (us[0] as int - 0xD800) * 0x400 + (us[1] as int - 0xDC00)) as char;
        var rest :- FromChars16(us[2..]);
        Success([c] + rest)
      else Failure(UnpairedSurrogate)
    else if IsLowSurrogate(us[0]) then Failure(UnpairedSurrogate)
    else
      var rest :- FromChars16(us[1..]);
      Success([us[0] as char] + rest)
  }

  /** Reading the units of one character followed by anything reads that character first. */
  lemma FromCharUnits(c: char, tail: seq<char16>)
    ensures FromChars16(CharUnits(c) + tail) ==
      match FromChars16(tail)
      case Success(rest) => Success([c] + rest)
      case Failure(e) => Failure(e)
  {
    var us := CharUnits(c) + tail;
    var n := c as int;
    if n < 0x1_0000 {
      assert us[1..] == tail;
    } else {
      var v := n - 0x1_0000;
      assert us[0] == 0xD800 + v / 0x400 && us[1] == 0xDC00 + v % 0x400;
      assert us[2..] == tail;
      assert 0x1_0000 + (us[0] as int - 0xD800) * 0x400 + (us[1] as int - 0xDC00) == n;
    }
  }

  lemma {:induction false} Chars16RoundTrip(s: string)
    ensures FromChars16(ToChars16(s)) == Success(s)
  {
    if s != [] {
      Chars16RoundTrip(s[1..]);
      FromCharUnits(s[0], ToChars16(s[1..]));
      assert s == [s[0]] + s[1..];
    }
  }

  // ------------------------------------------------------------------ modified UTF-8

  /** Bytes `writeUTF` emits for one code unit. */
  function EncodeChar16(u: char16): (b: seq<byte>)
    ensures 1 <= |b| <= 3
    ensures |b| == 1 <==> 1 <= u <= 0x7F
  {
    if 1 <= u <= 0x7F then [u]
    else if u <= 0x7FF then [0xC0 + u / 0x40, 0x80 + u % 0x40]
    else [0xE0 + u / 0x1000, 0x80 + (u / 0x40) % 0x40, 0x80 + u % 0x40]
  }

  function EncodeChars16(us: seq<char16>): (b: seq<byte>)
    ensures |us| <= |b| <= 3 * |us|
  {
    if us == [] then [] else EncodeChar16(us[0]) + EncodeChars16(us[1..])
  }

  /** A trailing byte of a multi-byte group: `(b & 0xC0) == 0x80`. */
  predicate IsContinuation(b: byte) { 0x80 <= b < 0xC0 }

  /** The code units `readUTF` decodes from exactly the bytes its length prefix covers;
      a lead byte 0x80-0xBF or 0xF0-0xFF, a missing trailing byte and a trailing byte
      outside 0x80-0xBF are all malformed input. */
  function DecodeChars16(b: seq<byte>): (r: Result<seq<char16>, Failure>)
    ensures r.Success? ==> |r.value| <= |b| <= 3 * |r.value|
    ensures r.Failure? ==> r.error == MalformedInput
  {
    if b == [] then Success([])
    else if b[0] < 0x80 then
      var rest :- DecodeChars16(b[1..]);
      Success([b[0]] + rest)
    else if 0xC0 <= b[0] < 0xE0 then
      if |b| < 2 || !IsContinuation(b[1]) then Failure(MalformedInput)
      else
        var rest :- DecodeChars16(b[2..]);
        Success([(b[0] as int - 0xC0) * 0x40 + (b[1] as int - 0x80)] + rest)
    else if 0xE0 <= b[0] < 0xF0 then
      if |b| < 3 || !IsContinuation(b[1]) || !IsContinuation(b[2]) then Failure(MalformedInput)
      else
        var rest :- DecodeChars16(b[3..]);
        Success([(b[0] as int - 0xE0) * 0x1000 + (b[1] as int - 0x80) * 0x40 + (b[2] as int - 0x80)] + rest)
    else Failure(MalformedInput)
  }

  /** Decoding the group of one unit followed by anything decodes that unit first. */
  lemma DecodeChar16Group(u: char16, tail: seq<byte>)
    ensures DecodeChars16(EncodeChar16(u) + tail) ==
      match DecodeChars16(tail)
      case Success(rest) => Success([u] + rest)
      case Failure(e) => Failure(e)
  {
    var g := EncodeChar16(u);
    var b := g + tail;
    assert b[|g|..] == tail;
    if 1 <= u <= 0x7F {
    } else if u <= 0x7FF {
      assert (b[0] as int - 0xC0) * 0x40 + (b[1] as int - 0x80) == u;
    } else {
      assert u == (u / 0x1000) * 0x1000 + ((u / 0x40) % 0x40) * 0x40 + u % 0x40;
      assert (b[0] as int - 0xE0) * 0x1000 + (b[1] as int - 0x80) * 0x40 + (b[2] as int - 0x80) == u;
    }
  }

  lemma {:induction false} Chars16CodecRoundTrip(us: seq<char16>)
    ensures DecodeChars16(EncodeChars16(us)) == Success(us)
  {
    if us != [] {
      Chars16CodecRoundTrip(us[1..]);
      DecodeChar16Group(us[0], EncodeChars16(us[1..]));
      assert us == [us[0]] + us[1..];
    }
  }

  // ------------------------------------------------------------------ writeUTF / readUTF

  /** The modified UTF-8 body of a string, without its length prefix. */
  function UtfBody(s: string): seq<byte>
  {
    EncodeChars16(ToChars16(s))
  }

  /** `out.writeUTF(s)`: the 2-byte big-endian length of the body, then the body. It
      throws when the body is longer than 65535 bytes. */
  function WriteUtf(s: string): (r: Result<seq<byte>, Failure>)
    ensures r.Failure? <==> |UtfBody(s)| > MaxUtfLength
    ensures r.Failure? ==> r.error == EncodingTooLong
    ensures r.Success? ==> |r.value| == 2 + |UtfBody(s)|
  {
    var body := UtfBody(s);
    if |body| > MaxUtfLength then Failure(EncodingTooLong)
    else Success([|body| / 0x100, |body| % 0x100] + body)
  }

  /** `in.readUTF()`: the string and the bytes after it. */
  function ReadUtf(input: seq<byte>): (r: Result<(string, seq<byte>), Failure>)
    ensures |input| < 2 ==> r == Failure(EndOfInput)
    ensures r.Success? ==> var (s, rest) := r.value;
      |rest| + 2 + |s| <= |input| && rest == input[|input| - |rest|..]
  {
    if |input| < 2 then Failure(EndOfInput)
    else
      var n := input[0] as int * 0x100 + input[1] as int;
      if |input| < 2 + n then Failure(EndOfInput)
      else
        var units :- DecodeChars16(input[2..2 + n]);
        var s :- FromChars16(units);
        Success((s, input[2 + n..]))
  }

  /** `readUTF` reads back what `writeUTF` wrote, and leaves what follows unread. */
  lemma UtfRoundTrip(s: string, rest: seq<byte>)
    requires WriteUtf(s).Success?
    ensures ReadUtf(WriteUtf(s).value + rest) == Success((s, rest))
  {
    var body := UtfBody(s);
    var input := WriteUtf(s).value + rest;
    var n := |body|;
    assert input[0] as int * 0x100 + input[1] as int == n;
    assert input[2..2 + n] == body;
    assert input[2 + n..] == rest;
    Chars16CodecRoundTrip(ToChars16(s));
    Chars16RoundTrip(s);
  }

  /** Java's `readUTF` returns a lone high surrogate U+D800 (bytes ED A0 80) as a `char`;
      a Dafny string cannot hold it, so the model reports `UnpairedSurrogate`. */
  lemma LoneSurrogateFails(rest: seq<byte>)
    ensures ReadUtf([0x00, 0x03, 0xED, 0xA0, 0x80] + rest) == Failure(UnpairedSurrogate)
  {
    var input := [0x00, 0x03, 0xED, 0xA0, 0x80] + rest;
    var body: seq<byte> := [0xED, 0xA0, 0x80];
    assert input[2..5] == body && DecodeChars16(body[3..]) == Success([]);
    assert (body[0] as int - 0xE0) * 0x1000 + (body[1] as int - 0x80) * 0x40 + (body[2] as int - 0x80) == 0xD800;
    var units: seq<char16> := [0xD800];
    assert units + [] == units;
    assert DecodeChars16(body) == Success(units);
  }

  /** A `writeUTF` encoding cut short anywhere makes `readUTF` run out of input. */
  lemma UtfTruncated(s: string, k: nat)
    requires WriteUtf(s).Success? && k < |WriteUtf(s).value|
    ensures ReadUtf(WriteUtf(s).value[..k]) == Failure(EndOfInput)
  {
    var w := WriteUtf(s).value;
    var n := |UtfBody(s)|;
    if k >= 2 {
      assert w[..k][0] as int * 0x100 + w[..k][1] as int == n;
    }
  }

  /** A string of characters 0x01-0x7F is encoded one byte per character, each byte
      the character's code. */
  lemma {:induction false} AsciiBody(s: string)
    requires forall i :: 0 <= i < |s| ==> 0 < s[i] as int < 0x80
    ensures |UtfBody(s)| == |s|
    ensures forall i :: 0 <= i < |s| ==> UtfBody(s)[i] == s[i] as int
  {
    if s != [] {
      AsciiBody(s[1..]);
      assert CharUnits(s[0]) == [s[0] as int];
      assert UtfBody(s) == [s[0] as int] + UtfBody(s[1..]);
    }
  }

  /** The ASCII code of each character of `s`. */
  function AsciiCodes(s: string): (b: seq<byte>)
    requires forall i :: 0 <= i < |s| ==> s[i] as int < 0x100
    ensures |b| == |s|
  {
    seq(|s|, i requires 0 <= i < |s| => s[i] as int)
  }

  /** A string of ASCII characters other than NUL, shorter than 256 characters, is written
      as a zero byte, its length, and its characters' codes. */
  lemma AsciiWriteUtf(s: string)
    requires forall i :: 0 <= i < |s| ==> 0 < s[i] as int < 0x80
    requires |s| < 0x100
    ensures WriteUtf(s) == Success([0, |s|] + AsciiCodes(s))
  {
    AsciiBody(s);
    assert UtfBody(s) == AsciiCodes(s);
  }

  /** Names of at most 10922 characters always fit: each character takes at most six bytes. */
  lemma ShortStringsEncode(s: string)
    requires 6 * |s| <= MaxUtfLength
    ensures WriteUtf(s).Success?
  {
  }

  // ------------------------------------------------------------------ writeInt / readInt

  /** `out.writeInt(v)`: four bytes, big-endian two's complement. */
  function WriteInt(v: int32): (b: seq<byte>)
    ensures |b| == 4
  {
    var u := if v < 0 then v + Modulus else v;
    [u / 0x100_0000, (u / 0x1_0000) % 0x100, (u / 0x100) % 0x100, u % 0x100]
  }

  /** `in.readInt()`: the signed value of the next four bytes, and the bytes after them. */
  function ReadInt(input: seq<byte>): (r: Result<(int32, seq<byte>), Failure>)
    ensures r.Failure? <==> |input| < 4
    ensures r.Failure? ==> r.error == EndOfInput
    ensures r.Success? ==> r.value.1 == input[4..]
  {
    if |input| < 4 then Failure(EndOfInput)
    else
      var u := input[0] as int * 0x100_0000 + input[1] as int * 0x1_0000 + input[2] as int * 0x100 + input[3] as int;
      Success((if u <= MaxInt then u else u - Modulus, input[4..]))
  }

  lemma IntRoundTrip(v: int32, rest: seq<byte>)
    ensures ReadInt(WriteInt(v) + rest) == Success((v, rest))
  {
    var u := if v < 0 then v + Modulus else v;
    var b := WriteInt(v) + rest;
    ByteDigits(u);
    assert b[4..] == rest;
  }

  /** The four base-256 digits of an unsigned 32-bit value give it back. */
  lemma ByteDigits(u: int)
    requires 0 <= u < Modulus
    ensures u == (u / 0x100_0000) * 0x100_0000 + ((u / 0x1_0000) % 0x100) * 0x1_0000
                 + ((u / 0x100) % 0x100) * 0x100 + u % 0x100
  {
    var a := u / 0x100;
    var b := a / 0x100;
    var c := b / 0x100;
    assert u == a * 0x100 + u % 0x100;
    assert a == b * 0x100 + a % 0x100;
    assert b == c * 0x100 + b % 0x100;
    assert b == u / 0x1_0000;
    assert c == u / 0x100_0000;
  }

  lemma IntTruncated(v: int32, k: nat)
    requires k < 4
    ensures ReadInt(WriteInt(v)[..k]) == Failure(EndOfInput)
  {
  }
}
