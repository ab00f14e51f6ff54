/** UTF-8 as Python's codec applies it: `bytes.decode('utf-8', 'replace')`
    replaces each maximal ill-formed subpart by U+FFFD, and the strict
    `bytes.decode('utf-8')` fails on the first one. */
module Utf8 {
  import opened Outcomes

  type Byte = b: int | 0 <= b < 256

  /** One decoding step: a scalar value, or one ill-formed subpart. */
  datatype Unit = Scalar(c: char) | Invalid

  const Replacement: char := '\U{FFFD}'

  predicate IsContinuation(b: Byte) { 0x80 <= b < 0xC0 }

  /** Decodes the unit at the start of `s` and says how many bytes it used.
      An ill-formed subpart is as long as the longest prefix of a well-formed
      sequence that it starts with (and at least one byte). */
  function Step(s: seq<Byte>): (r: (Unit, nat))
    requires |s| > 0
    ensures 1 <= r.1 <= |s| && r.1 <= 4
  {
    var b0: int := s[0];
    var b1: int := if |s| > 1 then s[1] else 0;
    var b2: int := if |s| > 2 then s[2] else 0;
    var b3: int := if |s| > 3 then s[3] else 0;
    if b0 < 0x80 then (Scalar(b0 as char), 1)
    else if 0xC2 <= b0 < 0xE0 then
      if |s| < 2 || !IsContinuation(b1) then (Invalid, 1)
      else (Scalar(((b0 - 0xC0) * 64 + (b1 - 0x80)) as char), 2)
    else if 0xE0 <= b0 < 0xF0 then
      var lo := if b0 == 0xE0 then 0xA0 else 0x80;
      var hi := if b0 == 0xED then 0xA0 else 0xC0;
      if |s| < 2 || !(lo <= b1 < hi) then (Invalid, 1)
      else if |s| < 3 || !IsContinuation(b2) then (Invalid, 2)
      else (Scalar(((b0 - 0xE0) * 4096 + (b1 - 0x80) * 64 + (b2 - 0x80)) as char), 3)
    else if 0xF0 <= b0 < 0xF5 then
      var lo := if b0 == 0xF0 then 0x90 else 0x80;
      var hi := if b0 == 0xF4 then 0x90 else 0xC0;
      if |s| < 2 || !(lo <= b1 < hi) then (Invalid, 1)
      else if |s| < 3 || !IsContinuation(b2) then (Invalid, 2)
      else if |s| < 4 || !IsContinuation(b3) then (Invalid, 3)
      else (Scalar(((b0 - 0xF0) * 262144 + (b1 - 0x80) * 4096
                    + (b2 - 0x80) * 64 + (b3 - 0x80)) as char), 4)
    else (Invalid, 1)
  }

  function DecodeUnits(s: seq<Byte>): (us: seq<Unit>)
    ensures |us| <= |s|
    decreases |s|
  {
    if |s| == 0 then []
    else
      var st := Step(s);
      [st.0] + DecodeUnits(s[st.1..])
  }

  function ReplaceInvalid(us: seq<Unit>): (t: string)
    ensures |t| == |us|
  {
    if |us| == 0 then []
    else [if us[0].Scalar? then us[0].c else Replacement] + ReplaceInvalid(us[1..])
  }

  /** `s.decode('utf-8', 'replace')` */
  function DecodeReplace(s: seq<Byte>): string {
    ReplaceInvalid(DecodeUnits(s))
  }

  function Scalars(us: seq<Unit>): Option<string> {
    if |us| == 0 then Some([])
    else if us[0].Invalid? then None
    else match Scalars(us[1..])
      case None => None
      case Some(t) => Some([us[0].c] + t)
  }

  /** `s.decode('utf-8')`: `None` stands for the UnicodeDecodeError. */
  function DecodeStrict(s: seq<Byte>): Option<string> {
    Scalars(DecodeUnits(s))
  }

  /** `c.encode('utf-8')` */
  function Encode(c: char): (bs: seq<Byte>)
    ensures 1 <= |bs| <= 4
  {
    var x := c as int;
    var q1 := x / 64;
    var q2 := q1 / 64;
    var q3 := q2 / 64;
    if x < 0x80 then [x]
    else if x < 0x800 then [0xC0 + q1, 0x80 + x % 64]
    else if x < 0x10000 then [0xE0 + q2, 0x80 + q1 % 64, 0x80 + x % 64]
    else [0xF0 + q3, 0x80 + q2 % 64, 0x80 + q1 % 64, 0x80 + x % 64]
  }

  /** `t.encode('utf-8')` */
  function EncodeString(t: string): seq<Byte> {
    if |t| == 0 then [] else Encode(t[0]) + EncodeString(t[1..])
  }

  /** Decoding the encoding of a character, whatever follows, yields that
      character and uses exactly its bytes. */
  lemma StepEncode(c: char, rest: seq<Byte>)
    ensures Step(Encode(c) + rest) == (Scalar(c), |Encode(c)|)
  {
    var x := c as int;
    var s := Encode(c) + rest;
    var q1 := x / 64;
    var q2 := q1 / 64;
    var q3 := q2 / 64;
    assert x == q1 * 64 + x % 64;
    assert q1 == q2 * 64 + q1 % 64;
    assert q2 == q3 * 64 + q2 % 64;
    if x < 0x80 {
    } else if x < 0x800 {
      assert s[0] == 0xC0 + q1 && s[1] == 0x80 + x % 64;
    } else if x < 0x10000 {
      assert s[0] == 0xE0 + q2 && s[1] == 0x80 + q1 % 64 && s[2] == 0x80 + x % 64;
    } else {
      assert s[0] == 0xF0 + q3 && s[1] == 0x80 + q2 % 64;
      assert s[2] == 0x80 + q1 % 64 && s[3] == 0x80 + x % 64;
    }
  }

  /** A scalar decoded from the front of `s` is the encoding of that scalar:
      the decoder accepts no overlong or surrogate forms. */
  lemma StepScalar(s: seq<Byte>)
    requires |s| > 0 && Step(s).0.Scalar?
    ensures Step(s).1 <= |s| && s[..Step(s).1] == Encode(Step(s).0.c)
  {
    var b0: int := s[0];
    var c := Step(s).0.c;
    var x := c as int;
    if b0 < 0x80 {
    } else if b0 < 0xE0 {
      var b1: int := s[1];
      assert x == (b0 - 0xC0) * 64 + (b1 - 0x80);
      assert x / 64 == b0 - 0xC0 && x % 64 == b1 - 0x80;
      assert s[..2] == [s[0], s[1]];
    } else if b0 < 0xF0 {
      var b1: int, b2: int := s[1], s[2];
      assert x == (b0 - 0xE0) * 4096 + (b1 - 0x80) * 64 + (b2 - 0x80);
      var q1 := x / 64;
      assert q1 == (b0 - 0xE0) * 64 + (b1 - 0x80) && x % 64 == b2 - 0x80;
      assert q1 / 64 == b0 - 0xE0 && q1 % 64 == b1 - 0x80;
      assert s[..3] == [s[0], s[1], s[2]];
    } else {
      var b1: int, b2: int, b3: int := s[1], s[2], s[3];
      assert x == (b0 - 0xF0) * 262144 + (b1 - 0x80) * 4096 + (b2 - 0x80) * 64 + (b3 - 0x80);
      var q1 := x / 64;
      assert q1 == (b0 - 0xF0) * 4096 + (b1 - 0x80) * 64 + (b2 - 0x80) && x % 64 == b3 - 0x80;
      var q2 := q1 / 64;
      assert q2 == (b0 - 0xF0) * 64 + (b1 - 0x80) && q1 % 64 == b2 - 0x80;
      assert q2 / 64 == b0 - 0xF0 && q2 % 64 == b1 - 0x80;
      assert s[..4] == [s[0], s[1], s[2], s[3]];
    }
  }

  /** Decoding an encoded string gives one scalar per character. */
  lemma {:induction false} DecodeUnitsEncode(t: string)
    ensures DecodeUnits(EncodeString(t)) == seq(|t|, i requires 0 <= i < |t| => Scalar(t[i]))
  {
    if |t| > 0 {
      var rest := EncodeString(t[1..]);
      StepEncode(t[0], rest);
      assert EncodeString(t) == Encode(t[0]) + rest;
      assert EncodeString(t)[|Encode(t[0])|..] == rest;
      DecodeUnitsEncode(t[1..]);
    }
  }

  lemma {:induction false} ReplaceScalars(t: string)
    ensures ReplaceInvalid(seq(|t|, i requires 0 <= i < |t| => Scalar(t[i]))) == t
    ensures Scalars(seq(|t|, i requires 0 <= i < |t| => Scalar(t[i]))) == Some(t)
  {
    if |t| > 0 {
      var us := seq(|t|, i requires 0 <= i < |t| => Scalar(t[i]));
      assert us[1..] == seq(|t[1..]|, i requires 0 <= i < |t[1..]| => Scalar(t[1..][i]));
      ReplaceScalars(t[1..]);
      assert [t[0]] + t[1..] == t;
    }
  }

  /** Round trip: decoding what was encoded gives the string back, in both
      the replacing and the strict mode. */
  lemma DecodeEncode(t: string)
    ensures DecodeReplace(EncodeString(t)) == t
    ensures DecodeStrict(EncodeString(t)) == Some(t)
  {
    DecodeUnitsEncode(t);
    ReplaceScalars(t);
  }

  /** A strict decode that succeeds starts with the scalar of the first
      step and goes on with the strict decode of the rest. */
  lemma DecodeStrictCons(s: seq<Byte>)
    requires |s| > 0 && DecodeStrict(s).Some?
    ensures Step(s).0.Scalar?
    ensures DecodeStrict(s[Step(s).1..]).Some?
    ensures DecodeStrict(s).value == [Step(s).0.c] + DecodeStrict(s[Step(s).1..]).value
  {
    var st := Step(s);
    var us := DecodeUnits(s);
    assert us == [st.0] + DecodeUnits(s[st.1..]);
    assert us[1..] == DecodeUnits(s[st.1..]);
  }

  /** Round trip the other way: bytes that decode strictly are the encoding
      of what they decode to. */
  lemma {:induction false} EncodeDecodeStrict(s: seq<Byte>)
    requires DecodeStrict(s).Some?
    ensures EncodeString(DecodeStrict(s).value) == s
    decreases |s|
  {
    if |s| > 0 {
      var st := Step(s);
      var tail := s[st.1..];
      DecodeStrictCons(s);
      StepScalar(s);
      EncodeDecodeStrict(tail);
      var t := DecodeStrict(s).value;
      assert t[0] == st.0.c && t[1..] == DecodeStrict(tail).value;
      assert EncodeString(t) == Encode(t[0]) + EncodeString(t[1..]);
      assert s == s[..st.1] + tail;
    }
  }

  /** Bytes below 0x80 decode one to one, to the character with that code. */
  lemma {:induction false} DecodeAscii(s: seq<Byte>)
    requires forall i :: 0 <= i < |s| ==> s[i] < 0x80
    ensures DecodeReplace(s) == seq(|s|, i requires 0 <= i < |s| => s[i] as char)
    decreases |s|
  {
    if |s| > 0 {
      DecodeAscii(s[1..]);
      var us := DecodeUnits(s);
      assert us == [Scalar(s[0] as char)] + DecodeUnits(s[1..]);
      assert us[1..] == DecodeUnits(s[1..]);
    }
  }

  /** The byte 0x0A occurs in an encoding only where the string has a newline:
      every byte of a multi-byte form is at least 0x80. */
  lemma {:induction false} NewlineInEncoding(t: string)
    ensures 0x0A in EncodeString(t) <==> '\n' in t
  {
    if |t| > 0 {
      NewlineInEncoding(t[1..]);
      assert EncodeString(t) == Encode(t[0]) + EncodeString(t[1..]);
      assert (0x0A in Encode(t[0])) <==> t[0] == '\n';
      assert t == [t[0]] + t[1..];
    }
  }
}
