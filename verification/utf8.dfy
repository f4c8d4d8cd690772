/** UTF-8 (RFC 3629) between text and octet strings, as Python's `str.encode('utf-8')`
    and strict `bytes.decode('utf-8')` do it.  Octets are characters below 256. */
module Utf8 {
  import opened Wrappers

  predicate IsOctets(s: string) {
    forall k :: 0 <= k < |s| ==> s[k] as int < 256
  }

  predicate IsAscii(s: string) {
    forall k :: 0 <= k < |s| ==> s[k] as int < 128
  }

  function Octet(n: nat): char
    requires n < 256
  {
    n as char
  }

  /** The encoding of one scalar value. */
  function EncodeChar(c: char): (r: string)
    ensures 1 <= |r| <= 4 && IsOctets(r)
    ensures c as int < 0x80 <==> r == [c]
    ensures c as int >= 0x80 ==> forall k :: 0 <= k < |r| ==> r[k] as int >= 0x80
  {
    var n := c as int;
    if n < 0x80 then [c]
    else if n < 0x800 then [Octet(0xC0 + n / 64), Octet(0x80 + n % 64)]
    else if n < 0x10000 then [Octet(0xE0 + n / 4096), Octet(0x80 + (n / 64) % 64), Octet(0x80 + n % 64)]
    else [Octet(0xF0 + n / 262144), Octet(0x80 + (n / 4096) % 64), Octet(0x80 + (n / 64) % 64), Octet(0x80 + n % 64)]
  }

  /** `str.encode('utf-8')`. */
  function Encode(s: string): (r: string)
    ensures IsOctets(r)
    ensures |r| >= |s|
  {
    if |s| == 0 then [] else EncodeChar(s[0]) + Encode(s[1..])
  }

  lemma {:induction false} EncodeAppend(a: string, b: string)
    ensures Encode(a + b) == Encode(a) + Encode(b)
    decreases |a|
  {
    if |a| == 0 {
      assert a + b == b;
    } else {
      assert (a + b)[0] == a[0] && (a + b)[1..] == a[1..] + b;
      EncodeAppend(a[1..], b);
    }
  }

  /** An ASCII character is encoded by itself, any other character only by octets
      at or above 0x80, so ASCII octets in an encoding are exactly the ASCII text. */
  lemma {:induction false} EncodeKeepsAscii(s: string, c: char)
    requires c as int < 0x80
    ensures c in Encode(s) <==> c in s
    decreases |s|
  {
    if |s| > 0 {
      EncodeKeepsAscii(s[1..], c);
      assert Encode(s) == EncodeChar(s[0]) + Encode(s[1..]);
      assert s == [s[0]] + s[1..];
      if s[0] as int >= 0x80 {
        assert c !in EncodeChar(s[0]);
      }
    }
  }

  /** Text whose encoding is all ASCII is ASCII and encodes to itself. */
  lemma {:induction false} EncodeAscii(s: string)
    requires IsAscii(Encode(s)) || IsAscii(s)
    ensures Encode(s) == s && IsAscii(s)
    decreases |s|
  {
    if |s| > 0 {
      var e := EncodeChar(s[0]);
      var t := s[1..];
      var et := Encode(t);
      assert Encode(s) == e + et;
      if IsAscii(s) {
        assert s[0] as int < 0x80;
        assert IsAscii(t) by {
          forall k | 0 <= k < |t| ensures t[k] as int < 128 {
            assert t[k] == s[k + 1];
          }
        }
      } else {
        assert e[0] == Encode(s)[0];
        assert s[0] as int < 0x80;
        assert IsAscii(et) by {
          forall k | 0 <= k < |et| ensures et[k] as int < 128 {
            assert et[k] == Encode(s)[k + 1];
          }
        }
      }
      assert e == [s[0]];
      EncodeAscii(t);
      assert s == [s[0]] + t;
    }
  }

  // ---------------------------------------------------------------------------
  // Decoding

  predicate IsContinuation(c: char) {
    0x80 <= c as int < 0xC0
  }

  function Payload(c: char): nat
    requires IsContinuation(c)
  {
    c as int - 0x80
  }

  /** The first scalar value of `s` and the number of octets it takes, or `None` where
      a strict decoder stops: a stray continuation octet, a truncated sequence, an
      over-long form, a surrogate or a value past U+10FFFF. */
  function DecodeFirst(s: string): (r: Option<(char, nat)>)
    requires |s| > 0
    ensures r.Some? ==> 1 <= r.value.1 <= |s| && r.value.1 <= 4
  {
    var b0 := s[0] as int;
    if b0 < 0x80 then Some((s[0], 1))
    else if 0xC0 <= b0 < 0xE0 && |s| >= 2 && IsContinuation(s[1]) then
      var v := (b0 - 0xC0) * 64 + Payload(s[1]);
      if v >= 0x80 then Some((v as char, 2)) else None
    else if 0xE0 <= b0 < 0xF0 && |s| >= 3 && IsContinuation(s[1]) && IsContinuation(s[2]) then
      var v := (b0 - 0xE0) * 4096 + Payload(s[1]) * 64 + Payload(s[2]);
      if v >= 0x800 && !(0xD800 <= v < 0xE000) then Some((v as char, 3)) else None
    else if 0xF0 <= b0 < 0xF8 && |s| >= 4 && IsContinuation(s[1]) && IsContinuation(s[2]) && IsContinuation(s[3]) then
      var v := (b0 - 0xF0) * 262144 + Payload(s[1]) * 4096 + Payload(s[2]) * 64 + Payload(s[3]);
      if 0x10000 <= v < 0x110000 then Some((v as char, 4)) else None
    else None
  }

  /** Strict `bytes.decode('utf-8')`: `None` where Python raises `UnicodeDecodeError`. */
  function Decode(s: string): (r: Option<string>)
    ensures r.Some? ==> |r.value| <= |s|
    ensures IsAscii(s) ==> r == Some(s)
    decreases |s|, 1
  {
    if |s| == 0 then Some([]) else DecodeFrom(s)
  }

  /** The decoding of a non-empty string: its first character, then the rest. */
  function DecodeFrom(s: string): (r: Option<string>)
    requires |s| > 0
    ensures r.Some? ==> |r.value| <= |s|
    ensures IsAscii(s) ==> r == Some(s)
    decreases |s|, 0
  {
    match DecodeFirst(s)
    case None => None
    case Some((c, n)) =>
      match Decode(s[n..])
      case None => None
      case Some(t) =>
        assert IsAscii(s) ==> IsAscii(s[n..]) && s == [c] + s[n..];
        Some([c] + t)
  }

  lemma {:induction false} Digits2(n: nat)
    ensures (n / 64) * 64 + n % 64 == n
  {
  }

  lemma {:induction false} Digits3(n: nat)
    ensures (n / 4096) * 4096 + ((n / 64) % 64) * 64 + n % 64 == n
  {
    Digits2(n);
    Digits2(n / 64);
    assert (n / 64) / 64 == n / 4096;
  }

  lemma {:induction false} Digits4(n: nat)
    ensures (n / 262144) * 262144 + ((n / 4096) % 64) * 4096 + ((n / 64) % 64) * 64 + n % 64 == n
  {
    Digits3(n);
    Digits2(n / 4096);
    assert (n / 4096) / 64 == n / 262144;
  }

  lemma {:induction false} DecodeFirstTwo(c: char, rest: string)
    requires 0x80 <= c as int < 0x800
    ensures DecodeFirst(EncodeChar(c) + rest) == Some((c, 2))
  {
    var n := c as int;
    var s := EncodeChar(c) + rest;
    assert s[0] as int == 0xC0 + n / 64 && s[1] as int == 0x80 + n % 64;
    Digits2(n);
    assert (s[0] as int - 0xC0) * 64 + Payload(s[1]) == n;
  }

  lemma {:induction false} DecodeFirstThree(c: char, rest: string)
    requires 0x800 <= c as int < 0x10000
    ensures DecodeFirst(EncodeChar(c) + rest) == Some((c, 3))
  {
    var n := c as int;
    var s := EncodeChar(c) + rest;
    assert s[0] as int == 0xE0 + n / 4096;
    assert s[1] as int == 0x80 + (n / 64) % 64;
    assert s[2] as int == 0x80 + n % 64;
    Digits3(n);
    assert (s[0] as int - 0xE0) * 4096 + Payload(s[1]) * 64 + Payload(s[2]) == n;
  }

  lemma {:induction false} DecodeFirstFour(c: char, rest: string)
    requires 0x10000 <= c as int
    ensures DecodeFirst(EncodeChar(c) + rest) == Some((c, 4))
  {
    var n := c as int;
    var s := EncodeChar(c) + rest;
    assert s[0] as int == 0xF0 + n / 262144;
    assert s[1] as int == 0x80 + (n / 4096) % 64;
    assert s[2] as int == 0x80 + (n / 64) % 64;
    assert s[3] as int == 0x80 + n % 64;
    Digits4(n);
    assert (s[0] as int - 0xF0) * 262144 + Payload(s[1]) * 4096 + Payload(s[2]) * 64 + Payload(s[3]) == n;
  }

  /** Decoding the encoding of one character gives it back, whatever follows. */
  lemma {:induction false} DecodeFirstEncodeChar(c: char, rest: string)
    ensures DecodeFirst(EncodeChar(c) + rest) == Some((c, |EncodeChar(c)|))
  {
    var n := c as int;
    if n < 0x80 {
    } else if n < 0x800 {
      DecodeFirstTwo(c, rest);
    } else if n < 0x10000 {
      DecodeFirstThree(c, rest);
    } else {
      DecodeFirstFour(c, rest);
    }
  }

  /** Strict decoding inverts encoding. */
  lemma {:induction false} DecodeEncode(s: string)
    ensures Decode(Encode(s)) == Some(s)
    decreases |s|
  {
    if |s| > 0 {
      var e := EncodeChar(s[0]);
      var t := Encode(s[1..]);
      assert Encode(s) == e + t;
      DecodeFirstEncodeChar(s[0], t);
      assert (e + t)[|e|..] == t;
      DecodeEncode(s[1..]);
      assert s == [s[0]] + s[1..];
      assert Decode(e + t) == DecodeFrom(e + t);
    }
  }

  /** How the parser reads a header line: UTF-8 when it decodes, otherwise Latin-1,
      which maps every octet to the character with the same code. */
  function DecodeLine(line: string): (r: string)
    ensures Decode(line).Some? ==> r == Decode(line).value
    ensures Decode(line).None? ==> r == line
  {
    match Decode(line)
    case Some(t) => t
    case None => line
  }

  /** A line the generator wrote (`str.encode('utf-8')`) reads back as its text. */
  lemma {:induction false} DecodeLineEncode(s: string)
    ensures DecodeLine(Encode(s)) == s
  {
    DecodeEncode(s);
  }
}
