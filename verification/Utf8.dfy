/**
 * UTF-8 (RFC 3629), the encoding `str.encode("utf-8")` applies to the
 * synthesized text of an inline file entry. A Dafny `char` is a Unicode
 * scalar value, so every string has an encoding. `Decode` is a strict
 * decoder that serves as the encoder's inverse.
 */
module Utf8 {
  import opened Wrappers
  import opened Bytes

  predicate IsAscii(s: string) {
    forall i | 0 <= i < |s| :: s[i] as int < 128
  }

  /** One to four octets for one scalar value; one octet, equal to it, exactly for ASCII. */
  function EncodeChar(c: char): (r: seq<byte>)
    ensures 1 <= |r| <= 4
    ensures |r| == 1 <==> c as int < 128
    ensures |r| == 1 ==> r[0] as int == c as int
  {
    var n := c as int;
    if n < 0x80 then [n as byte]
    else if n < 0x800 then [(0xC0 + n / 64) as byte, (0x80 + n % 64) as byte]
    else if n < 0x10000 then
      [(0xE0 + n / 4096) as byte, (0x80 + (n / 64) % 64) as byte, (0x80 + n % 64) as byte]
    else
      [(0xF0 + n / 262144) as byte, (0x80 + (n / 4096) % 64) as byte,
       (0x80 + (n / 64) % 64) as byte, (0x80 + n % 64) as byte]
  }

  /** The encoding of a string: its characters' encodings, in order. */
  function Encode(s: string): (r: seq<byte>)
    ensures |s| <= |r| <= 4 * |s|
    decreases |s|
  {
    if |s| == 0 then [] else EncodeChar(s[0]) + Encode(s[1..])
  }

  /** An ASCII string encodes to one octet per character, each equal to the character's code. */
  lemma {:induction false} EncodeAscii(s: string)
    requires IsAscii(s)
    ensures |Encode(s)| == |s|
    ensures forall i | 0 <= i < |s| :: Encode(s)[i] as int == s[i] as int
    decreases |s|
  {
    if |s| > 0 {
      assert IsAscii(s[1..]) by {
        forall i | 0 <= i < |s[1..]| ensures s[1..][i] as int < 128 {
          assert s[1..][i] == s[i + 1];
        }
      }
      EncodeAscii(s[1..]);
      var r := Encode(s);
      forall i | 0 <= i < |s| ensures r[i] as int == s[i] as int {
        if i > 0 {
          assert r[i] == Encode(s[1..])[i - 1];
        }
      }
    }
  }

  /** The length of the sequence that a lead octet starts; 0 when it cannot start one. */
  function SequenceLength(lead: byte): nat {
    if lead < 0x80 then 1
    else if 0xC0 <= lead < 0xE0 then 2
    else if 0xE0 <= lead < 0xF0 then 3
    else if 0xF0 <= lead < 0xF8 then 4
    else 0
  }

  predicate IsContinuation(b: byte) {
    0x80 <= b < 0xC0
  }

  /** The scalar value of one encoded sequence, rejecting overlong forms and surrogates. */
  function DecodeSequence(b: seq<byte>): Option<char>
    requires 1 <= |b| <= 4 && |b| == SequenceLength(b[0])
  {
    if exists i | 1 <= i < |b| :: !IsContinuation(b[i]) then None
    else
      var n :=
        if |b| == 1 then b[0] as int
        else if |b| == 2 then (b[0] as int - 0xC0) * 64 + (b[1] as int - 0x80)
        else if |b| == 3 then (b[0] as int - 0xE0) * 4096 + (b[1] as int - 0x80) * 64 + (b[2] as int - 0x80)
        else (b[0] as int - 0xF0) * 262144 + (b[1] as int - 0x80) * 4096 + (b[2] as int - 0x80) * 64 + (b[3] as int - 0x80);
      var least := if |b| == 1 then 0 else if |b| == 2 then 0x80 else if |b| == 3 then 0x800 else 0x10000;
      if least <= n && (n < 0xD800 || 0xE000 <= n < 0x110000) then Some(n as char) else None
  }

  /** Strict decoding: None unless `b` is a sequence of well-formed encodings. */
  function Decode(b: seq<byte>): (r: Option<string>)
    ensures r.Some? ==> |r.value| <= |b|
    decreases |b|
  {
    if |b| == 0 then Some([])
    else
      var n := SequenceLength(b[0]);
      if n == 0 || |b| < n then None
      else
        match DecodeSequence(b[..n])
        case None => None
        case Some(c) =>
          match Decode(b[n..])
          case None => None
          case Some(rest) => Some([c] + rest)
  }

  lemma Split2(n: int)
    requires 0 <= n
    ensures (n / 64) * 64 + n % 64 == n && 0 <= n % 64 < 64
  {
  }

  lemma Split3(n: int)
    requires 0 <= n
    ensures (n / 4096) * 4096 + ((n / 64) % 64) * 64 + n % 64 == n
    ensures 0 <= (n / 64) % 64 < 64
  {
    var m := n / 64;
    Split2(n);
    Split2(m);
    assert n / 4096 == m / 64;
  }

  lemma Split4(n: int)
    requires 0 <= n
    ensures (n / 262144) * 262144 + ((n / 4096) % 64) * 4096 + ((n / 64) % 64) * 64 + n % 64 == n
    ensures 0 <= (n / 4096) % 64 < 64
  {
    var m := n / 64;
    Split2(n);
    Split3(m);
    assert n / 4096 == m / 64;
    assert n / 262144 == m / 4096;
  }

  lemma DecodeEncode2(c: char)
    requires 0x80 <= c as int < 0x800
    ensures var e := EncodeChar(c); SequenceLength(e[0]) == |e| && DecodeSequence(e) == Some(c)
  {
    var n := c as int;
    var e := EncodeChar(c);
    Split2(n);
    assert e == [(0xC0 + n / 64) as byte, (0x80 + n % 64) as byte];
    assert forall i | 1 <= i < |e| :: IsContinuation(e[i]);
  }

  lemma DecodeEncode3(c: char)
    requires 0x800 <= c as int < 0x10000
    ensures var e := EncodeChar(c); SequenceLength(e[0]) == |e| && DecodeSequence(e) == Some(c)
  {
    var n := c as int;
    var e := EncodeChar(c);
    Split3(n);
    assert e == [(0xE0 + n / 4096) as byte, (0x80 + (n / 64) % 64) as byte, (0x80 + n % 64) as byte];
    assert forall i | 1 <= i < |e| :: IsContinuation(e[i]);
  }

  lemma DecodeEncode4(c: char)
    requires 0x10000 <= c as int
    ensures var e := EncodeChar(c); SequenceLength(e[0]) == |e| && DecodeSequence(e) == Some(c)
  {
    var n := c as int;
    var e := EncodeChar(c);
    Split4(n);
    assert forall i | 1 <= i < |e| :: IsContinuation(e[i]);
  }

  /** One scalar value's encoding is a single well-formed sequence that decodes to it. */
  lemma DecodeEncodeChar(c: char)
    ensures var e := EncodeChar(c); SequenceLength(e[0]) == |e| && DecodeSequence(e) == Some(c)
  {
    var n := c as int;
    if n < 0x80 {
    } else if n < 0x800 {
      DecodeEncode2(c);
    } else if n < 0x10000 {
      DecodeEncode3(c);
    } else {
      DecodeEncode4(c);
    }
  }

  /** Decoding the encoding of a string gives back the string. */
  lemma {:induction false} DecodeEncode(s: string)
    ensures Decode(Encode(s)) == Some(s)
    decreases |s|
  {
    if |s| > 0 {
      var e := EncodeChar(s[0]);
      var b := Encode(s);
      DecodeEncodeChar(s[0]);
      DecodeEncode(s[1..]);
      assert b == e + Encode(s[1..]);
      assert b[..|e|] == e;
      assert b[|e|..] == Encode(s[1..]);
      assert s == [s[0]] + s[1..];
    }
  }

  /** The euro sign takes three octets and U+1F600 four, as in RFC 3629. */
  lemma EncodeVectors()
    ensures Encode("\U{20AC}") == [0xE2, 0x82, 0xAC]
    ensures Encode("\U{1F600}") == [0xF0, 0x9F, 0x98, 0x80]
  {
    DivMod4096(0x20AC, 2, 172);
    DivMod64(0x20AC, 130, 44);
    DivMod64(130, 2, 2);
    DivMod262144(0x1F600, 0, 0x1F600);
    DivMod4096(0x1F600, 31, 1536);
    DivMod64(0x1F600, 2008, 0);
    DivMod64(2008, 31, 24);
  }

  lemma DivMod4096(x: int, q: int, r: int)
    requires 0 <= r < 4096 && x == q * 4096 + r
    ensures x / 4096 == q && x % 4096 == r
  {
  }

  lemma DivMod262144(x: int, q: int, r: int)
    requires 0 <= r < 262144 && x == q * 262144 + r
    ensures x / 262144 == q && x % 262144 == r
  {
  }

  /** An accepted sequence has continuation octets after its lead octet. */
  lemma Continuations(b: seq<byte>)
    requires 1 <= |b| <= 4 && |b| == SequenceLength(b[0]) && DecodeSequence(b).Some?
    ensures forall i | 1 <= i < |b| :: IsContinuation(b[i])
  {
  }

  lemma EncodeDecode2(b: seq<byte>)
    requires |b| == 2 && SequenceLength(b[0]) == 2 && DecodeSequence(b).Some?
    ensures EncodeChar(DecodeSequence(b).value) == b
  {
    Continuations(b);
    var hi, lo := b[0] as int - 0xC0, b[1] as int - 0x80;
    var n := hi * 64 + lo;
    assert DecodeSequence(b).value as int == n;
    DivMod64(n, hi, lo);
  }

  lemma EncodeDecode3(b: seq<byte>)
    requires |b| == 3 && SequenceLength(b[0]) == 3 && DecodeSequence(b).Some?
    ensures EncodeChar(DecodeSequence(b).value) == b
  {
    Continuations(b);
    var hi, mid, lo := b[0] as int - 0xE0, b[1] as int - 0x80, b[2] as int - 0x80;
    var n := hi * 4096 + mid * 64 + lo;
    assert DecodeSequence(b).value as int == n;
    DivMod64(n, hi * 64 + mid, lo);
    DivMod64(hi * 64 + mid, hi, mid);
    DivMod4096(n, hi, mid * 64 + lo);
  }

  lemma EncodeDecode4(b: seq<byte>)
    requires |b| == 4 && SequenceLength(b[0]) == 4 && DecodeSequence(b).Some?
    ensures EncodeChar(DecodeSequence(b).value) == b
  {
    Continuations(b);
    var hi, m1, m2, lo := b[0] as int - 0xF0, b[1] as int - 0x80, b[2] as int - 0x80, b[3] as int - 0x80;
    var n := hi * 262144 + m1 * 4096 + m2 * 64 + lo;
    assert DecodeSequence(b).value as int == n;
    DivMod64(n, hi * 4096 + m1 * 64 + m2, lo);
    DivMod64(hi * 4096 + m1 * 64 + m2, hi * 64 + m1, m2);
    DivMod64(hi * 64 + m1, hi, m1);
    DivMod4096(n, hi * 64 + m1, m2 * 64 + lo);
    DivMod262144(n, hi, m1 * 4096 + m2 * 64 + lo);
  }

  /** An accepted sequence is the encoding of the scalar value it decodes to. */
  lemma EncodeDecodeSequence(b: seq<byte>)
    requires 1 <= |b| <= 4 && |b| == SequenceLength(b[0]) && DecodeSequence(b).Some?
    ensures EncodeChar(DecodeSequence(b).value) == b
  {
    if |b| == 2 {
      EncodeDecode2(b);
    } else if |b| == 3 {
      EncodeDecode3(b);
    } else if |b| == 4 {
      EncodeDecode4(b);
    }
  }

  /** One step of accepted decoding: the first sequence, then the rest. */
  lemma DecodeStep(b: seq<byte>)
    requires |b| > 0 && Decode(b).Some?
    ensures var n := SequenceLength(b[0]);
      1 <= n <= |b| && DecodeSequence(b[..n]).Some? && Decode(b[n..]).Some? &&
      Decode(b).value == [DecodeSequence(b[..n]).value] + Decode(b[n..]).value
  {
  }

  /** An accepted string's first character encodes the first sequence; the rest decodes on its own. */
  lemma DecodeHead(b: seq<byte>)
    requires |b| > 0 && Decode(b).Some?
    ensures var n := SequenceLength(b[0]); var s := Decode(b).value;
      1 <= n <= |b| && |s| > 0 && EncodeChar(s[0]) == b[..n] &&
      Decode(b[n..]).Some? && s[1..] == Decode(b[n..]).value
  {
    DecodeStep(b);
    EncodeDecodeSequence(b[..SequenceLength(b[0])]);
  }

  /** Joining the first character's encoding to that of the rest gives back the octets. */
  lemma EncodeDecodeJoin(b: seq<byte>)
    requires |b| > 0 && Decode(b).Some?
    requires var n := SequenceLength(b[0]); var s := Decode(b).value;
      1 <= n <= |b| && |s| > 0 && EncodeChar(s[0]) == b[..n] &&
      Decode(b[n..]).Some? && s[1..] == Decode(b[n..]).value && Encode(s[1..]) == b[n..]
    ensures Encode(Decode(b).value) == b
  {
    var n := SequenceLength(b[0]);
    assert b == b[..n] + b[n..];
  }

  /** Every octet string the strict decoder accepts is the encoding of what it decodes to. */
  lemma {:induction false} EncodeDecode(b: seq<byte>)
    requires Decode(b).Some?
    ensures Encode(Decode(b).value) == b
    decreases |b|
  {
    if |b| > 0 {
      DecodeHead(b);
      EncodeDecode(b[SequenceLength(b[0])..]);
      EncodeDecodeJoin(b);
    }
  }
}
