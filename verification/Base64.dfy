/**
 * Base64 as defined in section 4 of RFC 4648: three octets become four
 * characters of a 64-character alphabet, and a final group of one or two
 * octets is completed with "=" padding. `Encode` is the encoder the
 * generator calls; `Decode` is a strict decoder (it accepts only the
 * canonical encoding, section 3.5 of RFC 4648) that serves as its inverse.
 */
module Base64 {
  import opened Wrappers
  import opened Bytes

  /** The characters of the alphabet of Table 1 of RFC 4648. */
  predicate IsAlphabetChar(c: char) {
    ('A' <= c <= 'Z') || ('a' <= c <= 'z') || ('0' <= c <= '9') || c == '+' || c == '/'
  }

  /** The value of an alphabet character. */
  function IndexOf(c: char): (v: int)
    requires IsAlphabetChar(c)
    ensures 0 <= v < 64
  {
    if 'A' <= c <= 'Z' then c as int - 'A' as int
    else if 'a' <= c <= 'z' then c as int - 'a' as int + 26
    else if '0' <= c <= '9' then c as int - '0' as int + 52
    else if c == '+' then 62
    else 63
  }

  /** The alphabet character encoding a 6-bit value. */
  function CharOf(v: int): (c: char)
    requires 0 <= v < 64
    ensures IsAlphabetChar(c)
  {
    if v < 26 then ('A' as int + v) as char
    else if v < 52 then ('a' as int + (v - 26)) as char
    else if v < 62 then ('0' as int + (v - 52)) as char
    else if v == 62 then '+'
    else '/'
  }

  /** The value of the character encoding `v` is `v`. */
  lemma IndexOfCharOf(v: int)
    requires 0 <= v < 64
    ensures IndexOf(CharOf(v)) == v
  {
  }

  lemma CharOfIndexOf(c: char)
    requires IsAlphabetChar(c)
    ensures CharOf(IndexOf(c)) == c
  {
  }

  /** Number of "=" characters that end the encoding of `n` octets. */
  function PadLength(n: nat): nat {
    if n % 3 == 0 then 0 else 3 - n % 3
  }

  /** Four characters for three octets. */
  function EncodeGroup(a: byte, b: byte, c: byte): (s: string) {
    [CharOf(a as int / 4),
     CharOf((a as int % 4) * 16 + b as int / 16),
     CharOf((b as int % 16) * 4 + c as int / 64),
     CharOf(c as int % 64)]
  }

  /** Four characters for a final single octet: two of them padding. */
  function EncodeFinal1(a: byte): (s: string) {
    [CharOf(a as int / 4), CharOf((a as int % 4) * 16), '=', '=']
  }

  /** Four characters for two final octets: one of them padding. */
  function EncodeFinal2(a: byte, b: byte): (s: string) {
    [CharOf(a as int / 4), CharOf((a as int % 4) * 16 + b as int / 16), CharOf((b as int % 16) * 4), '=']
  }

  /** `s` is alphabet characters followed by exactly `pad` padding characters. */
  predicate Padded(s: string, pad: nat) {
    pad <= |s| &&
    (forall i | 0 <= i < |s| - pad :: IsAlphabetChar(s[i])) &&
    (forall i | |s| - pad <= i < |s| :: s[i] == '=')
  }

  /** Alphabet characters in front of a padded string keep it padded. */
  lemma PaddedPrepend(g: string, rest: string, pad: nat)
    requires forall i | 0 <= i < |g| :: IsAlphabetChar(g[i])
    requires Padded(rest, pad)
    ensures Padded(g + rest, pad)
  {
    var s := g + rest;
    forall i | 0 <= i < |s| - pad
      ensures IsAlphabetChar(s[i])
    {
      if i >= |g| {
        assert s[i] == rest[i - |g|];
      }
    }
    forall i | |s| - pad <= i < |s|
      ensures s[i] == '='
    {
      assert s[i] == rest[i - |g|];
    }
  }

  /**
   * The encoding of `data`: 4 * ceil(|data| / 3) characters, alphabet
   * characters first and then exactly PadLength(|data|) padding characters.
   */
  function Encode(data: seq<byte>): (s: string)
    ensures |s| == 4 * ((|data| + 2) / 3)
    ensures Padded(s, PadLength(|data|))
    decreases |data|
  {
    if |data| == 0 then ""
    else if |data| == 1 then EncodeFinal1(data[0])
    else if |data| == 2 then EncodeFinal2(data[0], data[1])
    else
      var rest := Encode(data[3..]);
      var g := EncodeGroup(data[0], data[1], data[2]);
      GroupStep(|data|);
      PaddedPrepend(g, rest, PadLength(|data|));
      g + rest
  }

  /** Three octets from four alphabet characters; None if any is not one. */
  function DecodeGroup(q: string): (r: Option<seq<byte>>)
    requires |q| == 4
    ensures r.Some? ==> |r.value| == 3
  {
    if IsAlphabetChar(q[0]) && IsAlphabetChar(q[1]) && IsAlphabetChar(q[2]) && IsAlphabetChar(q[3]) then
      var v0, v1, v2, v3 := IndexOf(q[0]), IndexOf(q[1]), IndexOf(q[2]), IndexOf(q[3]);
      Some([(v0 * 4 + v1 / 16) as byte, ((v1 % 16) * 16 + v2 / 4) as byte, ((v2 % 4) * 64 + v3) as byte])
    else
      None
  }

  /**
   * The last group of an encoding: it may end in one or two padding
   * characters, and the bits the padding leaves over must be zero.
   */
  function DecodeFinal(q: string): (r: Option<seq<byte>>)
    requires |q| == 4
    ensures r.Some? ==> 1 <= |r.value| <= 3
  {
    if q[2] == '=' && q[3] == '=' then
      if IsAlphabetChar(q[0]) && IsAlphabetChar(q[1]) && IndexOf(q[1]) % 16 == 0 then
        Some([(IndexOf(q[0]) * 4 + IndexOf(q[1]) / 16) as byte])
      else None
    else if q[3] == '=' then
      if IsAlphabetChar(q[0]) && IsAlphabetChar(q[1]) && IsAlphabetChar(q[2]) && IndexOf(q[2]) % 4 == 0 then
        var v0, v1, v2 := IndexOf(q[0]), IndexOf(q[1]), IndexOf(q[2]);
        Some([(v0 * 4 + v1 / 16) as byte, ((v1 % 16) * 16 + v2 / 4) as byte])
      else None
    else
      DecodeGroup(q)
  }

  /** Strict decoding: None unless `s` is the canonical encoding of some octets. */
  function Decode(s: string): (r: Option<seq<byte>>)
    ensures r.Some? ==> |s| == 4 * ((|r.value| + 2) / 3)
    decreases |s|
  {
    if |s| == 0 then Some([])
    else if |s| < 4 then None
    else if |s| == 4 then DecodeFinal(s)
    else
      match DecodeGroup(s[..4])
      case None => None
      case Some(g) =>
        match Decode(s[4..])
        case None => None
        case Some(rest) => Some(g + rest)
  }

  lemma DivMod3(x: int, q: int, r: int)
    requires 0 <= r < 3 && x == q * 3 + r
    ensures x / 3 == q && x % 3 == r
  {
  }

  /** RFC 4648 section 10: "f" is "Zg==" and "fo" is "Zm8=". */
  lemma EncodeVectorsPadded()
    ensures Encode([102]) == "Zg=="
    ensures Encode([102, 111]) == "Zm8="
  {
  }

  /** Three or more octets: a group of four characters, then the rest. */
  lemma EncodeStep(data: seq<byte>)
    requires |data| >= 3
    ensures Encode(data) == EncodeGroup(data[0], data[1], data[2]) + Encode(data[3..])
  {
  }

  /** The group of "foo" is "Zm9v". */
  lemma GroupFoo()
    ensures EncodeGroup(102, 111, 111) == "Zm9v"
  {
    DivMod64(102, 1, 38);
    DivMod64(111, 1, 47);
    assert 102 / 4 == 25 && 102 % 4 == 2 && 111 / 16 == 6 && 111 % 16 == 15;
    assert CharOf(25) == 'Z' && CharOf(38) == 'm' && CharOf(61) == '9' && CharOf(47) == 'v';
  }

  /** RFC 4648 section 10: "bar" is "YmFy". */
  lemma EncodeVectorBar()
    ensures Encode([98, 97, 114]) == "YmFy"
  {
    var data: seq<byte> := [98, 97, 114];
    EncodeStep(data);
    assert data[3..] == [];
    DivMod64(114, 1, 50);
    assert 98 / 4 == 24 && 98 % 4 == 2 && 97 / 16 == 6 && 97 % 16 == 1;
    assert CharOf(24) == 'Y' && CharOf(38) == 'm' && CharOf(5) == 'F' && CharOf(50) == 'y';
    assert EncodeGroup(98, 97, 114) == "YmFy";
  }

  /** RFC 4648 section 10: "foobar" is "Zm9vYmFy". */
  lemma EncodeVectorFull()
    ensures Encode([102, 111, 111, 98, 97, 114]) == "Zm9vYmFy"
  {
    var data: seq<byte> := [102, 111, 111, 98, 97, 114];
    EncodeStep(data);
    assert data[3..] == [98, 97, 114];
    EncodeVectorBar();
    GroupFoo();
  }

  /** Three more octets: one more group of four characters, and the same padding. */
  lemma GroupStep(n: nat)
    requires n >= 3
    ensures PadLength(n - 3) == PadLength(n)
    ensures 4 * ((n + 2) / 3) == 4 * ((n - 3 + 2) / 3) + 4
  {
    var q, r := (n - 3) / 3, (n - 3) % 3;
    DivMod3(n, q + 1, r);
    DivMod3(n + 2, q + 1 + (r + 2) / 3, (r + 2) % 3);
    DivMod3(n - 3 + 2, q + (r + 2) / 3, (r + 2) % 3);
  }

  lemma DivMod4(x: int, q: int, r: int)
    requires 0 <= r < 4 && x == q * 4 + r
    ensures x / 4 == q && x % 4 == r
  {
  }

  lemma DivMod16(x: int, q: int, r: int)
    requires 0 <= r < 16 && x == q * 16 + r
    ensures x / 16 == q && x % 16 == r
  {
  }

  /** Splitting three octets into four sextets and joining them again. */
  lemma GroupArith(a: int, b: int, c: int)
    requires 0 <= a < 256 && 0 <= b < 256 && 0 <= c < 256
    ensures (a / 4) * 4 + ((a % 4) * 16 + b / 16) / 16 == a
    ensures (((a % 4) * 16 + b / 16) % 16) * 16 + ((b % 16) * 4 + c / 64) / 4 == b
    ensures (((b % 16) * 4 + c / 64) % 4) * 64 + c % 64 == c
  {
    DivMod16((a % 4) * 16 + b / 16, a % 4, b / 16);
    DivMod4((b % 16) * 4 + c / 64, b % 16, c / 64);
  }

  /** Joining four sextets into three octets and splitting them again. */
  lemma SextetArith(v0: int, v1: int, v2: int, v3: int)
    requires 0 <= v0 < 64 && 0 <= v1 < 64 && 0 <= v2 < 64 && 0 <= v3 < 64
    ensures (v0 * 4 + v1 / 16) / 4 == v0
    ensures ((v0 * 4 + v1 / 16) % 4) * 16 + ((v1 % 16) * 16 + v2 / 4) / 16 == v1
    ensures (((v1 % 16) * 16 + v2 / 4) % 16) * 4 + ((v2 % 4) * 64 + v3) / 64 == v2
    ensures ((v2 % 4) * 64 + v3) % 64 == v3
  {
    DivMod4(v0 * 4 + v1 / 16, v0, v1 / 16);
    DivMod16((v1 % 16) * 16 + v2 / 4, v1 % 16, v2 / 4);
    DivMod64((v2 % 4) * 64 + v3, v2 % 4, v3);
  }

  lemma DecodeEncodeGroup(a: byte, b: byte, c: byte)
    ensures DecodeGroup(EncodeGroup(a, b, c)) == Some([a, b, c])
  {
    var x, y, z := a as int, b as int, c as int;
    IndexOfCharOf(x / 4);
    IndexOfCharOf((x % 4) * 16 + y / 16);
    IndexOfCharOf((y % 16) * 4 + z / 64);
    IndexOfCharOf(z % 64);
    GroupArith(x, y, z);
  }

  lemma DecodeEncodeFinal1(a: byte)
    ensures DecodeFinal(EncodeFinal1(a)) == Some([a])
  {
    IndexOfCharOf(a as int / 4);
    IndexOfCharOf((a as int % 4) * 16);
    GroupArith(a as int, 0, 0);
  }

  lemma DecodeEncodeFinal2(a: byte, b: byte)
    ensures DecodeFinal(EncodeFinal2(a, b)) == Some([a, b])
  {
    IndexOfCharOf(a as int / 4);
    IndexOfCharOf((a as int % 4) * 16 + b as int / 16);
    IndexOfCharOf((b as int % 16) * 4);
    GroupArith(a as int, b as int, 0);
  }

  /** Decoding an encoding gives back the octets, the empty string included. */
  lemma {:induction false} DecodeEncode(data: seq<byte>)
    ensures Decode(Encode(data)) == Some(data)
    decreases |data|
  {
    if |data| == 0 {
    } else if |data| == 1 {
      DecodeEncodeFinal1(data[0]);
      assert data == [data[0]];
    } else if |data| == 2 {
      DecodeEncodeFinal2(data[0], data[1]);
      assert data == [data[0], data[1]];
    } else {
      DecodeEncodeGroup(data[0], data[1], data[2]);
      DecodeEncode(data[3..]);
      DecodeGroupStep(data[0], data[1], data[2], Encode(data[3..]));
      SplitThree(data);
    }
  }

  lemma SplitThree<T>(s: seq<T>)
    requires |s| >= 3
    ensures s == [s[0], s[1], s[2]] + s[3..]
  {
  }

  /** One step of the decoder over a leading full group. */
  lemma DecodeGroupStep(a: byte, b: byte, c: byte, rest: string)
    requires Decode(rest).Some?
    ensures Decode(EncodeGroup(a, b, c) + rest) == Some([a, b, c] + Decode(rest).value)
  {
    var g := EncodeGroup(a, b, c);
    var s := g + rest;
    DecodeEncodeGroup(a, b, c);
    if |rest| == 0 {
      assert s == g;
      assert [a, b, c] + Decode(rest).value == [a, b, c];
    } else {
      assert s[..4] == g;
      assert s[4..] == rest;
    }
  }

  /** Distinct octet strings have distinct encodings. */
  lemma EncodeInjective(x: seq<byte>, y: seq<byte>)
    requires Encode(x) == Encode(y)
    ensures x == y
  {
    DecodeEncode(x);
    DecodeEncode(y);
  }

  /** Three octets joined from four sextets encode as those sextets' characters. */
  lemma EncodeSextets(v0: int, v1: int, v2: int, v3: int, a: byte, b: byte, c: byte)
    requires 0 <= v0 < 64 && 0 <= v1 < 64 && 0 <= v2 < 64 && 0 <= v3 < 64
    requires a as int == v0 * 4 + v1 / 16 && b as int == (v1 % 16) * 16 + v2 / 4 && c as int == (v2 % 4) * 64 + v3
    ensures EncodeGroup(a, b, c) == [CharOf(v0), CharOf(v1), CharOf(v2), CharOf(v3)]
  {
    var x, y, z := a as int, b as int, c as int;
    SextetArith(v0, v1, v2, v3);
    assert x / 4 == v0;
    assert (x % 4) * 16 + y / 16 == v1;
    assert (y % 16) * 4 + z / 64 == v2;
    assert z % 64 == v3;
  }

  lemma EncodeDecodeGroup(q: string)
    requires |q| == 4 && DecodeGroup(q).Some?
    ensures var g := DecodeGroup(q).value; EncodeGroup(g[0], g[1], g[2]) == q
  {
    var v0, v1, v2, v3 := IndexOf(q[0]), IndexOf(q[1]), IndexOf(q[2]), IndexOf(q[3]);
    var g := DecodeGroup(q).value;
    EncodeSextets(v0, v1, v2, v3, g[0], g[1], g[2]);
    CharOfIndexOf(q[0]);
    CharOfIndexOf(q[1]);
    CharOfIndexOf(q[2]);
    CharOfIndexOf(q[3]);
    assert q == [CharOf(v0), CharOf(v1), CharOf(v2), CharOf(v3)];
  }

  lemma EncodeDecodeFinal1(q: string)
    requires |q| == 4 && q[2] == '=' && q[3] == '=' && DecodeFinal(q).Some?
    ensures |DecodeFinal(q).value| == 1 && EncodeFinal1(DecodeFinal(q).value[0]) == q
  {
    var v0, v1 := IndexOf(q[0]), IndexOf(q[1]);
    var x := DecodeFinal(q).value[0] as int;
    assert x == v0 * 4 + v1 / 16;
    SextetArith(v0, v1, 0, 0);
    CharOfIndexOf(q[0]);
    CharOfIndexOf(q[1]);
    var e := EncodeFinal1(DecodeFinal(q).value[0]);
    assert e[0] == q[0] && e[1] == q[1];
  }

  /** Two octets joined from three sextets encode as those sextets' characters. */
  lemma EncodeSextets2(v0: int, v1: int, v2: int, a: byte, b: byte)
    requires 0 <= v0 < 64 && 0 <= v1 < 64 && 0 <= v2 < 64 && v2 % 4 == 0
    requires a as int == v0 * 4 + v1 / 16 && b as int == (v1 % 16) * 16 + v2 / 4
    ensures EncodeFinal2(a, b) == [CharOf(v0), CharOf(v1), CharOf(v2), '=']
  {
    var x, y := a as int, b as int;
    SextetArith(v0, v1, v2, 0);
    assert x / 4 == v0;
    assert (x % 4) * 16 + y / 16 == v1;
    assert (y % 16) * 4 == v2;
  }

  lemma EncodeDecodeFinal2(q: string)
    requires |q| == 4 && q[2] != '=' && q[3] == '=' && DecodeFinal(q).Some?
    ensures var g := DecodeFinal(q).value; |g| == 2 && EncodeFinal2(g[0], g[1]) == q
  {
    var v0, v1, v2 := IndexOf(q[0]), IndexOf(q[1]), IndexOf(q[2]);
    var g := DecodeFinal(q).value;
    EncodeSextets2(v0, v1, v2, g[0], g[1]);
    CharOfIndexOf(q[0]);
    CharOfIndexOf(q[1]);
    CharOfIndexOf(q[2]);
    assert q == [CharOf(v0), CharOf(v1), CharOf(v2), '='];
  }

  lemma EncodeDecodeFinal(q: string)
    requires |q| == 4 && DecodeFinal(q).Some?
    ensures Encode(DecodeFinal(q).value) == q
  {
    var g := DecodeFinal(q).value;
    if q[2] == '=' && q[3] == '=' {
      EncodeDecodeFinal1(q);
    } else if q[3] == '=' {
      EncodeDecodeFinal2(q);
    } else {
      EncodeDecodeGroup(q);
      assert g[3..] == [];
      assert Encode(g) == EncodeGroup(g[0], g[1], g[2]) + Encode([]);
    }
  }

  /** Whatever the strict decoder accepts is re-encoded to exactly the same text. */
  lemma {:induction false} EncodeDecode(s: string)
    requires Decode(s).Some?
    ensures Encode(Decode(s).value) == s
    decreases |s|
  {
    if |s| == 0 {
    } else if |s| == 4 {
      EncodeDecodeFinal(s);
    } else {
      var g := DecodeGroup(s[..4]).value;
      var rest := Decode(s[4..]).value;
      EncodeDecode(s[4..]);
      EncodeDecodeGroup(s[..4]);
      var data := g + rest;
      assert |rest| > 0;
      assert data[3..] == rest;
      assert data[0] == g[0] && data[1] == g[1] && data[2] == g[2];
      assert s == s[..4] + s[4..];
    }
  }
}
