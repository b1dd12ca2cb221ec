/**
 * Base 64 encoding with the URL- and filename-safe alphabet, padded with '=',
 * as section 5 of RFC 4648 defines it (Python's `base64.urlsafe_b64encode`).
 * The decoder is strict: it accepts exactly the strings the encoder produces.
 */
module Base64Url {
  import opened Basics

  const PadChar: char := '='

  predicate IsAlphabetChar(c: char)
  {
    ('A' <= c <= 'Z') || ('a' <= c <= 'z') || ('0' <= c <= '9') || c == '-' || c == '_'
  }

  /** The character that stands for the 6-bit value `i`. */
  function CharOf(i: nat): (c: char)
    requires i < 64
    ensures IsAlphabetChar(c)
  {
    if i < 26 then ('A' as int + i) as char
    else if i < 52 then ('a' as int + (i - 26)) as char
    else if i < 62 then ('0' as int + (i - 52)) as char
    else if i == 62 then '-'
    else '_'
  }

  /** The 6-bit value a character stands for, if it belongs to the alphabet. */
  function IndexOf(c: char): (r: Option<nat>)
    ensures r.Some? <==> IsAlphabetChar(c)
    ensures r.Some? ==> r.value < 64 && CharOf(r.value) == c
  {
    if 'A' <= c <= 'Z' then Some(c as int - 'A' as int)
    else if 'a' <= c <= 'z' then Some(c as int - 'a' as int + 26)
    else if '0' <= c <= '9' then Some(c as int - '0' as int + 52)
    else if c == '-' then Some(62)
    else if c == '_' then Some(63)
    else None
  }

  lemma IndexOfCharOf(i: nat)
    requires i < 64
    ensures IndexOf(CharOf(i)) == Some(i)
  {
  }

  /** Number of '=' characters that close the encoding of `n` bytes. */
  function PadCount(n: nat): (pad: nat)
  {
    (3 - n % 3) % 3
  }

  /** Length of the encoding of `n` bytes: four characters per started group of three. */
  function EncodedLength(n: nat): (len: nat)
  {
    if n == 0 then 0 else 4 + EncodedLength(if n >= 3 then n - 3 else 0)
  }

  /** The closed form of EncodedLength: 4 * ceil(n / 3). */
  lemma {:induction false} EncodedLengthFormula(n: nat)
    ensures EncodedLength(n) == 4 * ((n + 2) / 3)
    ensures EncodedLength(n) % 4 == 0
    decreases n
  {
    if n >= 3 {
      EncodedLengthFormula(n - 3);
      assert (n + 2) / 3 == (n - 3 + 2) / 3 + 1;
    }
  }

  /** Every character is in the alphabet except the trailing `pad` ones, which are '='. */
  predicate WellShaped(s: seq<char>, pad: nat)
  {
    pad <= |s| &&
    (forall i | 0 <= i < |s| - pad :: IsAlphabetChar(s[i])) &&
    (forall i | |s| - pad <= i < |s| :: s[i] == PadChar)
  }

  /** Three bytes as four 6-bit values, and back. */
  function GroupBytes(i0: nat, i1: nat, i2: nat, i3: nat): (r: seq<byte>)
    requires i0 < 64 && i1 < 64 && i2 < 64 && i3 < 64
    ensures |r| == 3
  {
    [(i0 * 4 + i1 / 16) as byte, ((i1 % 16) * 16 + i2 / 4) as byte, ((i2 % 4) * 64 + i3) as byte]
  }

  lemma SplitRecombine(h: int, x: int, k: int)
    requires k == 4 || k == 16 || k == 64
    requires 0 <= x < k
    ensures (h * k + x) / k == h && (h * k + x) % k == x
  {
  }

  /** Splitting three bytes into sextets and joining them again gives the bytes back. */
  lemma GroupBytesOfBytes(a: byte, b: byte, c: byte)
    ensures GroupBytes(a as int / 4, (a as int % 4) * 16 + b as int / 16,
                       (b as int % 16) * 4 + c as int / 64, c as int % 64) == [a, b, c]
  {
    var i1 := (a as int % 4) * 16 + b as int / 16;
    var i2 := (b as int % 16) * 4 + c as int / 64;
    SplitRecombine(a as int % 4, b as int / 16, 16);
    SplitRecombine(b as int % 16, c as int / 64, 4);
    assert i1 / 16 == a as int % 4 && i1 % 16 == b as int / 16;
    assert i2 / 4 == b as int % 16 && i2 % 4 == c as int / 64;
  }

  /** Joining sextets into bytes and splitting the bytes again gives the sextets back. */
  lemma BytesOfGroupBytes(i0: nat, i1: nat, i2: nat, i3: nat)
    requires i0 < 64 && i1 < 64 && i2 < 64 && i3 < 64
    ensures var g := GroupBytes(i0, i1, i2, i3);
      g[0] as int / 4 == i0 && (g[0] as int % 4) * 16 + g[1] as int / 16 == i1 &&
      (g[1] as int % 16) * 4 + g[2] as int / 64 == i2 && g[2] as int % 64 == i3
  {
    SplitRecombine(i0, i1 / 16, 4);
    SplitRecombine(i1 % 16, i2 / 4, 16);
    SplitRecombine(i2 % 4, i3, 64);
  }

  function EncodeGroup(a: byte, b: byte, c: byte): (q: seq<char>)
    ensures |q| == 4 && WellShaped(q, 0)
  {
    [CharOf(a as int / 4), CharOf((a as int % 4) * 16 + b as int / 16),
     CharOf((b as int % 16) * 4 + c as int / 64), CharOf(c as int % 64)]
  }

  function EncodeTwo(a: byte, b: byte): (q: seq<char>)
    ensures |q| == 4 && WellShaped(q, 1)
  {
    [CharOf(a as int / 4), CharOf((a as int % 4) * 16 + b as int / 16),
     CharOf((b as int % 16) * 4), PadChar]
  }

  function EncodeOne(a: byte): (q: seq<char>)
    ensures |q| == 4 && WellShaped(q, 2)
  {
    [CharOf(a as int / 4), CharOf((a as int % 4) * 16), PadChar, PadChar]
  }

  lemma WellShapedAppend(p: seq<char>, q: seq<char>, pad: nat)
    requires WellShaped(p, 0) && WellShaped(q, pad)
    ensures WellShaped(p + q, pad)
  {
    var s := p + q;
    forall i | 0 <= i < |s| - pad ensures IsAlphabetChar(s[i]) {
      if i >= |p| { assert s[i] == q[i - |p|]; }
    }
    forall i | |s| - pad <= i < |s| ensures s[i] == PadChar {
      assert s[i] == q[i - |p|];
    }
  }

  /** `urlsafe_b64encode`: groups of three bytes become four characters; a last group
      of one or two bytes is padded with '='. */
  function Encode(b: seq<byte>): (s: seq<char>)
    ensures |s| == EncodedLength(|b|)
    ensures WellShaped(s, PadCount(|b|))
    decreases |b|
  {
    if |b| == 0 then []
    else if |b| == 1 then EncodeOne(b[0])
    else if |b| == 2 then EncodeTwo(b[0], b[1])
    else
      var s := EncodeGroup(b[0], b[1], b[2]) + Encode(b[3..]);
      WellShapedAppend(EncodeGroup(b[0], b[1], b[2]), Encode(b[3..]), PadCount(|b| - 3));
      s
  }

  /** Four alphabet characters without padding give three bytes. */
  function DecodeGroup(q: seq<char>): (r: Option<seq<byte>>)
    requires |q| == 4
    ensures r.Some? ==> |r.value| == 3
  {
    match (IndexOf(q[0]), IndexOf(q[1]), IndexOf(q[2]), IndexOf(q[3]))
    case (Some(i0), Some(i1), Some(i2), Some(i3)) => Some(GroupBytes(i0, i1, i2, i3))
    case _ => None
  }

  /** The last quartet, which may end in one or two '='. The bits that padding
      leaves over must be zero, so that only the encoder's own output is accepted. */
  function DecodeLast(q: seq<char>): (r: Option<seq<byte>>)
    requires |q| == 4
    ensures r.Some? ==> 1 <= |r.value| <= 3
  {
    if q[2] == PadChar && q[3] == PadChar then
      match (IndexOf(q[0]), IndexOf(q[1]))
      case (Some(i0), Some(i1)) =>
        if i1 % 16 == 0 then Some(GroupBytes(i0, i1, 0, 0)[..1]) else None
      case _ => None
    else if q[3] == PadChar then
      match (IndexOf(q[0]), IndexOf(q[1]), IndexOf(q[2]))
      case (Some(i0), Some(i1), Some(i2)) =>
        if i2 % 4 == 0 then Some(GroupBytes(i0, i1, i2, 0)[..2]) else None
      case _ => None
    else DecodeGroup(q)
  }

  /** `urlsafe_b64decode`, strict: the length must be a multiple of four, every
      character must be in the alphabet, and '=' may only close the last quartet. */
  function Decode(s: seq<char>): (r: Option<seq<byte>>)
    ensures r.Some? && |s| > 0 ==> |r.value| > 0
    ensures r.Some? ==> |s| == EncodedLength(|r.value|)
    decreases |s|
  {
    if |s| == 0 then Some([])
    else if |s| < 4 then None
    else if |s| == 4 then DecodeLast(s)
    else
      match (DecodeGroup(s[..4]), Decode(s[4..]))
      case (Some(g), Some(rest)) => Some(g + rest)
      case _ => None
  }

  lemma DecodeEncodeGroup(a: byte, b: byte, c: byte)
    ensures DecodeGroup(EncodeGroup(a, b, c)) == Some([a, b, c])
  {
    var i0, i1, i2, i3 := a as int / 4, (a as int % 4) * 16 + b as int / 16,
                          (b as int % 16) * 4 + c as int / 64, c as int % 64;
    var q := EncodeGroup(a, b, c);
    assert q == [CharOf(i0), CharOf(i1), CharOf(i2), CharOf(i3)];
    IndexOfCharOf(i0);
    IndexOfCharOf(i1);
    IndexOfCharOf(i2);
    IndexOfCharOf(i3);
    GroupBytesOfBytes(a, b, c);
  }

  lemma DecodeEncodeTwo(a: byte, b: byte)
    ensures DecodeLast(EncodeTwo(a, b)) == Some([a, b])
  {
    var i0, i1, i2 := a as int / 4, (a as int % 4) * 16 + b as int / 16, (b as int % 16) * 4;
    IndexOfCharOf(i0);
    IndexOfCharOf(i1);
    IndexOfCharOf(i2);
    GroupBytesOfBytes(a, b, 0);
    SplitRecombine(b as int % 16, 0, 4);
    var q := EncodeTwo(a, b);
    assert q[2] != PadChar && q[3] == PadChar;
    assert IndexOf(q[0]) == Some(i0) && IndexOf(q[1]) == Some(i1) && IndexOf(q[2]) == Some(i2);
    assert GroupBytes(i0, i1, i2, 0) == [a, b, 0];
    assert GroupBytes(i0, i1, i2, 0)[..2] == [a, b];
  }

  lemma DecodeEncodeOne(a: byte)
    ensures DecodeLast(EncodeOne(a)) == Some([a])
  {
    var i0, i1 := a as int / 4, (a as int % 4) * 16;
    IndexOfCharOf(i0);
    IndexOfCharOf(i1);
    GroupBytesOfBytes(a, 0, 0);
    SplitRecombine(a as int % 4, 0, 16);
    var q := EncodeOne(a);
    assert q[2] == PadChar && q[3] == PadChar;
    assert IndexOf(q[0]) == Some(i0) && IndexOf(q[1]) == Some(i1);
    assert GroupBytes(i0, i1, 0, 0) == [a, 0, 0];
    assert GroupBytes(i0, i1, 0, 0)[..1] == [a];
  }

  lemma EncodeSplit(b: seq<byte>)
    requires |b| >= 3
    ensures Encode(b)[..4] == EncodeGroup(b[0], b[1], b[2])
    ensures Encode(b)[4..] == Encode(b[3..])
  {
    assert Encode(b) == EncodeGroup(b[0], b[1], b[2]) + Encode(b[3..]);
  }

  /** A single unpadded quartet decodes as a full group. */
  lemma DecodeOneGroup(q: seq<char>)
    requires |q| == 4 && q[2] != PadChar && q[3] != PadChar
    ensures Decode(q) == DecodeGroup(q)
  {
  }

  lemma DecodeEncodeThree(b: seq<byte>)
    requires |b| == 3
    ensures Decode(Encode(b)) == Some(b)
  {
    var g := EncodeGroup(b[0], b[1], b[2]);
    EncodeSplit(b);
    assert Encode(b[3..]) == [];
    assert Encode(b) == g;
    DecodeOneGroup(g);
    DecodeEncodeGroup(b[0], b[1], b[2]);
    assert b == [b[0], b[1], b[2]];
  }

  lemma DecodeEncodeSingle(b: seq<byte>)
    requires |b| == 1
    ensures Decode(Encode(b)) == Some(b)
  {
    DecodeEncodeOne(b[0]);
    assert b == [b[0]];
  }

  lemma DecodeEncodePair(b: seq<byte>)
    requires |b| == 2
    ensures Decode(Encode(b)) == Some(b)
  {
    DecodeEncodeTwo(b[0], b[1]);
    assert b == [b[0], b[1]];
  }

  /** Decoding undoes encoding (RFC 4648 round trip). */
  lemma {:induction false} DecodeEncode(b: seq<byte>)
    ensures Decode(Encode(b)) == Some(b)
    decreases |b|
  {
    if |b| == 1 {
      DecodeEncodeSingle(b);
    } else if |b| == 2 {
      DecodeEncodePair(b);
    } else if |b| == 3 {
      DecodeEncodeThree(b);
    } else if |b| > 3 {
      DecodeEncode(b[3..]);
      DecodeEncodeLong(b, Encode(b[3..]));
    }
  }

  lemma LengthPositive(n: nat)
    requires n > 0
    ensures EncodedLength(n) >= 4
  {
  }

  /** A full quartet in front of a decodable string decodes to its three bytes in front. */
  lemma DecodePrepend(g: seq<char>, t: seq<char>, x: seq<byte>, y: seq<byte>)
    requires |g| == 4 && |t| >= 4
    requires DecodeGroup(g) == Some(x) && Decode(t) == Some(y)
    ensures Decode(g + t) == Some(x + y)
  {
    var s := g + t;
    assert s[..4] == g && s[4..] == t;
  }

  lemma DecodeEncodeLong(b: seq<byte>, t: seq<char>)
    requires |b| > 3 && t == Encode(b[3..]) && Decode(t) == Some(b[3..])
    ensures Decode(Encode(b)) == Some(b)
  {
    var g := EncodeGroup(b[0], b[1], b[2]);
    assert b == [b[0], b[1], b[2]] + b[3..];
    EncodeSplit(b);
    assert Encode(b) == g + t;
    LengthPositive(|b[3..]|);
    DecodeEncodeGroup(b[0], b[1], b[2]);
    DecodePrepend(g, t, [b[0], b[1], b[2]], b[3..]);
  }

  lemma EncodeDecodeGroup(q: seq<char>)
    requires |q| == 4 && DecodeGroup(q).Some?
    ensures EncodeGroup(DecodeGroup(q).value[0], DecodeGroup(q).value[1], DecodeGroup(q).value[2]) == q
  {
    var i0, i1, i2, i3 := IndexOf(q[0]).value, IndexOf(q[1]).value, IndexOf(q[2]).value, IndexOf(q[3]).value;
    BytesOfGroupBytes(i0, i1, i2, i3);
  }

  lemma EncodeDecodeLast(q: seq<char>)
    requires |q| == 4 && DecodeLast(q).Some?
    ensures Encode(DecodeLast(q).value) == q
  {
    if q[2] == PadChar && q[3] == PadChar {
      var i0, i1 := IndexOf(q[0]).value, IndexOf(q[1]).value;
      BytesOfGroupBytes(i0, i1, 0, 0);
      assert i1 == (i1 / 16) * 16;
    } else if q[3] == PadChar {
      var i0, i1, i2 := IndexOf(q[0]).value, IndexOf(q[1]).value, IndexOf(q[2]).value;
      BytesOfGroupBytes(i0, i1, i2, 0);
      assert i2 == (i2 / 4) * 4;
    } else {
      EncodeDecodeGroup(q);
      var b := DecodeLast(q).value;
      assert Encode(b) == EncodeGroup(b[0], b[1], b[2]) + Encode(b[3..]);
      assert b[3..] == [];
    }
  }

  /** The decoder accepts nothing but encodings: whatever it decodes re-encodes to the
      very same string. */
  lemma {:induction false} EncodeDecode(s: seq<char>)
    requires Decode(s).Some?
    ensures Encode(Decode(s).value) == s
    decreases |s|
  {
    if |s| == 0 {
    } else if |s| == 4 {
      EncodeDecodeLast(s);
    } else {
      var g := DecodeGroup(s[..4]).value;
      var rest := Decode(s[4..]).value;
      EncodeDecodeGroup(s[..4]);
      EncodeDecode(s[4..]);
      var b := g + rest;
      assert b[..3] == g && b[3..] == rest;
      assert b[0] == g[0] && b[1] == g[1] && b[2] == g[2];
      assert Encode(b) == EncodeGroup(b[0], b[1], b[2]) + Encode(b[3..]);
      assert s == s[..4] + s[4..];
    }
  }

  /** Decode(s) == Some(b) exactly when s is the encoding of b. */
  lemma DecodeIff(s: seq<char>, b: seq<byte>)
    ensures Decode(s) == Some(b) <==> s == Encode(b)
  {
    if Decode(s) == Some(b) { EncodeDecode(s); }
    if s == Encode(b) { DecodeEncode(b); }
  }

  /** The test vectors of section 10 of RFC 4648 up to three bytes, in the URL-safe
      alphabet (they use neither of the two characters where it differs). */
  lemma TestVectorsShort()
    ensures Encode([]) == ""
    ensures Encode([0x66]) == "Zg=="
    ensures Encode([0x66, 0x6F]) == "Zm8="
    ensures Encode([0x66, 0x6F, 0x6F]) == "Zm9v"
  {
    var f: byte, o: byte := 0x66, 0x6F;
    assert f as int / 4 == 25 && (f as int % 4) * 16 == 32;
    assert (f as int % 4) * 16 + o as int / 16 == 38 && (o as int % 16) * 4 == 60;
    assert (o as int % 16) * 4 + o as int / 64 == 61 && o as int % 64 == 47;
    assert [f, o, o][3..] == [];
  }

  lemma EncodeBar()
    ensures Encode([0x62, 0x61, 0x72]) == "YmFy"
  {
    var b: byte, a: byte, r: byte := 0x62, 0x61, 0x72;
    assert b as int / 4 == 24 && (b as int % 4) * 16 + a as int / 16 == 38;
    assert (a as int % 16) * 4 + r as int / 64 == 5 && r as int % 64 == 50;
    assert [b, a, r][3..] == [];
  }

  /** The six-byte test vector of section 10 of RFC 4648: two full groups. */
  lemma TestVectorFoobar()
    ensures Encode([0x66, 0x6F, 0x6F, 0x62, 0x61, 0x72]) == "Zm9vYmFy"
  {
    var foobar: seq<byte> := [0x66, 0x6F, 0x6F, 0x62, 0x61, 0x72];
    assert foobar[..3] == [0x66, 0x6F, 0x6F] && foobar[3..] == [0x62, 0x61, 0x72];
    TestVectorsShort();
    EncodeBar();
    EncodeGroupPrefix(foobar, "Zm9v", "YmFy");
  }

  /** A full group followed by more input encodes as the group's quartet followed by
      the rest's encoding. */
  lemma EncodeGroupPrefix(b: seq<byte>, q: seq<char>, t: seq<char>)
    requires |b| > 3 && Encode(b[..3]) == q && Encode(b[3..]) == t
    ensures Encode(b) == q + t
  {
    assert b[..3][3..] == [];
    assert Encode(b[..3]) == EncodeGroup(b[0], b[1], b[2]);
  }

  /** The two characters in which the URL-safe alphabet differs from the standard one:
      the bytes FB FF are "+/8=" there and "-_8=" here. */
  lemma UrlSafeVector()
    ensures Encode([0xFB, 0xFF]) == "-_8="
  {
    var a: byte, b: byte := 0xFB, 0xFF;
    assert a as int / 4 == 62 && (a as int % 4) * 16 + b as int / 16 == 63 && (b as int % 16) * 4 == 60;
  }
}
