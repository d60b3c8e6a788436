/** Base64urlUInt (RFC 7518, section 2): the modulus and exponent of a JSON Web Key as text. */
module Jwk {
  import opened Wrappers

  type Octet = x: nat | x < 256

  type Sextet = x: nat | x < 64

  // --- integers as octets, most significant first ---

  function BitLength(n: nat): nat {
    if n == 0 then 0 else 1 + BitLength(n / 2)
  }

  // (n.bit_length() + 7) // 8, in key_store.py
  function ByteLength(n: nat): nat {
    (BitLength(n) + 7) / 8
  }

  // math.ceil(n.bit_length() / 8), in jwt_rs256.py
  function CeilByteLength(n: nat): nat {
    var bits := BitLength(n);
    if bits % 8 == 0 then bits / 8 else bits / 8 + 1
  }

  // n.to_bytes(length, "big"): an OverflowError if n does not fit.
  function ToBytes(n: nat, length: nat): Option<seq<Octet>> {
    if length == 0 then if n == 0 then Some([]) else None
    else
      match ToBytes(n / 256, length - 1)
      case None => None
      case Some(high) => Some(high + [n % 256])
  }

  function FromBytes(bytes: seq<Octet>): nat {
    if bytes == [] then 0 else 256 * FromBytes(bytes[..|bytes| - 1]) + bytes[|bytes| - 1]
  }

  // --- base64url (RFC 4648, section 5) ---

  function Letter(v: Sextet): char {
    if v < 26 then 'A' + v as char
    else if v < 52 then 'a' + (v - 26) as char
    else if v < 62 then '0' + (v - 52) as char
    else if v == 62 then '-'
    else '_'
  }

  function Value(c: char): Option<Sextet> {
    if 'A' <= c <= 'Z' then Some((c - 'A') as nat)
    else if 'a' <= c <= 'z' then Some((c - 'a') as nat + 26)
    else if '0' <= c <= '9' then Some((c - '0') as nat + 52)
    else if c == '-' then Some(62)
    else if c == '_' then Some(63)
    else None
  }

  // The four groups of six bits of three octets, and the three octets of four groups.
  function First(a: Octet): Sextet { a / 4 }
  function Second(a: Octet, b: Octet): Sextet { a % 4 * 16 + b / 16 }
  function Third(b: Octet, c: Octet): Sextet { b % 16 * 4 + c / 64 }
  function Fourth(c: Octet): Sextet { c % 64 }

  function High(v0: Sextet, v1: Sextet): Octet { v0 * 4 + v1 / 16 }
  function Middle(v1: Sextet, v2: Sextet): Octet { v1 % 16 * 16 + v2 / 4 }
  function Low(v2: Sextet, v3: Sextet): Octet { v2 % 4 * 64 + v3 }

  // A last, incomplete group is filled up with zero bits.
  function Sextets(b: seq<Octet>): seq<Sextet> {
    if b == [] then []
    else if |b| == 1 then [First(b[0]), Second(b[0], 0)]
    else if |b| == 2 then [First(b[0]), Second(b[0], b[1]), Third(b[1], 0)]
    else [First(b[0]), Second(b[0], b[1]), Third(b[1], b[2]), Fourth(b[2])] + Sextets(b[3..])
  }

  function Text(vs: seq<Sextet>): string {
    if vs == [] then "" else [Letter(vs[0])] + Text(vs[1..])
  }

  // base64.urlsafe_b64encode, with its padding.
  function Encode(b: seq<Octet>): string {
    Text(Sextets(b)) + (if |b| % 3 == 1 then "==" else if |b| % 3 == 2 then "=" else "")
  }

  function StripPadding(s: string): string {
    if s != "" && s[|s| - 1] == '=' then StripPadding(s[..|s| - 1]) else s
  }

  // The reader's side: unpadded text back to octets. Bits beyond the last octet are ignored.
  function Values(s: string): Option<seq<Sextet>> {
    if s == "" then Some([])
    else
      match (Value(s[0]), Values(s[1..]))
      case (Some(v), Some(rest)) => Some([v] + rest)
      case _ => None
  }

  function Octets(vs: seq<Sextet>): Option<seq<Octet>> {
    if vs == [] then Some([])
    else if |vs| == 1 then None
    else if |vs| == 2 then Some([High(vs[0], vs[1])])
    else if |vs| == 3 then Some([High(vs[0], vs[1]), Middle(vs[1], vs[2])])
    else
      match Octets(vs[4..])
      case None => None
      case Some(rest) => Some([High(vs[0], vs[1]), Middle(vs[1], vs[2]), Low(vs[2], vs[3])] + rest)
  }

  function Decode(s: string): Option<seq<Octet>> {
    match Values(s)
    case None => None
    case Some(vs) => Octets(vs)
  }

  // --- the encoder of both files ---

  function IntToBase64Url(n: nat, byteLength: nat): Option<string> {
    match ToBytes(n, byteLength)
    case None => None
    case Some(bytes) => Some(StripPadding(Encode(bytes)))
  }

  function StoreField(n: nat): Option<string> {
    IntToBase64Url(n, ByteLength(n))
  }

  function EndpointField(n: nat): Option<string> {
    IntToBase64Url(n, CeilByteLength(n))
  }

  // --- octets ---

  function Power256(k: nat): nat {
    if k == 0 then 1 else 256 * Power256(k - 1)
  }

  lemma {:induction false} ByteLengthByOctets(n: nat)
    requires n > 0
    ensures ByteLength(n) == 1 + ByteLength(n / 256)
  {
    if n < 256 {
      assert n / 2 / 2 / 2 / 2 / 2 / 2 / 2 / 2 == 0 && n / 256 == 0;
      EightBits(n);
    } else {
      EightBits(n);
    }
  }

  lemma {:induction false} EightBits(n: nat)
    ensures n >= 256 ==> BitLength(n) == 8 + BitLength(n / 256)
    ensures 0 < n < 256 ==> 1 <= BitLength(n) <= 8
  {
    var a := n / 2;
    var b := a / 2;
    var c := b / 2;
    var d := c / 2;
    var e := d / 2;
    var f := e / 2;
    var g := f / 2;
    var h := g / 2;
    assert h == n / 256;
    assert n > 0 ==> BitLength(n) == 1 + BitLength(a);
    assert a > 0 ==> BitLength(a) == 1 + BitLength(b);
    assert b > 0 ==> BitLength(b) == 1 + BitLength(c);
    assert c > 0 ==> BitLength(c) == 1 + BitLength(d);
    assert d > 0 ==> BitLength(d) == 1 + BitLength(e);
    assert e > 0 ==> BitLength(e) == 1 + BitLength(f);
    assert f > 0 ==> BitLength(f) == 1 + BitLength(g);
    assert g > 0 ==> BitLength(g) == 1 + BitLength(h);
  }

  // n fits exactly into ByteLength(n) octets, the first of them not zero.
  lemma {:induction false} FitsExactly(n: nat)
    ensures ToBytes(n, ByteLength(n)).Some?
    ensures var bytes := ToBytes(n, ByteLength(n)).value;
            FromBytes(bytes) == n && |bytes| == ByteLength(n) && (n > 0 ==> bytes != [] && bytes[0] != 0)
    decreases n
  {
    if n == 0 {
    } else {
      ByteLengthByOctets(n);
      FitsExactly(n / 256);
      var high, bytes := ToBytes(n / 256, ByteLength(n / 256)).value, ToBytes(n, ByteLength(n)).value;
      assert bytes[..|bytes| - 1] == high;
      if n < 256 {
        assert high == [];
      }
    }
  }

  lemma {:induction false} BelowPower(bytes: seq<Octet>)
    ensures FromBytes(bytes) < Power256(|bytes|)
  {
    if bytes == [] {
    } else {
      BelowPower(bytes[..|bytes| - 1]);
    }
  }

  lemma {:induction false} AtLeastPower(n: nat)
    requires n > 0
    ensures Power256(ByteLength(n) - 1) <= n
    decreases n
  {
    ByteLengthByOctets(n);
    if n < 256 {
    } else {
      AtLeastPower(n / 256);
    }
  }

  lemma {:induction false} PowerMonotone(a: nat, b: nat)
    requires a <= b
    ensures Power256(a) <= Power256(b)
    decreases b
  {
    if a == b {
    } else {
      PowerMonotone(a, b - 1);
    }
  }

  // No shorter octet string has this value.
  lemma {:induction false} NoShorter(n: nat, bytes: seq<Octet>)
    requires n > 0 && FromBytes(bytes) == n
    ensures ByteLength(n) <= |bytes|
  {
    if |bytes| < ByteLength(n) {
      BelowPower(bytes);
      AtLeastPower(n);
      PowerMonotone(|bytes|, ByteLength(n) - 1);
    }
  }

  // --- text ---

  lemma {:induction false} LetterRoundTrip(v: Sextet)
    ensures Value(Letter(v)) == Some(v) && Letter(v) != '='
  {
  }

  lemma {:induction false} TextRoundTrip(vs: seq<Sextet>)
    ensures Values(Text(vs)) == Some(vs) && '=' !in Text(vs)
  {
    if vs == [] {
    } else {
      LetterRoundTrip(vs[0]);
      TextRoundTrip(vs[1..]);
      assert Text(vs)[1..] == Text(vs[1..]);
      assert vs == [vs[0]] + vs[1..];
    }
  }

  lemma {:induction false} StripIsText(b: seq<Octet>)
    ensures StripPadding(Encode(b)) == Text(Sextets(b))
  {
    TextRoundTrip(Sextets(b));
    StripPads(Text(Sextets(b)));
  }

  lemma {:induction false} StripPads(text: string)
    requires '=' !in text
    ensures StripPadding(text + "") == StripPadding(text + "=") == StripPadding(text + "==") == text
  {
    assert text + "" == text;
    assert (text + "=")[..|text|] == text;
    assert (text + "==")[..|text| + 1] == text + "=";
  }

  lemma {:induction false} Digits4(h: nat, l: nat)
    requires l < 4
    ensures (h * 4 + l) / 4 == h && (h * 4 + l) % 4 == l
  {
  }

  lemma {:induction false} Digits16(h: nat, l: nat)
    requires l < 16
    ensures (h * 16 + l) / 16 == h && (h * 16 + l) % 16 == l
  {
  }

  lemma {:induction false} Regrouped(a: Octet, b: Octet, c: Octet)
    ensures High(First(a), Second(a, b)) == a
    ensures Middle(Second(a, b), Third(b, c)) == b
    ensures Low(Third(b, c), Fourth(c)) == c
  {
    Digits16(a % 4, b / 16);
    Digits4(b % 16, c / 64);
  }

  lemma {:induction false} OneOctet(a: Octet)
    ensures Octets(Sextets([a])) == Some([a])
  {
    OctetsOfTwo(First(a), Second(a, 0));
    assert High(First(a), Second(a, 0)) == a by {
      Regrouped(a, 0, 0);
    }
  }

  lemma {:induction false} OctetsOfTwo(v0: Sextet, v1: Sextet)
    ensures Octets([v0, v1]) == Some([High(v0, v1)])
  {
  }

  lemma {:induction false} TwoOctets(a: Octet, b: Octet)
    ensures Octets(Sextets([a, b])) == Some([a, b])
  {
    Regrouped(a, b, 0);
  }

  lemma {:induction false} ThreeOctets(a: Octet, b: Octet, c: Octet, rest: seq<Octet>)
    requires Octets(Sextets(rest)) == Some(rest)
    ensures Octets(Sextets([a, b, c] + rest)) == Some([a, b, c] + rest)
  {
    Regrouped(a, b, c);
    var all := [a, b, c] + rest;
    assert all[3..] == rest;
    assert Sextets(all)[4..] == Sextets(rest);
  }

  lemma {:induction false} OctetsRoundTrip(b: seq<Octet>)
    ensures Octets(Sextets(b)) == Some(b)
  {
    if |b| >= 3 {
      OctetsRoundTrip(b[3..]);
      ThreeOctets(b[0], b[1], b[2], b[3..]);
      assert b == [b[0], b[1], b[2]] + b[3..];
    } else if |b| == 2 {
      TwoOctets(b[0], b[1]);
      assert b == [b[0], b[1]];
    } else if |b| == 1 {
      OneOctet(b[0]);
      assert b == [b[0]];
    }
  }

  // --- the law ---

  ghost predicate IsBase64UrlUInt(s: string, n: nat) {
    && '=' !in s
    && Decode(s).Some?
    && FromBytes(Decode(s).value) == n
    && forall other: seq<Octet> :: FromBytes(other) == n ==> |Decode(s).value| <= |other|
  }

  /** For every positive integer both files write the same text: unpadded base64url of the fewest octets with that
      value, from which the integer is read back. */
  lemma {:induction false} FieldsAreBase64UrlUInt(n: nat)
    requires n > 0
    ensures StoreField(n).Some? && StoreField(n) == EndpointField(n)
    ensures IsBase64UrlUInt(StoreField(n).value, n)
  {
    FitsExactly(n);
    var bytes := ToBytes(n, ByteLength(n)).value;
    StripIsText(bytes);
    TextRoundTrip(Sextets(bytes));
    OctetsRoundTrip(bytes);
    forall other: seq<Octet> | FromBytes(other) == n
      ensures |bytes| <= |other|
    {
      NoShorter(n, other);
    }
    assert ByteLength(n) == CeilByteLength(n);
  }

  /** Zero, which RFC 7518 writes as one zero octet, comes out empty: the positive integers are exactly those whose text
      holds at least one octet. */
  lemma {:induction false} OnlyZeroIsEmpty(n: nat)
    ensures StoreField(n).Some?
    ensures Decode(StoreField(n).value) == Some([]) <==> n == 0
  {
    if n > 0 {
      FieldsAreBase64UrlUInt(n);
      assert FromBytes([]) == 0;
    } else {
      assert ToBytes(0, 0) == Some([]);
    }
  }
}
