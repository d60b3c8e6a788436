/** The text of a JSON Web Key field bit for bit: the alphabet, the order of the octets and the grouping of their
    bits. */
module JwkLaws {
  import opened Jwk

  /** The alphabet is A-Z, a-z, 0-9, hyphen and underscore, in this order. */
  lemma {:induction false} AlphabetIs(v: Sextet)
    ensures Letter(0) == 'A' && Letter(25) == 'Z' && Letter(26) == 'a' && Letter(51) == 'z'
    ensures Letter(52) == '0' && Letter(61) == '9' && Letter(62) == '-' && Letter(63) == '_'
    ensures v + 1 < 64 && v !in {25, 51, 61, 62} ==> Letter(v + 1) as int == Letter(v) as int + 1
  {
  }

  lemma {:induction false} TextIsByLetter(vs: seq<Sextet>)
    ensures |Text(vs)| == |vs| && forall i :: 0 <= i < |vs| ==> Text(vs)[i] == Letter(vs[i])
  {
    if vs == [] {
    } else {
      TextIsByLetter(vs[1..]);
    }
  }

  function Power(base: nat, k: nat): nat {
    if k == 0 then 1 else base * Power(base, k - 1)
  }

  lemma {:induction false} PowerAdds(base: nat, a: nat, b: nat)
    ensures Power(base, a + b) == Power(base, a) * Power(base, b)
    decreases b
  {
    if b == 0 {
    } else {
      PowerAdds(base, a, b - 1);
      assert Power(base, a + b) == base * Power(base, a + (b - 1));
      Swapped(base, Power(base, a), Power(base, b - 1));
    }
  }

  lemma {:induction false} Swapped(x: nat, y: nat, z: nat)
    ensures x * (y * z) == y * (x * z)
  {
  }

  // Digits to any base, most significant first.
  function Number(base: nat, digits: seq<nat>): nat {
    if digits == [] then 0 else base * Number(base, digits[..|digits| - 1]) + digits[|digits| - 1]
  }

  lemma {:induction false} NumberConcat(base: nat, a: seq<nat>, b: seq<nat>)
    ensures Number(base, a + b) == Number(base, a) * Power(base, |b|) + Number(base, b)
  {
    if b == [] {
      assert a + b == a;
    } else {
      var init, last := b[..|b| - 1], b[|b| - 1];
      NumberConcat(base, a, init);
      assert (a + b)[..|a + b| - 1] == a + init;
      Swapped(base, Number(base, a), Power(base, |init|));
      Distributes(base, Number(base, a) * Power(base, |init|), Number(base, init));
    }
  }

  lemma {:induction false} Distributes(x: int, y: int, z: int)
    ensures x * (y + z) == x * y + x * z
  {
  }

  /** The octets are the digits of the integer to the base 256, the most significant one first. */
  lemma {:induction false} OctetsAreDigits(bytes: seq<Octet>)
    ensures FromBytes(bytes) == Number(256, bytes)
  {
    if bytes == [] {
    } else {
      OctetsAreDigits(bytes[..|bytes| - 1]);
    }
  }

  lemma {:induction false} NumberOfFour(base: nat, a: nat, b: nat, c: nat, d: nat)
    ensures Number(base, [a]) == a
    ensures Number(base, [a, b]) == base * a + b
    ensures Number(base, [a, b, c]) == base * (base * a + b) + c
    ensures Number(base, [a, b, c, d]) == base * (base * (base * a + b) + c) + d
  {
    assert [a][..0] == [] && [a, b][..1] == [a] && [a, b, c][..2] == [a, b] && [a, b, c, d][..3] == [a, b, c];
    assert Number(base, [a]) == base * Number(base, []) + a;
    assert Number(base, []) == 0;
  }

  // The zero bits that fill up the last group.
  function Filling(octets: nat): nat {
    if octets % 3 == 1 then 16 else if octets % 3 == 2 then 4 else 1
  }

  lemma {:induction false} GroupKeepsBits(a: Octet, b: Octet, c: Octet)
    ensures Number(64, Group(a, b, c)) == Number(256, [a, b, c])
    ensures Number(64, [First(a), Second(a, b), Third(b, 0)]) == Number(256, [a, b]) * 4
    ensures Number(64, [First(a), Second(a, 0)]) == Number(256, [a]) * 16
  {
    NumberOfFour(64, First(a), Second(a, b), Third(b, c), Fourth(c));
    NumberOfFour(64, First(a), Second(a, b), Third(b, 0), 0);
    NumberOfFour(64, First(a), Second(a, 0), 0, 0);
    NumberOfFour(256, a, b, c, 0);
  }

  lemma {:induction false} PowersMeet(octets: nat)
    ensures Power(64, SextetCount(octets)) == Power(256, octets) * Filling(octets)
  {
    if octets < 3 {
      SmallPowers(64);
      SmallPowers(256);
    } else {
      PowersMeet(octets - 3);
      PowerAdds(64, SextetCount(octets - 3), 4);
      PowerAdds(256, octets - 3, 3);
      SmallPowers(64);
      SmallPowers(256);
    }
  }

  lemma {:induction false} SmallPowers(base: nat)
    ensures Power(base, 0) == 1 && Power(base, 1) == base && Power(base, 2) == base * base
    ensures Power(base, 3) == base * (base * base) && Power(base, 4) == base * (base * (base * base))
  {
  }

  function SextetCount(octets: nat): nat {
    octets / 3 * 4 + if octets % 3 == 0 then 0 else octets % 3 + 1
  }

  // The sextets are the number's digits to the base 64, after the filling.
  ghost predicate SameBits(b: seq<Octet>) {
    && |Sextets(b)| == SextetCount(|b|)
    && Number(64, Sextets(b)) == Number(256, b) * Filling(|b|)
  }

  /** The text is the same number to the base 64, digit by digit, after two or four zero bits have filled up an
      incomplete last group. */
  lemma {:induction false} TextIsTheNumber(b: seq<Octet>)
    ensures SameBits(b)
  {
    if |b| < 3 {
      LastGroup(b);
    } else {
      TextIsTheNumber(b[3..]);
      assert b == [b[0], b[1], b[2]] + b[3..];
      ThreeMore(b[0], b[1], b[2], b[3..], b);
    }
  }

  lemma {:induction false} LastGroup(b: seq<Octet>)
    requires |b| < 3
    ensures SameBits(b)
  {
    if |b| == 1 {
      assert b == [b[0]];
      GroupKeepsBits(b[0], 0, 0);
    } else if |b| == 2 {
      assert b == [b[0], b[1]];
      GroupKeepsBits(b[0], b[1], 0);
    }
  }

  /** Padded, the text has four letters for every three octets begun. */
  lemma {:induction false} PaddedLength(b: seq<Octet>)
    ensures |Encode(b)| == (|b| + 2) / 3 * 4
  {
    TextIsTheNumber(b);
    TextIsByLetter(Sextets(b));
  }

  lemma {:induction false} ThreeMore(a: Octet, b: Octet, c: Octet, rest: seq<Octet>, all: seq<Octet>)
    requires all == [a, b, c] + rest
    requires SameBits(rest)
    ensures SameBits(all)
  {
    var four := Group(a, b, c);
    SextetsOfGroup(a, b, c, rest, all);
    GroupKeepsBits(a, b, c);
    PowersMeet(|rest|);
    CountOfGroup(|rest|);
    GroupsJoin(four, Sextets(rest), [a, b, c], rest, Filling(|rest|));
  }

  function Group(a: Octet, b: Octet, c: Octet): seq<Sextet> {
    [First(a), Second(a, b), Third(b, c), Fourth(c)]
  }

  lemma {:induction false} SextetsOfGroup(a: Octet, b: Octet, c: Octet, rest: seq<Octet>, all: seq<Octet>)
    requires all == [a, b, c] + rest
    ensures Sextets(all) == Group(a, b, c) + Sextets(rest)
  {
    assert all[3..] == rest;
  }

  lemma {:induction false} CountOfGroup(octets: nat)
    ensures SextetCount(octets + 3) == SextetCount(octets) + 4 && Filling(octets + 3) == Filling(octets)
  {
  }

  lemma {:induction false} GroupsJoin(four: seq<nat>, low: seq<nat>, head: seq<nat>, rest: seq<nat>, filling: nat)
    requires Number(64, four) == Number(256, head) && Number(64, low) == Number(256, rest) * filling
    requires Power(64, |low|) == Power(256, |rest|) * filling
    ensures Number(64, four + low) == Number(256, head + rest) * filling
  {
    NumberConcat(256, head, rest);
    NumberConcat(64, four, low);
    Joined(Number(256, head), Power(256, |rest|), Number(256, rest), filling);
  }

  lemma {:induction false} Joined(h: nat, p: nat, r: nat, f: nat)
    ensures h * (p * f) + r * f == (h * p + r) * f
  {
  }

  /** Bits are counted as Python counts them: n has k of them exactly if 2^(k-1) <= n < 2^k. */
  lemma {:induction false} BitsAre(n: nat)
    requires n > 0
    ensures BitLength(n) > 0 && Power(2, BitLength(n) - 1) <= n < Power(2, BitLength(n))
  {
    if n == 1 {
      assert BitLength(1) == 1 + BitLength(0);
      SmallPowers(2);
    } else {
      BitsAre(n / 2);
    }
  }
}
