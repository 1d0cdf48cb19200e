/** The inverse of the encoder, as the PewPew side would read the output:
    triplets back to numbers and 14-bit groups back to '0'/'1' characters.
    It exists only in this model, as the reference the encoder's output is
    checked against. */
module Decode {
  import opened Arith
  import opened Encode

  /** No symbol occurs twice, so a symbol names one digit. */
  predicate Distinct(alphabet: string)
  {
    forall i, j :: 0 <= i < j < |alphabet| ==> alphabet[i] != alphabet[j]
  }

  /** Every character of t is a symbol of the alphabet. */
  predicate Over(t: string, alphabet: string)
  {
    forall i :: 0 <= i < |t| ==> t[i] in alphabet
  }

  /** The first position of c, or |alphabet| when c does not occur. */
  function IndexOf(alphabet: string, c: char): (i: nat)
    ensures i <= |alphabet|
    ensures i < |alphabet| ==> alphabet[i] == c
    ensures forall j :: 0 <= j < i ==> alphabet[j] != c
  {
    if |alphabet| == 0 then 0 else if alphabet[0] == c then 0 else 1 + IndexOf(alphabet[1..], c)
  }

  lemma IndexOfDistinct(alphabet: string, d: nat)
    requires Distinct(alphabet) && d < |alphabet|
    ensures IndexOf(alphabet, alphabet[d]) == d
  {
  }

  /** The default alphabet has no repeated symbol, so the round trips below
      apply to it. */
  lemma DefaultDistinct()
    ensures Distinct(DefaultAlphabet())
  {
    DefaultAlphabetSpelled();
  }

  /** The number a triplet stands for: its three digits in base s. */
  function Decode36(t: string, alphabet: string): (num: nat)
    requires |t| == 3
  {
    var s := |alphabet|;
    var d0, d1, d2 := IndexOf(alphabet, t[0]), IndexOf(alphabet, t[1]), IndexOf(alphabet, t[2]);
    MulMonotone(0, d0, s * s);
    MulMonotone(0, d1, s);
    d0 * (s * s) + d1 * s + d2
  }

  /** A triplet of symbols of the alphabet stands for a number below s^3. */
  lemma Decode36Bound(t: string, alphabet: string)
    requires |t| == 3 && Over(t, alphabet)
    ensures Decode36(t, alphabet) < Cube(|alphabet|)
  {
    var s := |alphabet|;
    DigitsBound(IndexOf(alphabet, t[0]), IndexOf(alphabet, t[1]), IndexOf(alphabet, t[2]), s);
  }

  /** Decoding a triplet gives back the number, a negative one as num + s^3,
      provided the alphabet has no repeated symbol. */
  lemma Encode36RoundTrip(num: int, alphabet: string)
    requires Encodable(alphabet, num) && Distinct(alphabet)
    ensures Decode36(Encode36(num, alphabet), alphabet)
         == if num >= 0 then num else num + Cube(|alphabet|)
  {
    var s := |alphabet|;
    var t := if num >= 0 then num else num + Cube(s);
    if num < 0 {
      Encode36Wraps(num, alphabet);
    }
    DigitsRecompose(t, s);
    var d0, d1, d2 := t / (s * s), (t / s) % s, t % s;
    assert Encode36(t, alphabet) == [alphabet[d0], alphabet[d1], alphabet[d2]];
    IndexOfDistinct(alphabet, d0);
    IndexOfDistinct(alphabet, d1);
    IndexOfDistinct(alphabet, d2);
  }

  /** The w low bits of v, most significant first. */
  function ToBits(v: nat, w: nat): (b: string)
    ensures |b| == w
  {
    if w == 0 then [] else ToBits(v / 2, w - 1) + [Digit(v % 2)]
  }

  /** The 14 characters of one group. */
  function GroupBits(v: nat): (b: string)
    ensures |b| == 14
  {
    ToBits(v, 14)
  }

  /** ToBits inverts int(b, 2) on '0'/'1' strings ... */
  lemma {:induction false} BitsRoundTrip(b: string)
    requires IsBits(b)
    ensures ToBits(BitsValue(b), |b|) == b
    decreases |b|
  {
    if b != [] {
      var init := b[..|b| - 1];
      assert IsBits(init) by {
        assert forall i :: 0 <= i < |init| ==> init[i] == b[i];
      }
      BitsRoundTrip(init);
      var v := BitsValue(b);
      assert v / 2 == BitsValue(init) && v % 2 == BitValue(b[|b| - 1]);
      assert b == init + [b[|b| - 1]];
    }
  }

  /** ... and int(b, 2) inverts ToBits on the values that fit in w bits. */
  lemma {:induction false} ValueRoundTrip(v: nat, w: nat)
    requires v < Pow2(w)
    ensures IsBits(ToBits(v, w))
    ensures BitsValue(ToBits(v, w)) == v
  {
    if w > 0 {
      ValueRoundTrip(v / 2, w - 1);
      var b := ToBits(v, w);
      assert b[..w - 1] == ToBits(v / 2, w - 1);
      assert b[w - 1] == Digit(v % 2);
    }
  }

  /** The first n triplets of a body back to their 14 characters each, in
      order. */
  function DecodeBody(body: string, alphabet: string, n: nat): (bits: string)
    requires 3 * n <= |body|
    ensures |bits| == 14 * n
  {
    if n == 0 then [] else DecodeBody(body, alphabet, n - 1) + GroupBits(Decode36(body[3 * (n - 1)..3 * n], alphabet))
  }

  lemma OverConcat(a: string, b: string, alphabet: string)
    requires Over(a, alphabet) && Over(b, alphabet)
    ensures Over(a + b, alphabet)
  {
    forall i | 0 <= i < |a + b|
      ensures (a + b)[i] in alphabet
    {
      if i >= |a| {
        assert (a + b)[i] == b[i - |a|];
      } else {
        assert (a + b)[i] == a[i];
      }
    }
  }

  /** Group k of the decoded body comes from triplet k of the body. */
  lemma {:induction false} DecodeBodyGroup(body: string, alphabet: string, n: nat, k: nat)
    requires 3 * n <= |body| && k < n
    ensures DecodeBody(body, alphabet, n)[14 * k..14 * k + 14] == GroupBits(Decode36(body[3 * k..3 * k + 3], alphabet))
  {
    var prev := DecodeBody(body, alphabet, n - 1);
    var last := GroupBits(Decode36(body[3 * (n - 1)..3 * n], alphabet));
    var block := GroupBits(Decode36(body[3 * k..3 * k + 3], alphabet));
    if k < n - 1 {
      DecodeBodyGroup(body, alphabet, n - 1, k);
      assert 14 * k + 14 <= |prev|;
      assert prev[14 * k..14 * k + 14] == block;
      SliceLeft(prev, last, 14 * k, 14 * k + 14);
    } else {
      assert |prev| == 14 * k;
      assert last == block;
      SliceSuffix(prev, last);
    }
  }

  lemma {:induction false} BodyOver(bits: string, alphabet: string, n: nat)
    requires 14 * n <= |bits| && GroupsFit(bits, alphabet, n)
    ensures Over(Body(bits, alphabet, n), alphabet)
  {
    if n > 0 {
      BodyOver(bits, alphabet, n - 1);
      var prev, last := Body(bits, alphabet, n - 1), Encode36(GroupValue(bits, n - 1), alphabet);
      assert Over(last, alphabet);
      OverConcat(prev, last, alphabet);
    }
  }

  /** A string of n blocks of 14 that agree block by block with b is the
      first 14n characters of b. */
  lemma BlocksEqual(a: string, b: string, n: nat)
    requires |a| == 14 * n && 14 * n <= |b|
    requires forall k :: 0 <= k < n ==> a[14 * k..14 * k + 14] == b[14 * k..14 * k + 14]
    ensures a == b[..14 * n]
  {
    forall i | 0 <= i < |a|
      ensures a[i] == b[i]
    {
      var k := i / 14;
      assert a[14 * k..14 * k + 14][i - 14 * k] == b[14 * k..14 * k + 14][i - 14 * k];
    }
  }

  /** One group survives encoding and decoding. */
  lemma GroupRoundTrip(bits: string, alphabet: string, k: nat)
    requires 14 * k + 14 <= |bits| && IsBits(bits)
    requires Encodable(alphabet, GroupValue(bits, k)) && Distinct(alphabet)
    ensures GroupBits(Decode36(Encode36(GroupValue(bits, k), alphabet), alphabet)) == bits[14 * k..14 * k + 14]
  {
    Encode36RoundTrip(GroupValue(bits, k), alphabet);
    var group := bits[14 * k..14 * k + 14];
    assert IsBits(group) by {
      assert forall i :: 0 <= i < |group| ==> group[i] == bits[14 * k + i];
    }
    BitsRoundTrip(group);
    assert GroupBits(BitsValue(group)) == ToBits(BitsValue(group), |group|);
  }

  /** Group k of the decoded body is group k of the list. */
  lemma BodyGroupRoundTrip(bits: string, alphabet: string, n: nat, k: nat)
    requires 14 * n <= |bits| && IsBits(bits) && k < n
    requires GroupsFit(bits, alphabet, n) && Distinct(alphabet)
    ensures DecodeBody(Body(bits, alphabet, n), alphabet, n)[14 * k..14 * k + 14] == bits[14 * k..14 * k + 14]
  {
    var body := Body(bits, alphabet, n);
    DecodeBodyGroup(body, alphabet, n, k);
    BodyTriplet(bits, alphabet, n, k);
    GroupRoundTrip(bits, alphabet, k);
  }

  /** Decoding the body gives back exactly the first 14n characters. */
  lemma BodyRoundTrip(bits: string, alphabet: string, n: nat)
    requires 14 * n <= |bits| && IsBits(bits)
    requires GroupsFit(bits, alphabet, n) && Distinct(alphabet)
    ensures Over(Body(bits, alphabet, n), alphabet)
    ensures DecodeBody(Body(bits, alphabet, n), alphabet, n) == bits[..14 * n]
  {
    BodyOver(bits, alphabet, n);
    var decoded := DecodeBody(Body(bits, alphabet, n), alphabet, n);
    forall k | 0 <= k < n
      ensures decoded[14 * k..14 * k + 14] == bits[14 * k..14 * k + 14]
    {
      BodyGroupRoundTrip(bits, alphabet, n, k);
    }
    BlocksEqual(decoded, bits, n);
  }

  /** The shape of a complete output: 'return"', a header triplet, whole
      triplets, and a closing quote. */
  predicate WellFormed(e: string, alphabet: string)
  {
    |e| >= 11 && (|e| - 11) % 3 == 0 && e[..7] == "return\"" && e[|e| - 1] == '"'
    && Over(e[7..|e| - 1], alphabet)
  }

  /** The number of body triplets of an output. */
  function TripletCount(e: string): nat
    requires |e| >= 11
  {
    (|e| - 11) / 3
  }

  /** What the reference decoder makes of an output: the size factor and
      the character list, or Malformed when the length is not 11 + 3n. */
  datatype Decoded = Decoded(sizeFactor: nat, bits: string) | Malformed

  /** The size factor and the character list an output carries: the header
      triplet after 'return"' and the triplets up to the closing quote. */
  function DecodeOutput(e: string, alphabet: string): (r: Decoded)
    ensures r.Decoded? <==> |e| >= 11 && (|e| - 11) % 3 == 0
    ensures r.Decoded? ==> |r.bits| == 14 * TripletCount(e)
  {
    if |e| >= 11 && (|e| - 11) % 3 == 0 then
      var inner := e[7..|e| - 1];
      Decoded(Decode36(inner[..3], alphabet), DecodeBody(inner[3..], alphabet, TripletCount(e)))
    else
      Malformed
  }

  /** A frame around a header of three symbols and a body of n triplets of
      symbols is well formed. */
  lemma FrameWellFormed(header: string, body: string, alphabet: string, n: nat)
    requires |header| == 3 && |body| == 3 * n
    requires Over(header, alphabet) && Over(body, alphabet)
    ensures WellFormed(Frame(header, body), alphabet)
    ensures TripletCount(Frame(header, body)) == n
  {
    FrameLayout(header, body);
    var e := Frame(header, body);
    DivShift(0, n, 3);
    var inner, middle := e[7..|e| - 1], e[10..10 + |body|];
    assert inner == header + body by {
      assert forall i :: 0 <= i < 3 ==> inner[i] == e[7..10][i];
      assert forall i :: 0 <= i < 3 * n ==> inner[3 + i] == middle[i];
    }
    OverConcat(header, body, alphabet);
  }

  /** Decoding a frame decodes its header and its body. */
  lemma FrameDecodes(header: string, body: string, alphabet: string, n: nat)
    requires |header| == 3 && |body| == 3 * n
    ensures DecodeOutput(Frame(header, body), alphabet) == Decoded(Decode36(header, alphabet), DecodeBody(body, alphabet, n))
  {
    FrameLayout(header, body);
    var e := Frame(header, body);
    DivShift(0, n, 3);
    var inner := e[7..|e| - 1];
    assert inner[..3] == header by {
      assert forall i :: 0 <= i < 3 ==> inner[..3][i] == e[7..10][i];
    }
    assert inner[3..] == body by {
      assert forall i :: 0 <= i < 3 * n ==> inner[3..][i] == e[10..10 + |body|][i];
    }
  }

  /** The output of encode_image is well formed, carries one triplet per
      complete group, and decodes to the size factor (a negative one as
      sizeFactor + s^3) and to the expansion of the bytes up to the last
      complete group. */
  lemma EncodedRoundTrip(sizeFactor: int, bytes: seq<Byte>, sets: Settings)
    requires Encodable(AlphabetOf(sets), sizeFactor) && Distinct(AlphabetOf(sets))
    requires GroupsFit(Bits(bytes), AlphabetOf(sets), GroupCount(Bits(bytes)))
    ensures WellFormed(Encoded(sizeFactor, bytes, sets), AlphabetOf(sets))
    ensures TripletCount(Encoded(sizeFactor, bytes, sets)) == GroupCount(Bits(bytes))
    ensures DecodeOutput(Encoded(sizeFactor, bytes, sets), AlphabetOf(sets))
         == Decoded(if sizeFactor >= 0 then sizeFactor else sizeFactor + Cube(|AlphabetOf(sets)|),
                    Bits(bytes)[..14 * GroupCount(Bits(bytes))])
  {
    var alphabet := AlphabetOf(sets);
    var bits := Bits(bytes);
    var n := GroupCount(bits);
    var header := Encode36(sizeFactor, alphabet);
    var body := Body(bits, alphabet, n);
    Encode36RoundTrip(sizeFactor, alphabet);
    BitsAreBits(bytes);
    BodyRoundTrip(bits, alphabet, n);
    FrameWellFormed(header, body, alphabet, n);
    FrameDecodes(header, body, alphabet, n);
  }

  /** With the default settings, every size factor in [0, 46656) and every
      byte string are recovered from the output: the size factor exactly,
      the bytes' expansion up to the last complete group. */
  lemma DefaultRoundTrip(sizeFactor: int, bytes: seq<Byte>)
    requires 0 <= sizeFactor < 46656
    ensures DecodeOutput(Encoded(sizeFactor, bytes, map[]), AlphabetOf(map[]))
         == Decoded(sizeFactor, Bits(bytes)[..14 * GroupCount(Bits(bytes))])
  {
    DefaultAlphabetSpelled();
    DefaultDistinct();
    DefaultAlphabetFits(bytes);
    EncodedRoundTrip(sizeFactor, bytes, map[]);
  }
}
