/** The encoder of modules/encode.py: base-s triplets over a configurable
    alphabet, the expansion of the image's raw bytes into '0'/'1'
    characters, and the packing of that character list into 14-bit groups,
    each written as one triplet after a header triplet for the size factor. */
module Encode {
  import opened Arith

  /** DEFAULT_ALPHABET: the ten digits, then the 26 lower-case letters
      (DefaultAlphabetSpelled spells it out). */
  function DefaultAlphabet(): (a: string)
    ensures |a| == 36
  {
    seq(36, DefaultSymbol)
  }

  /** The i-th symbol of the default alphabet. */
  function DefaultSymbol(i: int): char
  {
    if 0 <= i < 10 then ('0' as int + i) as char
    else if 10 <= i < 36 then ('a' as int + i - 10) as char
    else '0'
  }

  /** The encoding settings dictionary; only its "alphabet" key is read. */
  type Settings = map<string, string>

  /** One element of what the image's tobytes() yields. */
  type Byte = x: int | 0 <= x < 256

  /** sets.get("alphabet", DEFAULT_ALPHABET) */
  function AlphabetOf(sets: Settings): (a: string)
    ensures "alphabet" in sets ==> a == sets["alphabet"]
    ensures "alphabet" !in sets ==> |a| == 36 && a[0] == '0' && a[35] == 'z'
  {
    if "alphabet" in sets then sets["alphabet"] else DefaultAlphabet()
  }

  /** The inputs for which encode_36 raises no exception: a non-empty
      alphabet (else s ** 2 == 0 divides by zero) and a leading digit that
      Python can index with, possibly from the end. */
  predicate Encodable(alphabet: string, num: int)
  {
    |alphabet| > 0 && -Cube(|alphabet|) <= num < Cube(|alphabet|)
  }

  /** Python's alphabet[i], where a negative i counts from the end. */
  function PyIndex(alphabet: string, i: int): (c: char)
    requires -|alphabet| <= i < |alphabet|
    ensures c == alphabet[i % |alphabet|]
  {
    if i >= 0 then alphabet[i] else alphabet[|alphabet| + i]
  }

  /** encode_36: three symbols, most significant first. It is given the
      alphabet its callers' settings select (AlphabetOf). Python's // and %
      with the positive divisors s ** 2 and s agree with Dafny's. */
  function Encode36(num: int, alphabet: string): (r: string)
    requires Encodable(alphabet, num)
    ensures |r| == 3
    ensures forall i :: 0 <= i < 3 ==> r[i] in alphabet
  {
    var s := |alphabet|;
    LeadingDigitBounds(num, s);
    [PyIndex(alphabet, num / (s * s)), PyIndex(alphabet, (num / s) % s), PyIndex(alphabet, num % s)]
  }

  /** A negative number is written as the triplet of num + s^3. */
  lemma Encode36Wraps(num: int, alphabet: string)
    requires Encodable(alphabet, num) && num < 0
    ensures Encodable(alphabet, num + Cube(|alphabet|))
    ensures Encode36(num, alphabet) == Encode36(num + Cube(|alphabet|), alphabet)
  {
    var s := |alphabet|;
    var t := num + Cube(s);
    LeadingDigitBounds(num, s);
    assert num == (num / (s * s)) * (s * s) + num % (s * s);
    assert num / (s * s) < 0;
    assert Cube(s) == s * (s * s);
    DivShift(num, s, s * s);
    assert t / (s * s) == num / (s * s) + s;
    assert PyIndex(alphabet, t / (s * s)) == PyIndex(alphabet, num / (s * s));
    assert Cube(s) == (s * s) * s;
    DivShift(num, s * s, s);
    assert t / s == num / s + s * s && t % s == num % s;
    DivShift(num / s, s, s);
    assert (t / s) % s == (num / s) % s;
  }

  /** Encodable is exactly the condition under which the leading index
      num // s^2 lies in [-s, s), the indices Python accepts: it asks no
      more of encode_36's callers than the source does. */
  lemma EncodableExact(alphabet: string, num: int)
    requires |alphabet| > 0
    ensures Encodable(alphabet, num) <==> -|alphabet| <= num / (|alphabet| * |alphabet|) < |alphabet|
  {
    if Encodable(alphabet, num) {
      LeadingDigitBounds(num, |alphabet|);
    } else {
      LeadingDigitOutside(num, |alphabet|);
    }
  }

  lemma DefaultAlphabetSpelled()
    ensures DefaultAlphabet() == "0123456789abcdefghijklmnopqrstuvwxyz"
    ensures |DefaultAlphabet()| == 36 && Cube(36) == 46656
  {
  }

  lemma SliceLeft(a: string, b: string, i: nat, j: nat)
    requires i <= j <= |a|
    ensures (a + b)[i..j] == a[i..j]
  {
  }

  lemma SliceRight(a: string, b: string, i: nat, j: nat)
    requires |a| <= i <= j <= |a| + |b|
    ensures (a + b)[i..j] == b[i - |a|..j - |a|]
  {
  }

  lemma SliceSuffix(a: string, b: string)
    ensures (a + b)[|a|..|a| + |b|] == b
  {
  }

  lemma AppendAssoc(a: string, b: string, c: string)
    ensures (a + b) + c == a + (b + c)
  {
  }

  lemma DropTake(a: string, i: nat, n: nat)
    requires i + n <= |a|
    ensures a[i..][..n] == a[i..i + n] && a[i..][n..] == a[i + n..]
  {
  }

  // ---------------------------------------------------------------------
  // Bytes to '0'/'1' characters

  predicate IsBits(b: string)
  {
    forall i :: 0 <= i < |b| ==> b[i] == '0' || b[i] == '1'
  }

  function Digit(d: nat): char
    requires d < 2
  {
    if d == 0 then '0' else '1'
  }

  function BitValue(c: char): nat
  {
    if c == '1' then 1 else 0
  }

  /** int(b, base=2), big-endian; only ever applied to '0'/'1' strings. */
  function BitsValue(b: string): (v: nat)
    ensures v < Pow2(|b|)
    decreases |b|
  {
    if b == [] then 0 else 2 * BitsValue(b[..|b| - 1]) + BitValue(b[|b| - 1])
  }

  /** bin(x)[2:]: the binary digits of x without leading zeros ("0" for 0). */
  function Binary(x: nat): (b: string)
    ensures |b| >= 1
    decreases x
  {
    if x < 2 then [Digit(x)] else Binary(x / 2) + [Digit(x % 2)]
  }

  /** bin really writes x in base 2: '0'/'1' digits whose value is x, with
      a leading '1' (so no leading zero) unless x == 0. */
  lemma {:induction false} BinaryValue(x: nat)
    ensures IsBits(Binary(x))
    ensures BitsValue(Binary(x)) == x
    ensures x >= 1 ==> Binary(x)[0] == '1' && Pow2(|Binary(x)| - 1) <= x
    decreases x
  {
    if x >= 2 {
      BinaryValue(x / 2);
      var b := Binary(x / 2);
      var t := b + [Digit(x % 2)];
      assert Binary(x) == t;
      assert t[..|t| - 1] == b;
      assert t[0] == b[0];
    }
  }

  lemma BinaryOfByte(x: Byte)
    ensures |Binary(x)| <= 8
  {
    BinaryValue(x);
    if x >= 1 {
      assert Pow2(8) == 256;
      Pow2Below(|Binary(x)| - 1, 8);
    }
  }

  lemma BinaryDouble(x: nat)
    requires x >= 1
    ensures Binary(2 * x) == Binary(x) + ['0']
  {
    assert 2 * x >= 2 && (2 * x) / 2 == x && (2 * x) % 2 == 0;
  }

  /** n copies of c. */
  function Repeat(c: char, n: nat): (r: string)
    ensures |r| == n
    ensures forall i :: 0 <= i < n ==> r[i] == c
  {
    seq(n, _ => c)
  }

  /** str.ljust(width, c): pad on the right to at least width characters. */
  function LJust(s: string, width: nat, c: char): (r: string)
    ensures |r| == if |s| >= width then |s| else width
    ensures r[..|s|] == s
    ensures forall i :: |s| <= i < |r| ==> r[i] == c
  {
    if |s| >= width then s else s + Repeat(c, width - |s|)
  }

  /** v << k. */
  function ShiftLeft(v: nat, k: nat): nat
  {
    if k == 0 then v else 2 * ShiftLeft(v, k - 1)
  }

  /** Appending k zero characters shifts the value left by k. */
  lemma {:induction false} ShiftValue(b: string, k: nat)
    ensures BitsValue(b + Repeat('0', k)) == ShiftLeft(BitsValue(b), k)
  {
    if k > 0 {
      ShiftValue(b, k - 1);
      var t := b + Repeat('0', k);
      assert t[..|t| - 1] == b + Repeat('0', k - 1);
      assert t[|t| - 1] == '0';
    } else {
      assert b + Repeat('0', 0) == b;
    }
  }

  /** str(bin(x))[2:].ljust(8, "0"): the digits of x padded with zeros on
      the RIGHT, so the result reads as x shifted left until its top bit
      sits in bit 7 (and as eight zeros for x == 0). */
  function ByteBits(x: Byte): (r: string)
    ensures |r| == 8
  {
    BinaryOfByte(x);
    LJust(Binary(x), 8, '0')
  }

  /** The expansion of a byte: eight '0'/'1' characters, all zeros for
      x == 0 and starting with '1' otherwise. */
  lemma ByteBitsShape(x: Byte)
    ensures IsBits(ByteBits(x))
    ensures x == 0 ==> ByteBits(x) == Repeat('0', 8)
    ensures x >= 1 ==> ByteBits(x)[0] == '1'
  {
    BinaryOfByte(x);
    var b := Binary(x);
    BinaryValue(x);
    assert ByteBits(x) == b + Repeat('0', 8 - |b|);
    assert x == 0 ==> b == "0";
  }

  /** What the expansion of a byte means: its big-endian value is
      x << (8 - bitlen(x)). */
  lemma ByteBitsValue(x: Byte)
    ensures BitsValue(ByteBits(x)) == ShiftLeft(x, 8 - |Binary(x)|)
  {
    BinaryOfByte(x);
    var b := Binary(x);
    BinaryValue(x);
    assert ByteBits(x) == b + Repeat('0', 8 - |b|);
    ShiftValue(b, 8 - |b|);
  }

  /** The right-padding loses information: doubling a byte below 128 does
      not change its expansion. */
  lemma ByteBitsDoubling(x: Byte)
    requires 1 <= x < 128
    ensures ByteBits(2 * x) == ByteBits(x)
  {
    var b := Binary(x);
    BinaryDouble(x);
    BinaryOfByte(2 * x);
    assert (b + ['0']) + Repeat('0', 8 - |b| - 1) == b + Repeat('0', 8 - |b|);
  }

  /** All eight one-bit bytes 1, 2, 4, ..., 128 expand to "10000000". */
  lemma {:induction false} PowerOfTwoBytes(k: nat)
    requires k < 8
    ensures Pow2(k) < 256 && ByteBits(Pow2(k)) == "10000000"
  {
    if k == 0 {
      assert Binary(Pow2(k)) == "1";
    } else {
      PowerOfTwoBytes(k - 1);
      Pow2Monotone(k - 1, 6);
      assert Pow2(6) == 64;
      ByteBitsDoubling(Pow2(k - 1));
    }
  }

  /** The concatenation of the expansions of all bytes, in byte order. */
  function Bits(bytes: seq<Byte>): (r: string)
    ensures |r| == 8 * |bytes|
  {
    if bytes == [] then [] else Bits(bytes[..|bytes| - 1]) + ByteBits(bytes[|bytes| - 1])
  }

  lemma {:induction false} BitsAppend(a: seq<Byte>, b: seq<Byte>)
    ensures Bits(a + b) == Bits(a) + Bits(b)
    decreases |b|
  {
    if b == [] {
      assert a + b == a;
    } else {
      var n := |b| - 1;
      assert (a + b)[..|a + b| - 1] == a + b[..n];
      BitsAppend(a, b[..n]);
    }
  }

  /** Byte j contributes exactly the characters [8j, 8j + 8). */
  lemma {:induction false} BitsByteOrder(bytes: seq<Byte>, j: nat)
    requires j < |bytes|
    ensures Bits(bytes)[8 * j..8 * j + 8] == ByteBits(bytes[j])
  {
    var init := bytes[..|bytes| - 1];
    var last := ByteBits(bytes[|bytes| - 1]);
    assert Bits(bytes) == Bits(init) + last;
    if j < |bytes| - 1 {
      BitsByteOrder(init, j);
      SliceLeft(Bits(init), last, 8 * j, 8 * j + 8);
    } else {
      SliceRight(Bits(init), last, 8 * j, 8 * j + 8);
      assert last[0..8] == last;
    }
  }

  lemma {:induction false} BitsAreBits(bytes: seq<Byte>)
    ensures IsBits(Bits(bytes))
  {
    if bytes != [] {
      var init := bytes[..|bytes| - 1];
      BitsAreBits(init);
      ByteBitsShape(bytes[|bytes| - 1]);
      var b, last := Bits(init), ByteBits(bytes[|bytes| - 1]);
      assert Bits(bytes) == b + last;
      forall i | 0 <= i < |b + last|
        ensures (b + last)[i] == '0' || (b + last)[i] == '1'
      {
        if i >= |b| {
          assert (b + last)[i] == last[i - |b|];
        }
      }
    }
  }

  // ---------------------------------------------------------------------
  // 14-bit groups and the output

  /** The number of complete 14-character groups. */
  function GroupCount(bits: string): (n: nat)
    ensures 14 * n <= |bits| < 14 * n + 14
  {
    |bits| / 14
  }

  /** The big-endian value of characters [14k, 14k + 14). */
  function GroupValue(bits: string, k: nat): (v: nat)
    requires 14 * k + 14 <= |bits|
    ensures v < 16384
  {
    assert Pow2(14) == 16384;
    BitsValue(bits[14 * k..14 * k + 14])
  }

  /** Every one of the first n groups can be written with the alphabet. */
  predicate GroupsFit(bits: string, alphabet: string, n: nat)
    requires 14 * n <= |bits|
  {
    forall k :: 0 <= k < n ==> Encodable(alphabet, GroupValue(bits, k))
  }

  /** The triplets of the first n groups, in group order. */
  function Body(bits: string, alphabet: string, n: nat): (r: string)
    requires 14 * n <= |bits| && GroupsFit(bits, alphabet, n)
    ensures |r| == 3 * n
  {
    if n == 0 then [] else Body(bits, alphabet, n - 1) + Encode36(GroupValue(bits, n - 1), alphabet)
  }

  /** The Lua statement the output is: 'return"', the header, the body and
      a closing quote. */
  function Frame(header: string, body: string): (r: string)
    ensures |r| == 8 + |header| + |body|
    ensures r[..7] == "return\"" && r[|r| - 1] == '"'
  {
    "return\"" + header + body + "\""
  }

  /** Where the pieces sit in a frame with a three-character header. */
  lemma FrameLayout(header: string, body: string)
    requires |header| == 3
    ensures |Frame(header, body)| == 11 + |body|
    ensures Frame(header, body)[..7] == "return\""
    ensures Frame(header, body)[7..10] == header
    ensures Frame(header, body)[10..10 + |body|] == body
    ensures Frame(header, body)[10 + |body|] == '"'
  {
    var e := Frame(header, body);
    assert e == "return\"" + (header + (body + "\""));
    SliceRight("return\"", header + (body + "\""), 7, 10);
    SliceLeft(header, body + "\"", 0, 3);
    SliceRight("return\"", header + (body + "\""), 10, 10 + |body|);
    SliceRight(header, body + "\"", 3, 3 + |body|);
    SliceLeft(body, "\"", 0, |body|);
  }

  lemma FrameSlice(header: string, body: string, i: nat, j: nat)
    requires |header| == 3 && i <= j <= |body|
    ensures Frame(header, body)[10 + i..10 + j] == body[i..j]
  {
    FrameLayout(header, body);
    var e := Frame(header, body);
    assert e[10 + i..10 + j] == e[10..10 + |body|][i..j];
  }

  /** What encode_image returns for the raw bytes of an image. */
  function Encoded(sizeFactor: int, bytes: seq<Byte>, sets: Settings): string
    requires Encodable(AlphabetOf(sets), sizeFactor)
    requires GroupsFit(Bits(bytes), AlphabetOf(sets), GroupCount(Bits(bytes)))
  {
    Frame(Encode36(sizeFactor, AlphabetOf(sets)), Body(Bits(bytes), AlphabetOf(sets), GroupCount(Bits(bytes))))
  }

  /** encode_image, over the bytes of image.tobytes(). */
  method EncodeImage(sizeFactor: int, bytes: seq<Byte>, sets: Settings) returns (r: string)
    requires Encodable(AlphabetOf(sets), sizeFactor)
    requires GroupsFit(Bits(bytes), AlphabetOf(sets), GroupCount(Bits(bytes)))
    ensures r == Encoded(sizeFactor, bytes, sets)
  {
    var encodedSize := Encode36(sizeFactor, AlphabetOf(sets));
    var individualBytes := ExpandBytes(bytes);
    var encoded := EncodeGroups(encodedSize, individualBytes, sets);
    r := "return\"" + encoded + "\"";
  }

  /** The expansion step of encode_image: the list comprehension over the
      bytes and the loop that concatenates the 8-character strings. */
  method ExpandBytes(bytes: seq<Byte>) returns (individualBytes: string)
    ensures individualBytes == Bits(bytes)
  {
    var imageBytes := seq(|bytes|, i requires 0 <= i < |bytes| => ByteBits(bytes[i]));
    individualBytes := [];
    for i := 0 to |imageBytes|
      invariant individualBytes == Bits(bytes[..i])
    {
      assert Bits(bytes[..i + 1]) == Bits(bytes[..i]) + imageBytes[i] by {
        assert bytes[..i + 1][..i] == bytes[..i];
      }
      individualBytes := individualBytes + imageBytes[i];
    }
    assert bytes[..|bytes|] == bytes;
  }

  /** Groups that fit for n groups fit for any fewer. */
  lemma GroupsFitPrefix(bits: string, alphabet: string, n: nat, m: nat)
    requires m <= n && 14 * n <= |bits| && GroupsFit(bits, alphabet, n)
    ensures GroupsFit(bits, alphabet, m)
  {
  }

  /** What is left after i groups starts with group i, and one more group
      appends its triplet to the body. */
  lemma BodyStep(bits: string, alphabet: string, i: nat, rest: string)
    requires 14 * i + 14 <= |bits| && GroupsFit(bits, alphabet, i + 1) && rest == bits[14 * i..]
    ensures BitsValue(rest[..14]) == GroupValue(bits, i)
    ensures GroupsFit(bits, alphabet, i)
    ensures Body(bits, alphabet, i + 1) == Body(bits, alphabet, i) + Encode36(GroupValue(bits, i), alphabet)
  {
    DropTake(bits, 14 * i, 14);
  }

  /** The packing loop of encode_image: it consumes the character list 14 at
      a time and appends one triplet per group to what is already there. */
  method EncodeGroups(encodedSize: string, individualBytes: string, sets: Settings) returns (encoded: string)
    requires GroupsFit(individualBytes, AlphabetOf(sets), GroupCount(individualBytes))
    ensures encoded == encodedSize + Body(individualBytes, AlphabetOf(sets), GroupCount(individualBytes))
  {
    var rest := individualBytes;
    encoded := encodedSize;
    for i := 0 to GroupCount(rest)
      invariant 14 * i <= |individualBytes|
      invariant rest == individualBytes[14 * i..]
      invariant encoded == encodedSize + Body(individualBytes, AlphabetOf(sets), i)
    {
      GroupsFitPrefix(individualBytes, AlphabetOf(sets), GroupCount(individualBytes), i + 1);
      BodyStep(individualBytes, AlphabetOf(sets), i, rest);
      var triplet := Encode36(GroupValue(individualBytes, i), AlphabetOf(sets));
      AppendAssoc(encodedSize, Body(individualBytes, AlphabetOf(sets), i), triplet);
      encoded := encoded + Encode36(BitsValue(rest[..14]), AlphabetOf(sets));
      rest := rest[14..];
    }
  }

  // ---------------------------------------------------------------------
  // Properties of the output

  lemma {:induction false} BodyTriplet(bits: string, alphabet: string, n: nat, k: nat)
    requires 14 * n <= |bits| && GroupsFit(bits, alphabet, n)
    requires k < n
    ensures Body(bits, alphabet, n)[3 * k..3 * k + 3] == Encode36(GroupValue(bits, k), alphabet)
  {
    var prev := Body(bits, alphabet, n - 1);
    var last := Encode36(GroupValue(bits, n - 1), alphabet);
    if k < n - 1 {
      BodyTriplet(bits, alphabet, n - 1, k);
      SliceLeft(prev, last, 3 * k, 3 * k + 3);
    } else {
      SliceSuffix(prev, last);
    }
  }

  /** Group k is read from characters 14k to 14k + 14 only, so two lists
      that agree on their first 14n characters have the same first n groups. */
  lemma GroupsOfPrefix(bits: string, other: string, n: nat)
    requires 14 * n <= |bits| && 14 * n <= |other| && bits[..14 * n] == other[..14 * n]
    ensures forall k :: 0 <= k < n ==> GroupValue(other, k) == GroupValue(bits, k)
  {
    forall k | 0 <= k < n
      ensures GroupValue(other, k) == GroupValue(bits, k)
    {
      assert bits[14 * k..14 * k + 14] == bits[..14 * n][14 * k..14 * k + 14];
      assert other[14 * k..14 * k + 14] == other[..14 * n][14 * k..14 * k + 14];
    }
  }

  /** Body(.., n) reads only the first 14n characters: two character lists
      that agree there give the same triplets. */
  lemma {:induction false} BodyOfPrefix(bits: string, other: string, alphabet: string, n: nat)
    requires 14 * n <= |bits| && 14 * n <= |other| && bits[..14 * n] == other[..14 * n]
    requires GroupsFit(bits, alphabet, n)
    ensures GroupsFit(other, alphabet, n)
    ensures Body(bits, alphabet, n) == Body(other, alphabet, n)
    decreases n
  {
    GroupsOfPrefix(bits, other, n);
    if n > 0 {
      assert bits[..14 * (n - 1)] == bits[..14 * n][..14 * (n - 1)];
      assert other[..14 * (n - 1)] == other[..14 * n][..14 * (n - 1)];
      BodyOfPrefix(bits, other, alphabet, n - 1);
    }
  }

  /** The frame of the output: the 7-character prefix 'return"', the
      header triplet, a body of one triplet per complete group, and the
      closing quote; the (8 * |bytes|) % 14 trailing characters beyond the
      last complete group get no triplet. */
  lemma EncodedShape(sizeFactor: int, bytes: seq<Byte>, sets: Settings)
    requires Encodable(AlphabetOf(sets), sizeFactor)
    requires GroupsFit(Bits(bytes), AlphabetOf(sets), GroupCount(Bits(bytes)))
    ensures GroupCount(Bits(bytes)) == (8 * |bytes|) / 14
    ensures |Bits(bytes)| - 14 * GroupCount(Bits(bytes)) == (8 * |bytes|) % 14
    ensures |Encoded(sizeFactor, bytes, sets)| == 11 + 3 * ((8 * |bytes|) / 14)
    ensures Encoded(sizeFactor, bytes, sets)[..7] == "return\""
    ensures Encoded(sizeFactor, bytes, sets)[7..10] == Encode36(sizeFactor, AlphabetOf(sets))
    ensures Encoded(sizeFactor, bytes, sets)[|Encoded(sizeFactor, bytes, sets)| - 1] == '"'
  {
    FrameLayout(Encode36(sizeFactor, AlphabetOf(sets)), Body(Bits(bytes), AlphabetOf(sets), GroupCount(Bits(bytes))));
  }

  /** Body triplet k of the output, at [10 + 3k, 13 + 3k), encodes group k:
      the groups are consecutive, do not overlap and keep their order. */
  lemma EncodedTriplet(sizeFactor: int, bytes: seq<Byte>, sets: Settings, k: nat)
    requires Encodable(AlphabetOf(sets), sizeFactor)
    requires GroupsFit(Bits(bytes), AlphabetOf(sets), GroupCount(Bits(bytes)))
    requires k < GroupCount(Bits(bytes))
    ensures Encoded(sizeFactor, bytes, sets)[10 + 3 * k..13 + 3 * k] == Encode36(GroupValue(Bits(bytes), k), AlphabetOf(sets))
  {
    var alphabet, bits := AlphabetOf(sets), Bits(bytes);
    var n := GroupCount(bits);
    var header, body := Encode36(sizeFactor, alphabet), Body(bits, alphabet, n);
    assert Encoded(sizeFactor, bytes, sets) == Frame(header, body);
    BodyTriplet(bits, alphabet, n, k);
    FrameSlice(header, body, 3 * k, 3 * k + 3);
  }

  /** The trailing characters beyond the last complete group are dropped:
      two byte strings of one length whose expansions agree on the complete
      groups encode identically. */
  lemma EncodedDropsTail(sizeFactor: int, bytes: seq<Byte>, other: seq<Byte>, sets: Settings)
    requires Encodable(AlphabetOf(sets), sizeFactor)
    requires GroupsFit(Bits(bytes), AlphabetOf(sets), GroupCount(Bits(bytes)))
    requires |other| == |bytes|
    requires Bits(bytes)[..14 * GroupCount(Bits(bytes))] == Bits(other)[..14 * GroupCount(Bits(bytes))]
    ensures GroupsFit(Bits(other), AlphabetOf(sets), GroupCount(Bits(other)))
    ensures Encoded(sizeFactor, bytes, sets) == Encoded(sizeFactor, other, sets)
  {
    BodyOfPrefix(Bits(bytes), Bits(other), AlphabetOf(sets), GroupCount(Bits(bytes)));
  }

  /** Every group fits an alphabet of at least 26 symbols (26^3 = 17576 >
      16383), in particular the default one. */
  lemma WideAlphabetFits(bits: string, sets: Settings)
    requires |AlphabetOf(sets)| >= 26
    ensures GroupsFit(bits, AlphabetOf(sets), GroupCount(bits))
  {
    CubeMonotone(26, |AlphabetOf(sets)|);
    assert Cube(26) == 17576;
  }

  lemma DefaultAlphabetFits(bytes: seq<Byte>)
    ensures GroupsFit(Bits(bytes), AlphabetOf(map[]), GroupCount(Bits(bytes)))
  {
    WideAlphabetFits(Bits(bytes), map[]);
  }

  /** 26 is the least size that works for every image: with at most 25
      symbols, the two bytes of one all-ON row of 14 pixels, 255 and 252,
      make the group value 16383, whose leading digit is out of range. */
  lemma NarrowAlphabetFails(sets: Settings, row: seq<Byte>)
    requires |AlphabetOf(sets)| <= 25 && row == [255, 252]
    ensures GroupCount(Bits(row)) == 1
    ensures !GroupsFit(Bits(row), AlphabetOf(sets), 1)
  {
    AllOnRow(row);
    CubeMonotone(|AlphabetOf(sets)|, 25);
    assert Cube(25) == 15625;
  }

  /** k ones are the binary form of 2^k - 1. */
  lemma {:induction false} OnesValue(k: nat)
    requires k >= 1
    ensures BitsValue(Repeat('1', k)) == Pow2(k) - 1
    ensures Binary(Pow2(k) - 1) == Repeat('1', k)
  {
    if k > 1 {
      OnesValue(k - 1);
      assert Repeat('1', k)[..k - 1] == Repeat('1', k - 1);
      assert (Pow2(k) - 1) / 2 == Pow2(k - 1) - 1;
      assert Repeat('1', k - 1) + [Digit(1)] == Repeat('1', k);
    } else {
      assert Repeat('1', 1)[..0] == [];
    }
  }

  /** The byte of eight ON pixels expands to eight '1'. */
  lemma FullByteBits(x: Byte)
    requires x == 255
    ensures ByteBits(x) == Repeat('1', 8)
  {
    OnesValue(8);
    assert Pow2(8) == 256;
  }

  /** The last byte of a 14-pixel all-ON row holds six ON pixels and two
      padding bits, and expands to six '1' and two '0'. */
  lemma TailByteBits(x: Byte)
    requires x == 252
    ensures ByteBits(x) == Repeat('1', 6) + Repeat('0', 2)
  {
    OnesValue(6);
    assert Pow2(6) == 64;
    var quarter := Pow2(6) - 1;
    BinaryDouble(quarter);
    BinaryDouble(2 * quarter);
    assert x == 2 * (2 * quarter);
  }

  /** One all-ON row of 14 pixels, as tobytes() packs it into two bytes.
      (The row is a parameter so that the proof reasons about it step by
      step instead of evaluating the functions on literals.) */
  lemma AllOnRow(row: seq<Byte>)
    requires row == [255, 252]
    ensures Bits(row) == Repeat('1', 14) + Repeat('0', 2)
    ensures GroupValue(Bits(row), 0) == 16383
  {
    var hi, lo := row[0], row[1];
    FullByteBits(hi);
    TailByteBits(lo);
    assert row[..1] == [hi] && [hi][..0] == [];
    assert Bits([hi]) == Repeat('1', 8);
    assert Bits(row) == Repeat('1', 8) + (Repeat('1', 6) + Repeat('0', 2));
    assert Repeat('1', 8) + (Repeat('1', 6) + Repeat('0', 2)) == Repeat('1', 14) + Repeat('0', 2);
    assert (Repeat('1', 14) + Repeat('0', 2))[0..14] == Repeat('1', 14);
    OnesValue(14);
    assert Pow2(14) == 16384;
  }

  /** The default triplet of num: the symbols of its three base-36 digits. */
  lemma DefaultTriplet(num: int)
    requires 0 <= num < 46656
    ensures Encodable(DefaultAlphabet(), num)
    ensures Encode36(num, DefaultAlphabet()) == [DefaultSymbol(num / 1296), DefaultSymbol((num / 36) % 36), DefaultSymbol(num % 36)]
  {
    assert Cube(36) == 46656 && 36 * 36 == 1296;
    LeadingDigitBounds(num, 36);
  }

  /** encode_36 with the default alphabet maps 0 to "000" and the largest
      three-digit value 46655 to "zzz". */
  lemma DefaultExtremes()
    ensures Encodable(DefaultAlphabet(), 0) && Encodable(DefaultAlphabet(), 46655)
    ensures Encode36(0, DefaultAlphabet()) == "000"
    ensures Encode36(46655, DefaultAlphabet()) == "zzz"
  {
    DefaultTriplet(0);
    DefaultTriplet(46655);
  }

  /** The whole output for that row with size factor 10 and the default
      alphabet: header "00a", then 16383 = 12 * 36^2 + 23 * 36 + 3 as "cn3". */
  lemma AllOnRowEncoded(sizeFactor: int, row: seq<Byte>)
    requires sizeFactor == 10 && row == [255, 252]
    ensures GroupsFit(Bits(row), AlphabetOf(map[]), GroupCount(Bits(row)))
    ensures Encoded(sizeFactor, row, map[]) == "return\"00acn3\""
  {
    DefaultAlphabetFits(row);
    AllOnRow(row);
    assert AlphabetOf(map[]) == DefaultAlphabet();
    DefaultTriplet(sizeFactor);
    var header := Encode36(sizeFactor, DefaultAlphabet());
    assert header == "00a" by {
      assert sizeFactor / 1296 == 0 && (sizeFactor / 36) % 36 == 0 && sizeFactor % 36 == 10;
      assert DefaultSymbol(0) == '0' && DefaultSymbol(10) == 'a';
    }
    var v := GroupValue(Bits(row), 0);
    DefaultTriplet(v);
    var group := Encode36(v, DefaultAlphabet());
    assert group == "cn3" by {
      assert v / 1296 == 12 && (v / 36) % 36 == 23 && v % 36 == 3;
      assert DefaultSymbol(12) == 'c' && DefaultSymbol(23) == 'n' && DefaultSymbol(3) == '3';
    }
    assert Body(Bits(row), DefaultAlphabet(), 1) == group;
    assert Encoded(sizeFactor, row, map[]) == "return\"" + header + group + "\"";
  }
}
