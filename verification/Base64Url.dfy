/** The base64url alphabet of section 5 of RFC 4648, without padding (section 3.2), and big-endian
    integers: the text form of a service token. */
module Base64Url {
  import opened Common

  type Byte = b: int | 0 <= b < 256

  type Sextet = x: int | 0 <= x < 64

  function CharOf(x: Sextet): char {
    if x < 26 then ('A' as int + x) as char
    else if x < 52 then ('a' as int + x - 26) as char
    else if x < 62 then ('0' as int + x - 52) as char
    else if x == 62 then '-'
    else '_'
  }

  function SextetOf(c: char): Option<Sextet> {
    if 'A' <= c <= 'Z' then Some(c as int - 'A' as int)
    else if 'a' <= c <= 'z' then Some(c as int - 'a' as int + 26)
    else if '0' <= c <= '9' then Some(c as int - '0' as int + 52)
    else if c == '-' then Some(62)
    else if c == '_' then Some(63)
    else None
  }

  lemma AlphabetRoundTrip(x: Sextet, c: char)
    ensures SextetOf(CharOf(x)) == Some(x)
    ensures SextetOf(c).Some? ==> CharOf(SextetOf(c).value) == c
    ensures CharOf(x) != '\n' && CharOf(x) != '\r'
  {
  }

  // ----- bytes and sextets -----

  /** The four sextets of three bytes; a byte that is missing at the end counts as 0. */
  function Sextet1(a: int): Sextet
    requires 0 <= a < 256
  {
    a / 4
  }

  function Sextet2(a: int, b: int): Sextet
    requires 0 <= a < 256 && 0 <= b < 256
  {
    a % 4 * 16 + b / 16
  }

  function Sextet3(b: int, c: int): Sextet
    requires 0 <= b < 256 && 0 <= c < 256
  {
    b % 16 * 4 + c / 64
  }

  function Sextet4(c: int): Sextet
    requires 0 <= c < 256
  {
    c % 64
  }

  /** The three bytes of four sextets. */
  function Byte1(w: int, x: int): Byte
    requires 0 <= w < 64 && 0 <= x < 64
  {
    w * 4 + x / 16
  }

  function Byte2(x: int, y: int): Byte
    requires 0 <= x < 64 && 0 <= y < 64
  {
    x % 16 * 16 + y / 4
  }

  function Byte3(y: int, z: int): Byte
    requires 0 <= y < 64 && 0 <= z < 64
  {
    y % 4 * 64 + z
  }

  lemma GroupRoundTrip(a: Byte, b: Byte, c: Byte)
    ensures Byte1(Sextet1(a), Sextet2(a, b)) == a
    ensures Byte2(Sextet2(a, b), Sextet3(b, c)) == b
    ensures Byte3(Sextet3(b, c), Sextet4(c)) == c
  {
  }

  lemma GroupRoundTripBack(w: Sextet, x: Sextet, y: Sextet, z: Sextet)
    ensures Sextet1(Byte1(w, x)) == w
    ensures Sextet2(Byte1(w, x), Byte2(x, y)) == x
    ensures Sextet3(Byte2(x, y), Byte3(y, z)) == y
    ensures Sextet4(Byte3(y, z)) == z
    ensures Sextet2(Byte1(w, x), 0) == x <==> x % 16 == 0
    ensures Sextet3(Byte2(x, y), 0) == y <==> y % 4 == 0
  {
  }

  function Sextets(bytes: seq<Byte>): seq<Sextet>
    decreases |bytes|
  {
    if bytes == [] then []
    else if |bytes| == 1 then [Sextet1(bytes[0]), Sextet2(bytes[0], 0)]
    else if |bytes| == 2 then [Sextet1(bytes[0]), Sextet2(bytes[0], bytes[1]), Sextet3(bytes[1], 0)]
    else [Sextet1(bytes[0]), Sextet2(bytes[0], bytes[1]), Sextet3(bytes[1], bytes[2]), Sextet4(bytes[2])]
         + Sextets(bytes[3..])
  }

  /** A single left-over sextet is an error; the spare low bits of the last one are ignored. */
  function Bytes(xs: seq<Sextet>): Option<seq<Byte>>
    decreases |xs|
  {
    if xs == [] then Some([])
    else if |xs| == 1 then None
    else if |xs| == 2 then Some([Byte1(xs[0], xs[1])])
    else if |xs| == 3 then Some([Byte1(xs[0], xs[1]), Byte2(xs[1], xs[2])])
    else
      var rest := Bytes(xs[4..]);
      if rest.None? then None
      else Some([Byte1(xs[0], xs[1]), Byte2(xs[1], xs[2]), Byte3(xs[2], xs[3])] + rest.value)
  }

  lemma BytesOfFewSextets(w: Sextet, x: Sextet, y: Sextet)
    ensures Bytes([w, x]) == Some([Byte1(w, x)])
    ensures Bytes([w, x, y]) == Some([Byte1(w, x), Byte2(x, y)])
  {
  }

  lemma Single<T>(s: seq<T>)
    requires |s| == 1
    ensures s == [s[0]]
  {
  }

  lemma BytesOfOne(bytes: seq<Byte>)
    requires |bytes| == 1
    ensures Bytes(Sextets(bytes)) == Some(bytes)
  {
    Single(bytes);
    BytesOfFewSextets(Sextet1(bytes[0]), Sextet2(bytes[0], 0), 0);
    GroupRoundTrip(bytes[0], 0, 0);
  }

  lemma BytesOfTwo(a: Byte, b: Byte)
    ensures Bytes(Sextets([a, b])) == Some([a, b])
  {
    GroupRoundTrip(a, b, 0);
    BytesOfFewSextets(Sextet1(a), Sextet2(a, b), Sextet3(b, 0));
    assert Sextets([a, b]) == [Sextet1(a), Sextet2(a, b), Sextet3(b, 0)];
  }

  lemma {:induction false} BytesOfSextets(bytes: seq<Byte>)
    ensures Bytes(Sextets(bytes)) == Some(bytes)
    decreases |bytes|
  {
    if |bytes| == 1 {
      BytesOfOne(bytes);
    } else if |bytes| == 2 {
      BytesOfTwo(bytes[0], bytes[1]);
      assert bytes == [bytes[0], bytes[1]];
    } else if |bytes| >= 3 {
      GroupRoundTrip(bytes[0], bytes[1], bytes[2]);
      BytesOfSextets(bytes[3..]);
      assert Sextets(bytes)[4..] == Sextets(bytes[3..]);
      assert bytes == [bytes[0], bytes[1], bytes[2]] + bytes[3..];
    }
  }

  lemma {:induction false} SextetCount(bytes: seq<Byte>)
    ensures |Sextets(bytes)| == (|bytes| * 8 + 5) / 6
    decreases |bytes|
  {
    if |bytes| >= 3 {
      SextetCount(bytes[3..]);
    }
  }

  /** The spare low bits are zero: what an encoder writes. */
  predicate Canonical(xs: seq<Sextet>)
    decreases |xs|
  {
    if |xs| >= 4 then Canonical(xs[4..])
    else (|xs| == 2 ==> xs[1] % 16 == 0) && (|xs| == 3 ==> xs[2] % 4 == 0)
  }

  /** Decoded bytes encode back to the same sextets exactly when the spare bits were zero. */
  lemma {:induction false} SextetsOfBytes(xs: seq<Sextet>)
    requires Bytes(xs).Some?
    ensures Sextets(Bytes(xs).value) == xs <==> Canonical(xs)
    decreases |xs|
  {
    var bytes := Bytes(xs).value;
    if |xs| == 2 {
      GroupRoundTripBack(xs[0], xs[1], 0, 0);
      assert xs == [xs[0], xs[1]];
    } else if |xs| == 3 {
      GroupRoundTripBack(xs[0], xs[1], xs[2], 0);
      assert xs == [xs[0], xs[1], xs[2]];
    } else if |xs| >= 4 {
      GroupRoundTripBack(xs[0], xs[1], xs[2], xs[3]);
      SextetsOfBytes(xs[4..]);
      assert bytes[3..] == Bytes(xs[4..]).value;
      assert Sextets(bytes) == [xs[0], xs[1], xs[2], xs[3]] + Sextets(bytes[3..]);
      assert xs == [xs[0], xs[1], xs[2], xs[3]] + xs[4..];
      assert Sextets(bytes)[4..] == Sextets(bytes[3..]);
    }
  }

  // ----- text -----

  function Encode(bytes: seq<Byte>): string {
    Text(Sextets(bytes))
  }

  function Text(xs: seq<Sextet>): string {
    seq(|xs|, i requires 0 <= i < |xs| => CharOf(xs[i]))
  }

  /** Line breaks are skipped wherever they stand. */
  function WithoutBreaks(s: string): string
    decreases |s|
  {
    if s == [] then []
    else if s[0] == '\n' || s[0] == '\r' then WithoutBreaks(s[1..])
    else [s[0]] + WithoutBreaks(s[1..])
  }

  function Parse(s: string): Option<seq<Sextet>>
    decreases |s|
  {
    if s == [] then Some([])
    else
      var first, rest := SextetOf(s[0]), Parse(s[1..]);
      if first.Some? && rest.Some? then Some([first.value] + rest.value) else None
  }

  function Decode(s: string): Option<seq<Byte>> {
    var xs := Parse(WithoutBreaks(s));
    if xs.Some? then Bytes(xs.value) else None
  }

  lemma {:induction false} ParseText(xs: seq<Sextet>)
    ensures WithoutBreaks(Text(xs)) == Text(xs) && Parse(Text(xs)) == Some(xs)
    decreases |xs|
  {
    if xs != [] {
      ParseText(xs[1..]);
      AlphabetRoundTrip(xs[0], 'A');
      assert Text(xs) == [CharOf(xs[0])] + Text(xs[1..]);
      assert xs == [xs[0]] + xs[1..];
    }
  }

  /** A text is read as these sextets exactly if it is what they are written as. */
  lemma {:induction false} ParseIff(s: string, xs: seq<Sextet>)
    ensures Parse(s) == Some(xs) <==> s == Text(xs)
    decreases |s|
  {
    if s == Text(xs) {
      ParseText(xs);
    }
    if s != "" && Parse(s) == Some(xs) {
      AlphabetRoundTrip(xs[0], s[0]);
      assert xs[1..] == Parse(s[1..]).value;
      ParseIff(s[1..], xs[1..]);
      assert Text(xs) == [CharOf(xs[0])] + Text(xs[1..]);
      assert s == [s[0]] + s[1..];
    }
  }

  /** Four sextets make three bytes; a single one left over is the only error. */
  lemma {:induction false} ByteCount(xs: seq<Sextet>)
    ensures Bytes(xs).None? <==> |xs| % 4 == 1
    ensures Bytes(xs).Some? ==> |Bytes(xs).value| == |xs| * 6 / 8
    decreases |xs|
  {
    if |xs| >= 4 {
      ByteCount(xs[4..]);
    }
  }

  predicate IsBreak(c: char) {
    c == '\n' || c == '\r'
  }

  lemma {:induction false} BreaksSplit(s: string, t: string)
    ensures WithoutBreaks(s + t) == WithoutBreaks(s) + WithoutBreaks(t)
    decreases |s|
  {
    if s == "" {
      assert s + t == t;
    } else {
      assert (s + t)[1..] == s[1..] + t;
      BreaksSplit(s[1..], t);
    }
  }

  lemma {:induction false} BreaksShorten(s: string)
    ensures |WithoutBreaks(s)| <= |s|
    decreases |s|
  {
    if s != "" {
      BreaksShorten(s[1..]);
    }
  }

  /** A line break changes nothing wherever it stands. */
  lemma DecodeIgnoresBreaks(s: string, c: char, t: string)
    requires IsBreak(c)
    ensures Decode(s + [c] + t) == Decode(s + t)
  {
    BreaksSplit(s + [c], t);
    BreaksSplit(s, [c]);
    BreaksSplit(s, t);
    assert [c][1..] == "" && WithoutBreaks([c]) == "";
    assert WithoutBreaks(s) + "" == WithoutBreaks(s);
  }

  lemma {:induction false} NoBreaksToSkip(s: string)
    requires forall i :: 0 <= i < |s| ==> !IsBreak(s[i])
    ensures WithoutBreaks(s) == s
    decreases |s|
  {
    if s != "" {
      NoBreaksToSkip(s[1..]);
    }
  }

  /** A text without line breaks is decoded exactly if it is made of characters of the alphabet and does
      not leave a single one over; the bytes are those of its sextets. */
  lemma DecodeIff(s: string, bytes: seq<Byte>)
    requires forall i :: 0 <= i < |s| ==> !IsBreak(s[i])
    ensures Decode(s) == Some(bytes) <==> exists xs :: s == Text(xs) && |xs| % 4 != 1 && Bytes(xs) == Some(bytes)
  {
    NoBreaksToSkip(s);
    if xs :| s == Text(xs) && |xs| % 4 != 1 && Bytes(xs) == Some(bytes) {
      ParseIff(s, xs);
    }
    if Decode(s) == Some(bytes) {
      ParseIff(s, Parse(s).value);
      ByteCount(Parse(s).value);
    }
  }

  lemma DecodeEncode(bytes: seq<Byte>)
    ensures Decode(Encode(bytes)) == Some(bytes)
    ensures |Encode(bytes)| == (|bytes| * 8 + 5) / 6
  {
    ParseText(Sextets(bytes));
    BytesOfSextets(bytes);
    SextetCount(bytes);
  }

  /** Test vectors of section 10 of RFC 4648, and one that uses the characters special to base64url. */
  lemma Vectors()
    ensures Encode([]) == ""
    ensures Encode([102]) == "Zg"
    ensures Encode([102, 111]) == "Zm8"
    ensures Encode([102, 111, 111]) == "Zm9v"
    ensures Encode([102, 111, 111, 98, 97, 114]) == "Zm9vYmFy"
    ensures Encode([251, 255]) == "-_8"
  {
  }

  // ----- big-endian integers -----

  function Power256(n: nat): nat {
    if n == 0 then 1 else 256 * Power256(n - 1)
  }

  function BigEndian(v: nat, n: nat): (bytes: seq<Byte>)
    ensures |bytes| == n
  {
    if n == 0 then [] else BigEndian(v / 256, n - 1) + [v % 256]
  }

  function FromBigEndian(bytes: seq<Byte>): nat
    decreases |bytes|
  {
    if bytes == [] then 0 else 256 * FromBigEndian(bytes[..|bytes| - 1]) + bytes[|bytes| - 1]
  }

  lemma {:induction false} BigEndianRoundTrip(v: nat, n: nat)
    requires v < Power256(n)
    ensures FromBigEndian(BigEndian(v, n)) == v
    decreases n
  {
    if n > 0 {
      BigEndianRoundTrip(v / 256, n - 1);
      assert BigEndian(v, n)[..n - 1] == BigEndian(v / 256, n - 1);
    }
  }

  /** Writing inverts reading, too. */
  lemma {:induction false} BigEndianOfRead(bytes: seq<Byte>)
    ensures BigEndian(FromBigEndian(bytes), |bytes|) == bytes
    decreases |bytes|
  {
    if bytes != [] {
      BigEndianOfRead(bytes[..|bytes| - 1]);
      assert bytes == bytes[..|bytes| - 1] + [bytes[|bytes| - 1]];
    }
  }

  lemma PullOut256(p: int, first: int)
    ensures (256 * p) * first == 256 * (p * first)
  {
  }

  /** The first byte is the most significant one. */
  lemma {:induction false} FirstByteIsMostSignificant(first: Byte, rest: seq<Byte>)
    ensures FromBigEndian([first] + rest) == Weighted(first, |rest|) + FromBigEndian(rest)
    decreases |rest|
  {
    if rest == [] {
      assert [first] + rest == [first];
    } else {
      var init := rest[..|rest| - 1];
      FirstByteIsMostSignificant(first, init);
      assert ([first] + rest)[..|rest|] == [first] + init;
      PullOut256(Power256(|init|), first);
    }
  }

  function Weighted(digit: int, n: nat): int {
    Power256(n) * digit
  }

  const TWO_63: int := 0x8000_0000_0000_0000

  const TWO_64: int := 0x1_0000_0000_0000_0000

  type Int64 = x: int | -0x8000_0000_0000_0000 <= x < 0x8000_0000_0000_0000

  /** Conversion between the signed and the unsigned reading of 64 bits. */
  function ToUnsigned(x: Int64): nat {
    if x < 0 then x + TWO_64 else x
  }

  function ToSigned(v: nat): Int64
    requires v < TWO_64
  {
    if v < TWO_63 then v else v - TWO_64
  }

  /** What is left of an integer in a signed 64-bit word. */
  function Wrap64(x: int): (kept: Int64)
    ensures (x - kept) % TWO_64 == 0
  {
    ToSigned(x % TWO_64)
  }

  lemma Power256Of8()
    ensures Power256(8) == TWO_64
  {
  }

  lemma {:induction false} FromBigEndianBound(bytes: seq<Byte>)
    ensures FromBigEndian(bytes) < Power256(|bytes|)
    decreases |bytes|
  {
    if bytes != [] {
      FromBigEndianBound(bytes[..|bytes| - 1]);
    }
  }

  /** Eight bytes read as an unsigned 64-bit integer. */
  function Uint64(bytes: seq<Byte>): nat
    requires |bytes| == 8
    ensures Uint64(bytes) < TWO_64
  {
    FromBigEndianBound(bytes);
    Power256Of8();
    FromBigEndian(bytes)
  }
}
