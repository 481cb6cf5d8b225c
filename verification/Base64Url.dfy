/** base64url (src/auth/jwt.cpp:13-61): encoding and decoding through a 32-bit accumulator that is never
    cleared, against section 5 of RFC 4648 without padding. */
module Base64Url {

  type Byte = b: int | 0 <= b < 256
  type Sextet = s: int | 0 <= s < 64

  // ----- the alphabets

  function StdChar(s: Sextet): char {
    if s < 26 then ('A' as int + s) as char
    else if s < 52 then ('a' as int + (s - 26)) as char
    else if s < 62 then ('0' as int + (s - 52)) as char
    else if s == 62 then '+' else '/'
  }

  /** The URL-safe alphabet of section 5. */
  function UrlChar(s: Sextet): char {
    if s == 62 then '-' else if s == 63 then '_' else StdChar(s)
  }

  /** The value of a character of the standard alphabet, or -1. */
  function StdValue(c: char): (v: int)
    ensures -1 <= v < 64
  {
    if 'A' <= c <= 'Z' then c as int - 'A' as int
    else if 'a' <= c <= 'z' then c as int - 'a' as int + 26
    else if '0' <= c <= '9' then c as int - '0' as int + 52
    else if c == '+' then 62 else if c == '/' then 63 else -1
  }

  function ToUrl(c: char): char {
    if c == '+' then '-' else if c == '/' then '_' else c
  }

  function ToStd(c: char): char {
    if c == '-' then '+' else if c == '_' then '/' else c
  }

  lemma AlphabetRoundTrip(s: Sextet)
    ensures ToUrl(StdChar(s)) == UrlChar(s)
    ensures StdValue(ToStd(UrlChar(s))) == s
    ensures UrlChar(s) != '='
  {
  }

  const CAPITALS := "ABCDEFGHIJKLMNOPQRSTUVWXYZ"
  const SMALL := "abcdefghijklmnopqrstuvwxyz"
  const DIGITS := "0123456789"

  lemma CapitalAt(s: nat)
    ensures |CAPITALS| == 26 && (s < 26 ==> CAPITALS[s] == ('A' as int + s) as char)
  {
  }

  lemma SmallAt(s: nat)
    ensures |SMALL| == 26 && (s < 26 ==> SMALL[s] == ('a' as int + s) as char)
  {
  }

  lemma DigitAt(s: nat)
    ensures |DIGITS| == 10 && (s < 10 ==> DIGITS[s] == ('0' as int + s) as char)
  {
  }

  lemma Lengths()
    ensures |CAPITALS| == |SMALL| == 26 && |DIGITS| == 10
  {
    CapitalAt(0);
    SmallAt(0);
    DigitAt(0);
  }

  /** The standard alphabet is table 1 of RFC 4648, the URL-safe one its table 2. */
  lemma Alphabets(s: Sextet)
    ensures |CAPITALS + SMALL + DIGITS| == 62
    ensures StdChar(s) == (CAPITALS + SMALL + DIGITS + "+/")[s]
    ensures UrlChar(s) == (CAPITALS + SMALL + DIGITS + "-_")[s]
  {
    hide CAPITALS, SMALL, DIGITS;
    Lengths();
    if s < 26 { CapitalAt(s); } else if s < 52 { SmallAt(s - 26); } else if s < 62 { DigitAt(s - 52); }
  }

  /** A character has a value exactly if it stands in the standard alphabet. */
  lemma ValueIsPlace(c: char, s: Sextet)
    ensures StdValue(c) == s <==> StdChar(s) == c
  {
  }

  function StdText(ss: seq<Sextet>): (t: string)
    ensures |t| == |ss| && forall i | 0 <= i < |ss| :: t[i] == StdChar(ss[i])
  {
    seq(|ss|, i requires 0 <= i < |ss| => StdChar(ss[i]))
  }

  function UrlText(ss: seq<Sextet>): (t: string)
    ensures |t| == |ss| && forall i | 0 <= i < |ss| :: t[i] == UrlChar(ss[i])
  {
    seq(|ss|, i requires 0 <= i < |ss| => UrlChar(ss[i]))
  }

  // ----- the bit pieces

  function S1(a: Byte): Sextet { a / 4 }
  function S2(a: Byte, b: Byte): Sextet { a % 4 * 16 + b / 16 }
  function S3(b: Byte, c: Byte): Sextet { b % 16 * 4 + c / 64 }
  function S4(c: Byte): Sextet { c % 64 }

  function B1(p: Sextet, q: Sextet): Byte { p * 4 + q / 16 }
  function B2(q: Sextet, r: Sextet): Byte { q % 16 * 16 + r / 4 }
  function B3(r: Sextet, s: Sextet): Byte { r % 4 * 64 + s }

  lemma BitsBack(a: Byte, b: Byte, c: Byte)
    ensures B1(S1(a), S2(a, b)) == a
    ensures B2(S2(a, b), S3(b, c)) == b
    ensures B3(S3(b, c), S4(c)) == c
  {
  }

  // ----- the code of RFC 4648, by groups of three bytes

  /** Three bytes make four sextets; one or two bytes left over make two or three. */
  function Code(bs: seq<Byte>): seq<Sextet> {
    if |bs| == 0 then []
    else if |bs| == 1 then [S1(bs[0]), S2(bs[0], 0)]
    else if |bs| == 2 then [S1(bs[0]), S2(bs[0], bs[1]), S3(bs[1], 0)]
    else Group(bs[0], bs[1], bs[2]) + Code(bs[3..])
  }

  function Group(a: Byte, b: Byte, c: Byte): seq<Sextet> {
    [S1(a), S2(a, b), S3(b, c), S4(c)]
  }

  // ----- the code is the bytes' bits

  /** The number that digits denote in a base, the most significant first. */
  function InBase(base: nat, digits: seq<nat>): nat {
    if digits == [] then 0 else base * InBase(base, digits[..|digits| - 1]) + digits[|digits| - 1]
  }

  function Power(base: nat, n: nat): nat {
    if n == 0 then 1 else base * Power(base, n - 1)
  }

  lemma InBaseSnoc(base: nat, digits: seq<nat>, d: nat)
    ensures InBase(base, digits + [d]) == base * InBase(base, digits) + d
  {
    assert (digits + [d])[..|digits|] == digits;
  }

  lemma Distribute(base: int, x: int, p: int, y: int, d: int)
    ensures base * (x * p + y) + d == x * (base * p) + (base * y + d)
  {
  }

  lemma {:induction false} InBaseJoin(base: nat, a: seq<nat>, b: seq<nat>)
    ensures InBase(base, a + b) == InBase(base, a) * Power(base, |b|) + InBase(base, b)
    decreases |b|
  {
    if b == [] {
      assert a + b == a;
    } else {
      var n := |b| - 1;
      var front, d := b[..n], b[n];
      assert b == front + [d] && a + b == (a + front) + [d];
      assert Power(base, |b|) == base * Power(base, n);
      hide *;
      InBaseJoin(base, a, front);
      InBaseSnoc(base, a + front, d);
      InBaseSnoc(base, front, d);
      Distribute(base, InBase(base, a), Power(base, n), InBase(base, front), d);
    }
  }

  lemma InBaseShort(base: nat, a: nat, b: nat, c: nat, d: nat)
    ensures InBase(base, []) == 0 && InBase(base, [a]) == a && InBase(base, [a, b]) == base * a + b
    ensures InBase(base, [a, b, c]) == base * (base * a + b) + c
    ensures InBase(base, [a, b, c, d]) == base * (base * (base * a + b) + c) + d
  {
    assert [] + [a] == [a] && [a] + [b] == [a, b] && [a, b] + [c] == [a, b, c] && [a, b, c] + [d] == [a, b, c, d];
    InBaseSnoc(base, [], a);
    InBaseSnoc(base, [a], b);
    InBaseSnoc(base, [a, b], c);
    InBaseSnoc(base, [a, b, c], d);
    assert InBase(base, []) == 0;
    hide InBase;
  }

  /** How much the zero bits that complete the last sextet of n bytes multiply: by 2^0, 2^4 or 2^2. */
  function Completed(n: nat): nat {
    if n % 3 == 0 then 1 else if n % 3 == 1 then 16 else 4
  }

  lemma PowerSteps(base: nat, n: nat)
    ensures Power(base, n + 3) == base * (base * (base * Power(base, n)))
    ensures Power(base, n + 4) == base * (base * (base * (base * Power(base, n))))
  {
    assert Power(base, n + 1) == base * Power(base, n);
    assert Power(base, n + 2) == base * Power(base, n + 1);
    assert Power(base, n + 3) == base * Power(base, n + 2);
    assert Power(base, n + 4) == base * Power(base, n + 3);
    hide Power;
  }

  lemma FewPowers(base: nat)
    ensures Power(base, 0) == 1 && Power(base, 1) == base && Power(base, 2) == base * base
    ensures Power(base, 3) == base * (base * base)
  {
    assert Power(base, 1) == base * Power(base, 0);
    assert Power(base, 2) == base * Power(base, 1);
    assert Power(base, 3) == base * Power(base, 2);
  }

  lemma CodeStep(bs: seq<Byte>)
    ensures |bs| < 3 ==> |Code(bs)| == if |bs| == 0 then 0 else |bs| + 1
    ensures |bs| >= 3 ==> Code(bs) == Group(bs[0], bs[1], bs[2]) + Code(bs[3..]) && Completed(|bs|) == Completed(|bs[3..]|)
  {
    hide S1, S2, S3, S4, Group;
    if |bs| >= 3 { assert |bs| % 3 == (|bs| - 3) % 3; }
  }

  lemma {:induction false} PowersMeet(bs: seq<Byte>)
    ensures Power(64, |Code(bs)|) == Power(256, |bs|) * Completed(|bs|)
    decreases |bs|
  {
    hide Power, Code, S1, S2, S3, S4;
    CodeStep(bs);
    FewPowers(64);
    FewPowers(256);
    if |bs| >= 3 {
      PowersMeet(bs[3..]);
      PowerSteps(64, |Code(bs[3..])|);
      PowerSteps(256, |bs| - 3);
      hide *;
    }
  }

  /** Read in base 64, the code is the bytes read in base 256, followed by the zero bits that complete the last
      sextet. */
  lemma {:induction false} CodeIsBits(bs: seq<Byte>)
    ensures InBase(64, Code(bs)) == InBase(256, bs) * Completed(|bs|)
    decreases |bs|
  {
    hide InBase, Code, S1, S2, S3, S4, Power;
    if |bs| < 3 {
      ShortBits(bs);
    } else {
      var group, rest := bs[..3], bs[3..];
      CodeStep(bs);
      GroupBits(bs[0], bs[1], bs[2]);
      hide *;
      Displays(bs);
      CodeIsBits(rest);
      PowersMeet(rest);
      InBaseJoin(64, Group(bs[0], bs[1], bs[2]), Code(rest));
      InBaseJoin(256, group, rest);
      Scale(InBase(256, group), Power(256, |rest|), InBase(256, rest), Completed(|rest|));
    }
  }

  lemma Scale(x: int, p: int, y: int, k: int)
    ensures x * (p * k) + y * k == (x * p + y) * k
  {
  }

  lemma GroupBits(a: Byte, b: Byte, c: Byte)
    ensures InBase(64, Group(a, b, c)) == InBase(256, [a, b, c])
  {
    InBaseShort(64, S1(a), S2(a, b), S3(b, c), S4(c));
    InBaseShort(256, a, b, c, 0);
    hide InBase;
  }

  lemma ShortBits(bs: seq<Byte>)
    requires |bs| < 3
    ensures InBase(64, Code(bs)) == InBase(256, bs) * Completed(|bs|)
  {
    hide InBase, S1, S2, S3;
    Displays(bs);
    InBaseShort(64, 0, 0, 0, 0);
    InBaseShort(256, 0, 0, 0, 0);
    if |bs| == 1 {
      OneByteBits(bs[0]);
    } else if |bs| == 2 {
      TwoByteBits(bs[0], bs[1]);
    }
  }

  lemma OneByteBits(a: Byte)
    ensures InBase(64, [S1(a), S2(a, 0)]) == InBase(256, [a]) * 16
  {
    InBaseShort(64, S1(a), S2(a, 0), 0, 0);
    InBaseShort(256, a, 0, 0, 0);
    hide InBase;
  }

  lemma TwoByteBits(a: Byte, b: Byte)
    ensures InBase(64, [S1(a), S2(a, b), S3(b, 0)]) == InBase(256, [a, b]) * 4
  {
    InBaseShort(64, S1(a), S2(a, b), S3(b, 0), 0);
    InBaseShort(256, a, b, 0, 0);
    hide InBase;
  }

  /** No padding: n bytes take the least number of sextets that holds 8n bits. */
  lemma {:induction false} CodeLength(bs: seq<Byte>)
    ensures |Code(bs)| == (8 * |bs| + 5) / 6
  {
    if |bs| >= 3 { CodeLength(bs[3..]); }
  }

  /** What the encoder writes for the byte c at a position n, after the byte prev. */
  function Emit(n: nat, prev: Byte, c: Byte): seq<Sextet> {
    if n % 3 == 0 then [S1(c)] else if n % 3 == 1 then [S2(prev, c)] else [S3(prev, c), S4(c)]
  }

  /** What the encoder has written after each byte. */
  function Emitted(bs: seq<Byte>): seq<Sextet> {
    if bs == [] then []
    else
      var n := |bs| - 1;
      Emitted(bs[..n]) + Emit(n, Last(bs[..n]), bs[n])
  }

  function Last(bs: seq<Byte>): Byte {
    if bs == [] then 0 else bs[|bs| - 1]
  }

  /** The sextet completed with zero bits at the end. */
  function Flushed(bs: seq<Byte>): seq<Sextet> {
    if |bs| % 3 == 0 then []
    else if |bs| % 3 == 1 then [S2(Last(bs), 0)]
    else [S3(Last(bs), 0)]
  }

  lemma EmittedStep(bs: seq<Byte>, c: Byte)
    ensures Emitted(bs + [c]) == Emitted(bs) + Emit(|bs|, Last(bs), c)
  {
    assert (bs + [c])[..|bs|] == bs;
  }

  lemma EmittedThree(a: Byte, b: Byte, c: Byte)
    ensures Emitted([a]) == [S1(a)]
    ensures Emitted([a, b]) == [S1(a), S2(a, b)]
    ensures Emitted([a, b, c]) == Group(a, b, c)
  {
    hide S1, S2, S3, S4;
    assert [] + [a] == [a] && [a] + [b] == [a, b] && [a, b] + [c] == [a, b, c];
    EmittedStep([], a);
    EmittedStep([a], b);
    EmittedStep([a, b], c);
  }

  lemma {:induction false} EmittedGroup(group: seq<Byte>, rest: seq<Byte>)
    requires |group| == 3
    ensures Emitted(group + rest) == Emitted(group) + Emitted(rest)
    decreases |rest|
  {
    if rest == [] {
      assert group + rest == group;
    } else {
      var n := |rest| - 1;
      var front, d := rest[..n], rest[n];
      assert rest == front + [d] && group + rest == (group + front) + [d];
      EmitInGroup(group, front, d);
      hide *;
      EmittedGroup(group, front);
      EmittedStep(front, d);
      EmittedStep(group + front, d);
    }
  }

  lemma EmitInGroup(group: seq<Byte>, front: seq<Byte>, d: Byte)
    requires |group| == 3
    ensures Emit(|group + front|, Last(group + front), d) == Emit(|front|, Last(front), d)
  {
    hide S1, S2, S3, S4;
    assert (|front| + 3) % 3 == |front| % 3;
  }

  lemma EmittedRest(bs: seq<Byte>)
    requires |bs| < 3
    ensures Emitted(bs) + Flushed(bs) == Code(bs)
  {
    hide *;
    Displays(bs);
    if |bs| == 0 {
      EmittedNone();
    } else if |bs| == 1 {
      EmittedOne(bs[0]);
    } else {
      EmittedTwo(bs[0], bs[1]);
    }
  }

  lemma EmittedNone()
    ensures Emitted([]) + Flushed([]) == Code([])
  {
  }

  lemma Displays(bs: seq<Byte>)
    ensures |bs| == 0 ==> bs == []
    ensures |bs| == 1 ==> bs == [bs[0]]
    ensures |bs| == 2 ==> bs == [bs[0], bs[1]]
    ensures |bs| >= 3 ==> bs[..3] == [bs[0], bs[1], bs[2]] && bs == bs[..3] + bs[3..]
  {
  }

  lemma EmittedOne(a: Byte)
    ensures Emitted([a]) + Flushed([a]) == Code([a])
  {
    assert Code([a]) == [S1(a), S2(a, 0)] && Flushed([a]) == [S2(a, 0)];
    EmittedThree(a, 0, 0);
    hide *;
  }

  lemma EmittedTwo(a: Byte, b: Byte)
    ensures Emitted([a, b]) + Flushed([a, b]) == Code([a, b])
  {
    assert Code([a, b]) == [S1(a), S2(a, b), S3(b, 0)] && Flushed([a, b]) == [S3(b, 0)];
    EmittedThree(a, b, 0);
    hide *;
  }

  /** Byte by byte the encoder writes the code of the RFC. */
  lemma {:induction false} EmittedIsCode(bs: seq<Byte>)
    ensures Emitted(bs) + Flushed(bs) == Code(bs)
    decreases |bs|
  {
    if |bs| < 3 {
      EmittedRest(bs);
    } else {
      hide *;
      var group, rest := bs[..3], bs[3..];
      FirstGroup(bs);
      FlushedGroup(bs);
      EmittedGroup(group, rest);
      EmittedIsCode(rest);
      Associates(Emitted(group), Emitted(rest), Flushed(rest));
    }
  }

  lemma FlushedGroup(bs: seq<Byte>)
    requires |bs| >= 3
    ensures Flushed(bs) == Flushed(bs[3..])
  {
    hide S2, S3;
    var n := |bs[3..]|;
    assert (n + 3) % 3 == n % 3;
    assert n > 0 ==> Last(bs[3..]) == Last(bs);
    hide Last;
  }

  lemma Associates<T>(a: seq<T>, b: seq<T>, c: seq<T>)
    ensures (a + b) + c == a + (b + c)
  {
  }

  lemma FirstGroup(bs: seq<Byte>)
    requires |bs| >= 3
    ensures Emitted(bs[..3]) + Code(bs[3..]) == Code(bs)
    ensures bs[..3] + bs[3..] == bs
  {
    hide S1, S2, S3, S4, Emitted;
    var a, b, c := bs[0], bs[1], bs[2];
    assert Code(bs) == Group(a, b, c) + Code(bs[3..]);
    EmittedThree(a, b, c);
    Displays(bs);
    hide *;
  }

  // ----- decoding sextets

  /** The byte completed by the sextet s at a position n, after the sextet prev. */
  function Complete(n: nat, prev: Sextet, s: Sextet): seq<Byte> {
    if n % 4 == 0 then [] else if n % 4 == 1 then [B1(prev, s)]
    else if n % 4 == 2 then [B2(prev, s)] else [B3(prev, s)]
  }

  function LastOf(ss: seq<Sextet>): Sextet {
    if ss == [] then 0 else ss[|ss| - 1]
  }

  /** The bytes completed by each sextet in turn. */
  function Decoded(ss: seq<Sextet>): seq<Byte> {
    if ss == [] then []
    else
      var n := |ss| - 1;
      Decoded(ss[..n]) + Complete(n, LastOf(ss[..n]), ss[n])
  }

  lemma DecodedStep(ss: seq<Sextet>, s: Sextet)
    ensures Decoded(ss + [s]) == Decoded(ss) + Complete(|ss|, LastOf(ss), s)
  {
    assert (ss + [s])[..|ss|] == ss;
  }

  lemma DecodedFour(p: Sextet, q: Sextet, r: Sextet, s: Sextet)
    ensures Decoded([p, q]) == [B1(p, q)]
    ensures Decoded([p, q, r]) == [B1(p, q), B2(q, r)]
    ensures Decoded([p, q, r, s]) == [B1(p, q), B2(q, r), B3(r, s)]
  {
    hide B1, B2, B3;
    assert [] + [p] == [p] && [p] + [q] == [p, q] && [p, q] + [r] == [p, q, r];
    assert [p, q, r] + [s] == [p, q, r, s];
    DecodedStep([], p);
    DecodedStep([p], q);
    DecodedStep([p, q], r);
    DecodedStep([p, q, r], s);
  }

  lemma {:induction false} DecodedGroup(group: seq<Sextet>, rest: seq<Sextet>)
    requires |group| == 4
    ensures Decoded(group + rest) == Decoded(group) + Decoded(rest)
    decreases |rest|
  {
    if rest == [] {
      assert group + rest == group;
    } else {
      var n := |rest| - 1;
      var front, d := rest[..n], rest[n];
      assert rest == front + [d] && group + rest == (group + front) + [d];
      CompleteInGroup(group, front, d);
      hide *;
      DecodedGroup(group, front);
      DecodedStep(front, d);
      DecodedStep(group + front, d);
    }
  }

  lemma CompleteInGroup(group: seq<Sextet>, front: seq<Sextet>, d: Sextet)
    requires |group| == 4
    ensures Complete(|group + front|, LastOf(group + front), d) == Complete(|front|, LastOf(front), d)
  {
    hide B1, B2, B3;
    assert (|front| + 4) % 4 == |front| % 4;
  }

  lemma ShortRoundTrip(bs: seq<Byte>)
    requires 0 < |bs| < 3
    ensures Decoded(Code(bs)) == bs
  {
    hide S1, S2, S3, S4, B1, B2, B3, Decoded;
    var b := if |bs| == 1 then 0 else bs[1];
    BitsBack(bs[0], b, 0);
    DecodedFour(S1(bs[0]), S2(bs[0], b), S3(b, 0), 0);
  }

  /** Decoding undoes the code. */
  lemma {:induction false} CodeRoundTrip(bs: seq<Byte>)
    ensures Decoded(Code(bs)) == bs
    decreases |bs|
  {
    if 0 < |bs| < 3 {
      ShortRoundTrip(bs);
    } else if |bs| >= 3 {
      var a, b, c := bs[0], bs[1], bs[2];
      assert Group(a, b, c) == [S1(a), S2(a, b), S3(b, c), S4(c)];
      assert Code(bs) == Group(a, b, c) + Code(bs[3..]);
      hide *;
      BitsBack(a, b, c);
      CodeRoundTrip(bs[3..]);
      DecodedFour(S1(a), S2(a, b), S3(b, c), S4(c));
      DecodedGroup(Group(a, b, c), Code(bs[3..]));
      Displays(bs);
    }
  }

  // ----- the accumulator

  const TWO_32: int := 0x1_0000_0000

  /** A 32-bit signed integer, wrapped around. */
  function Wrap(x: int): (w: int)
    ensures -0x8000_0000 <= w < 0x8000_0000
  {
    (x + 0x8000_0000) % TWO_32 - 0x8000_0000
  }

  /** `val >> k` on a signed integer, by the amounts that occur. */
  function ShiftRight(x: int, k: int): int
    requires k in {0, 2, 4, 6}
  {
    if k == 0 then x else if k == 2 then x / 4 else if k == 4 then x / 16 else x / 64
  }

  /** `(val << 8) + c`, and `(val << 6) + s`: only the shift can wrap around. */
  function PushByte(val: int, c: Byte): int { Wrap(val * 256) + c }
  function PushSextet(val: int, s: Sextet): int { Wrap(val * 64) + s }

  /** Wrapping around takes away a multiple of 2^12. */
  lemma WrapTakesAway(x: int) returns (q: int)
    ensures Wrap(x) == x - 4096 * q
  {
    var k := (x + 0x8000_0000) / TWO_32;
    assert Wrap(x) == x - TWO_32 * k;
    q := 0x10_0000 * k;
  }

  /** A multiple of 64 or 256 stays one when it wraps around, which leaves room for the low bits. */
  lemma WrapLeavesRoom(v: int)
    ensures Wrap(v * 64) <= 0x8000_0000 - 64 && Wrap(v * 256) <= 0x8000_0000 - 256
  {
    WrapIsMultiple(v * 64, v, 64, 0x200_0000);
    WrapIsMultiple(v * 256, v, 256, 0x80_0000);
  }

  lemma WrapIsMultiple(x: int, v: int, m: int, h: int)
    requires x == v * m && m * h == 0x8000_0000 && (m == 64 || m == 256)
    ensures Wrap(x) <= 0x8000_0000 - m
  {
    var k := (x + 0x8000_0000) / TWO_32;
    var rest := (x + 0x8000_0000) % TWO_32;
    assert x + 0x8000_0000 == TWO_32 * k + rest;
    if m == 64 {
      assert rest == 64 * (v + h - 2 * h * k);
    } else {
      assert rest == 256 * (v + h - 2 * h * k);
    }
  }

  /** The last byte pushed and the four bits before it are intact in the accumulator, which stays in range. */
  lemma PushByteBits(val: int, prev: Byte, c: Byte) returns (q: int)
    requires val % 16 == prev % 16
    ensures PushByte(val, c) == 4096 * q + prev % 16 * 256 + c
    ensures -0x8000_0000 <= PushByte(val, c) < 0x8000_0000
  {
    var k := WrapTakesAway(val * 256);
    WrapLeavesRoom(val);
    hide Wrap;
    var h, low := val / 16, prev % 16;
    assert val == 16 * h + low;
    q := h - k;
    assert Wrap(val * 256) == 4096 * h + 256 * low - 4096 * k;
  }

  lemma PushSextetBits(val: int, prev: Sextet, s: Sextet) returns (q: int)
    requires val % 64 == prev
    ensures PushSextet(val, s) == 4096 * q + prev * 64 + s
    ensures -0x8000_0000 <= PushSextet(val, s) < 0x8000_0000
  {
    var k := WrapTakesAway(val * 64);
    WrapLeavesRoom(val);
    hide Wrap;
    var h := val / 64;
    assert val == 64 * h + prev;
    q := h - k;
    assert Wrap(val * 64) == 4096 * h + 64 * prev - 4096 * k;
  }

  lemma Remainder64(x: int, k: int, r: Sextet)
    requires x == 64 * k + r
    ensures x % 64 == r
  {
  }

  lemma Remainder256(x: int, k: int, r: Byte)
    requires x == 256 * k + r
    ensures x % 256 == r
  {
  }

  lemma TakeS1(v: int, q: int, u: int, c: Byte)
    requires v == 4096 * q + u * 256 + c
    ensures ShiftRight(v, 2) % 64 == S1(c)
  {
    assert v / 4 == 1024 * q + 64 * u + c / 4;
    Remainder64(v / 4, 16 * q + u, S1(c));
  }

  lemma TakeS2(v: int, q: int, prev: Byte, c: Byte)
    requires v == 4096 * q + prev % 16 * 256 + c
    ensures ShiftRight(v, 4) % 64 == S2(prev, c)
  {
    assert v / 16 == 256 * q + prev % 16 * 16 + c / 16;
    var h := prev % 16 / 4;
    assert prev % 16 == 4 * h + prev % 4;
    Remainder64(v / 16, 4 * q + h, S2(prev, c));
  }

  lemma TakeS3(v: int, q: int, prev: Byte, c: Byte)
    requires v == 4096 * q + prev % 16 * 256 + c
    ensures ShiftRight(v, 6) % 64 == S3(prev, c)
  {
    assert v / 64 == 64 * q + prev % 16 * 4 + c / 64;
    Remainder64(v / 64, q, S3(prev, c));
  }

  lemma TakeS4(v: int, q: int, u: int, c: Byte)
    requires v == 4096 * q + u * 256 + c
    ensures ShiftRight(v, 0) % 64 == S4(c)
  {
    Remainder64(v, 64 * q + 4 * u + c / 64, S4(c));
  }

  lemma TakeB1(v: int, q: int, prev: Sextet, s: Sextet)
    requires v == 4096 * q + prev * 64 + s
    ensures ShiftRight(v, 4) % 256 == B1(prev, s)
  {
    assert v / 16 == 256 * q + prev * 4 + s / 16;
    Remainder256(v / 16, q, B1(prev, s));
  }

  lemma TakeB2(v: int, q: int, prev: Sextet, s: Sextet)
    requires v == 4096 * q + prev * 64 + s
    ensures ShiftRight(v, 2) % 256 == B2(prev, s)
  {
    assert v / 4 == 1024 * q + prev * 16 + s / 4;
    assert prev == 16 * (prev / 16) + prev % 16;
    Remainder256(v / 4, 4 * q + prev / 16, B2(prev, s));
  }

  lemma TakeB3(v: int, q: int, prev: Sextet, s: Sextet)
    requires v == 4096 * q + prev * 64 + s
    ensures ShiftRight(v, 0) % 256 == B3(prev, s)
  {
    assert prev == 4 * (prev / 4) + prev % 4;
    Remainder256(v, 16 * q + prev / 4, B3(prev, s));
  }

  // ----- the encoder

  /** `valb` between bytes: how many bits are still to be written, less six. */
  function ToWrite(n: nat): int {
    if n % 3 == 0 then -6 else if n % 3 == 1 then -4 else -2
  }

  /** What the inner loop writes from the accumulator. */
  function Taken(v: int, valb: int): seq<Sextet>
    requires valb in {-6, -4, -2, 0, 2, 4, 6}
    decreases valb + 6
  {
    if valb < 0 then [] else [TakeSextet(v, valb)] + Taken(v, valb - 6)
  }

  /** `(val >> valb) & 0x3F` */
  function TakeSextet(v: int, valb: int): Sextet
    requires valb in {0, 2, 4, 6}
  {
    ShiftRight(v, valb) % 64
  }

  /** The accumulator that has just taken c after prev yields what the code asks for. */
  lemma TakenIsEmit(val: int, n: nat, prev: Byte, c: Byte)
    requires val % 16 == prev % 16
    ensures PushByte(val, c) % 16 == c % 16
    ensures Taken(PushByte(val, c), ToWrite(n) + 8) == Emit(n, prev, c)
  {
    hide PushByte, S1, S2, S3, S4, ShiftRight;
    var v := PushByte(val, c);
    var q := PushByteBits(val, prev, c);
    LowBits(v, q, prev, c);
    if n % 3 == 0 {
      TakeS1(v, q, prev % 16, c);
    } else if n % 3 == 1 {
      TakeS2(v, q, prev, c);
    } else {
      TakeS3(v, q, prev, c);
      TakeS4(v, q, prev % 16, c);
    }
    hide *;
  }

  lemma LowBits(v: int, q: int, prev: Byte, c: Byte)
    requires v == 4096 * q + prev % 16 * 256 + c
    ensures v % 16 == c % 16
  {
    var k := 256 * q + prev % 16 * 16 + c / 16;
    assert v == 16 * k + c % 16;
  }

  /** Writes the code of the bytes in the URL-safe alphabet, without padding. */
  method Encode(bs: seq<Byte>) returns (out: string)
    ensures out == UrlText(Code(bs))
  {
    hide PushByte, S1, S2, S3, S4, TakeSextet, StdChar, UrlChar, Emit, Code;
    out := [];
    ghost var ss: seq<Sextet> := [];
    var val, valb := 0, -6;
    var i := 0;
    while i < |bs|
      invariant 0 <= i <= |bs| && ss == Emitted(bs[..i]) && out == StdText(ss)
      invariant valb == ToWrite(i)
      invariant val % 16 == Last(bs[..i]) % 16
    {
      ghost var seen := bs[..i];
      EmittedStep(seen, bs[i]);
      TakenIsEmit(val, i, Last(seen), bs[i]);
      val := PushByte(val, bs[i]);
      out, valb, ss := WriteSextets(val, valb + 8, out, ss);
      LeftOver(i);
      assert bs[..i + 1] == seen + [bs[i]];
      i := i + 1;
    }
    assert bs[..|bs|] == bs;
    if valb > -6 {
      FlushIs(val, bs);
      var s := TakeSextet(PushByte(val, 0), valb + 8);
      out, ss := out + [StdChar(s)], ss + [s];
    }
    EmittedIsCode(bs);
    assert ss == Code(bs);
    out := Finish(out, ss);
  }

  /** Writes sextets for as long as six bits are waiting. */
  method WriteSextets(val: int, valb0: int, out0: string, ghost ss0: seq<Sextet>)
    returns (out: string, valb: int, ghost ss: seq<Sextet>)
    requires valb0 in {2, 4, 6} && out0 == StdText(ss0)
    ensures ss == ss0 + Taken(val, valb0) && out == StdText(ss)
    ensures valb == if valb0 == 6 then -6 else valb0 - 6
  {
    hide TakeSextet, StdChar;
    out, valb, ss := out0, valb0, ss0;
    while valb >= 0
      invariant valb in {-6, -4, -2, 0, 2, 4, 6} && (valb - valb0) % 6 == 0
      invariant ss + Taken(val, valb) == ss0 + Taken(val, valb0) && out == StdText(ss)
    {
      var s := TakeSextet(val, valb);
      Associates(ss, [s], Taken(val, valb - 6));
      out, ss := out + [StdChar(s)], ss + [s];
      valb := valb - 6;
    }
  }

  lemma LeftOver(n: nat)
    ensures var w := ToWrite(n) + 8; ToWrite(n + 1) == if w == 6 then -6 else w - 6
  {
  }

  /** The last sextet: as if a zero byte came next. */
  lemma FlushIs(val: int, bs: seq<Byte>)
    requires |bs| % 3 != 0 && val % 16 == Last(bs) % 16
    ensures Flushed(bs) == [TakeSextet(PushByte(val, 0), ToWrite(|bs|) + 8)]
  {
    hide PushByte, S1, S2, S3, S4, ShiftRight, Last;
    TakenIsEmit(val, |bs|, Last(bs), 0);
    assert Taken(PushByte(val, 0), ToWrite(|bs|) + 8)[0] == TakeSextet(PushByte(val, 0), ToWrite(|bs|) + 8);
  }

  function Pad(n: nat): (t: string)
    ensures |t| == n && forall i | 0 <= i < n :: t[i] == '='
  {
    seq(n, _ => '=')
  }

  lemma PadMore(text: string, n: nat)
    ensures text + Pad(n) + ['='] == text + Pad(n + 1)
  {
  }

  /** How many characters are missing to a multiple of four. */
  function Missing(n: nat): nat {
    if n % 4 == 0 then 0 else 4 - n % 4
  }

  lemma MissingLess(n: nat)
    ensures (n + Missing(n)) % 4 == 0
    ensures n % 4 != 0 ==> Missing(n + 1) == Missing(n) - 1
    ensures Missing(n) == 0 <==> n % 4 == 0
  {
  }

  /** Pads with '=' to a multiple of four. */
  method PadText(text: string) returns (out: string)
    ensures out == text + Pad(Missing(|text|))
  {
    hide Pad, Missing;
    out := text;
    ghost var n := 0;
    assert text + Pad(0) == text;
    MissingLess(|text|);
    while |out| % 4 != 0
      invariant out == text + Pad(n) && n + Missing(|out|) == Missing(|text|)
      decreases Missing(|out|)
    {
      MissingLess(|out|);
      PadMore(text, n);
      out, n := out + ['='], n + 1;
    }
    MissingLess(|out|);
  }

  /** Pads, rewrites to the URL-safe alphabet, and strips the padding again. */
  method Finish(text: string, ghost ss: seq<Sextet>) returns (out: string)
    requires text == StdText(ss)
    ensures out == UrlText(ss)
  {
    hide StdChar, UrlChar, ToUrl;
    out := PadText(text);
    ghost var padded := out;
    for i := 0 to |out|
      invariant |out| == |padded|
      invariant forall j | 0 <= j < i :: out[j] == ToUrl(padded[j])
      invariant forall j | i <= j < |out| :: out[j] == padded[j]
    {
      out := out[i := ToUrl(out[i])];
    }
    forall j | 0 <= j < |out|
      ensures out[j] == if j < |ss| then UrlChar(ss[j]) else '='
    {
      if j < |ss| { AlphabetRoundTrip(ss[j]); } else { PaddingStays(); }
    }
    out := Strip(out, ss);
  }

  lemma PaddingStays()
    ensures ToUrl('=') == '='
  {
  }

  /** Takes the padding off the end. */
  method Strip(text: string, ghost ss: seq<Sextet>) returns (out: string)
    requires |ss| <= |text|
    requires forall j | 0 <= j < |text| :: text[j] == if j < |ss| then UrlChar(ss[j]) else '='
    ensures out == UrlText(ss)
  {
    out := text;
    while out != [] && out[|out| - 1] == '='
      invariant |ss| <= |out| <= |text| && out == text[..|out|]
      decreases |out|
    {
      if |out| == |ss| { AlphabetRoundTrip(ss[|ss| - 1]); }
      out := out[..|out| - 1];
    }
    hide UrlChar;
    assert out == UrlText(ss);
  }

  // ----- the decoder

  /** The values of the longest prefix in the standard alphabet. */
  function Sextets(text: string): seq<Sextet> {
    if text == [] || StdValue(text[0]) < 0 then [] else [StdValue(text[0])] + Sextets(text[1..])
  }

  lemma {:induction false} SextetsOfUrlText(ss: seq<Sextet>)
    ensures Sextets(Standard(UrlText(ss))) == ss
  {
    hide StdValue, ToStd, UrlChar;
    if ss != [] {
      AlphabetRoundTrip(ss[0]);
      assert Standard(UrlText(ss))[1..] == Standard(UrlText(ss[1..]));
      SextetsOfUrlText(ss[1..]);
    }
  }

  /** Padding adds nothing. */
  lemma {:induction false} SextetsPadded(text: string, n: nat)
    ensures Sextets(text + Pad(n)) == Sextets(text)
  {
    if text == [] {
      assert text + Pad(n) == Pad(n);
    } else {
      assert (text + Pad(n))[1..] == text[1..] + Pad(n);
      SextetsPadded(text[1..], n);
    }
  }

  /** `valb` between sextets: how many bits of the next byte are missing, below zero. */
  function ToRead(n: nat): int {
    if n % 4 == 0 then -8 else if n % 4 == 1 then -2 else if n % 4 == 2 then -4 else -6
  }

  /** `(val >> valb) & 0xFF` */
  function TakeByte(v: int, valb: int): Byte
    requires valb in {0, 2, 4}
  {
    ShiftRight(v, valb) % 256
  }

  lemma TakenIsComplete(val: int, n: nat, prev: Sextet, s: Sextet)
    requires val % 64 == prev
    ensures PushSextet(val, s) % 64 == s
    ensures Complete(n, prev, s) ==
              if n % 4 == 0 then [] else [TakeByte(PushSextet(val, s), ToRead(n) + 6)]
  {
    hide PushSextet, B1, B2, B3, ShiftRight;
    var v := PushSextet(val, s);
    var q := PushSextetBits(val, prev, s);
    Remainder64(v, 64 * q + prev, s);
    if n % 4 == 1 { TakeB1(v, q, prev, s); }
    else if n % 4 == 2 { TakeB2(v, q, prev, s); }
    else if n % 4 == 3 { TakeB3(v, q, prev, s); }
  }

  /** The alphabet's '-' and '_' rewritten, and the text padded to a multiple of four. */
  method Prepare(text: string) returns (input: string)
    ensures input == Standard(text) + Pad(Missing(|text|))
  {
    hide Standard;
    input := Rewrite(text);
    input := PadText(input);
  }

  method Rewrite(text: string) returns (input: string)
    ensures input == Standard(text)
  {
    hide ToStd;
    input := text;
    for i := 0 to |input|
      invariant |input| == |text|
      invariant forall j | 0 <= j < i :: input[j] == ToStd(text[j])
      invariant forall j | i <= j < |input| :: input[j] == text[j]
    {
      input := input[i := ToStd(input[i])];
    }
  }

  function Standard(text: string): (t: string)
    ensures |t| == |text| && forall i | 0 <= i < |t| :: t[i] == ToStd(text[i])
  {
    seq(|text|, i requires 0 <= i < |text| => ToStd(text[i]))
  }

  lemma {:induction false} SextetsStep(text: string, i: nat)
    requires i < |text| && |Sextets(text[..i])| == i
    ensures var v := StdValue(text[i]);
      && (v >= 0 ==> Sextets(text[..i + 1]) == Sextets(text[..i]) + [v])
      && (v < 0 ==> Sextets(text) == Sextets(text[..i]))
  {
    hide StdValue;
    if i == 0 {
      assert text[..1] == [text[0]] && text[..1][1..] == [];
    } else {
      assert text[..i][1..] == text[1..][..i - 1];
      assert text[..i + 1][1..] == text[1..][..i];
      SextetsStep(text[1..], i - 1);
    }
  }

  /** The decoder's variables after the sextets ss. */
  ghost predicate Reading(ss: seq<Sextet>, val: int, valb: int, out: seq<Byte>) {
    valb == ToRead(|ss|) && out == Decoded(ss) && val % 64 == LastOf(ss)
  }

  lemma ReadingNext(ss: seq<Sextet>, val: int, valb: int, out: seq<Byte>, s: Sextet)
    requires Reading(ss, val, valb, out)
    ensures valb + 6 in {-2, 0, 2, 4}
    ensures var v := PushSextet(val, s);
      if valb + 6 >= 0 then Reading(ss + [s], v, valb - 2, out + [TakeByte(v, valb + 6)])
      else Reading(ss + [s], v, valb + 6, out)
  {
    hide PushSextet, TakeByte, Complete, Decoded;
    var v := PushSextet(val, s);
    TakenIsComplete(val, |ss|, LastOf(ss), s);
    DecodedStep(ss, s);
    ToReadNext(|ss|);
    assert LastOf(ss + [s]) == s;
    if |ss| % 4 == 0 {
      assert out + [] == out;
      assert Reading(ss + [s], v, valb + 6, out);
    } else {
      assert Reading(ss + [s], v, valb - 2, out + [TakeByte(v, valb + 6)]);
    }
  }

  lemma ToReadNext(n: nat)
    ensures ToRead(n + 1) == if n % 4 == 0 then ToRead(n) + 6 else ToRead(n) - 2
    ensures ToRead(n) + 6 >= 0 <==> n % 4 != 0
  {
  }

  /** Reads the sextets of the longest prefix in the alphabet and writes the bytes they complete. */
  method Decode(text: string) returns (out: seq<Byte>)
    ensures out == Decoded(Sextets(Standard(text)))
  {
    hide StdValue, PushSextet, TakeByte, Decoded, Reading;
    var input := Prepare(text);
    SextetsPadded(Standard(text), Missing(|text|));
    out := [];
    var val, valb := 0, -8;
    assert Reading([], 0, -8, []) by { ReadingStart(); }
    var i := 0;
    while i < |input| && StdValue(input[i]) >= 0
      invariant 0 <= i <= |input| && |Sextets(input[..i])| == i
      invariant Reading(Sextets(input[..i]), val, valb, out)
    {
      var s: Sextet := StdValue(input[i]);
      SextetsStep(input, i);
      ReadingNext(Sextets(input[..i]), val, valb, out, s);
      val := PushSextet(val, s);
      valb := valb + 6;
      if valb >= 0 {
        out := out + [TakeByte(val, valb)];
        valb := valb - 8;
      }
      i := i + 1;
    }
    if i < |input| { SextetsStep(input, i); } else { assert input[..i] == input; }
    ReadingEnd(Sextets(input[..i]), val, valb, out);
  }

  lemma ReadingStart()
    ensures Reading([], 0, -8, [])
  {
  }

  lemma ReadingEnd(ss: seq<Sextet>, val: int, valb: int, out: seq<Byte>)
    requires Reading(ss, val, valb, out)
    ensures out == Decoded(ss)
  {
  }

  /** Decoding undoes encoding, for every byte string. */
  method RoundTrip(bs: seq<Byte>) returns (back: seq<Byte>)
    ensures back == bs
  {
    var text := Encode(bs);
    back := Decode(text);
    SextetsOfUrlText(Code(bs));
    CodeRoundTrip(bs);
  }
}
