/** IPv4 addresses as Go's `net` package handles them: dotted-quad text, masks byte by byte, and the
    big-endian word of an address. Masking is defined bit by bit; the arithmetic form is a theorem. */
module Ipv4 {
  import opened Text

  type Octet = x: int | 0 <= x < 256

  datatype Ip = Ip(a: Octet, b: Octet, c: Octet, d: Octet)

  datatype Parsed<+T> = Malformed | Parsed(value: T)

  // ----- text

  function DigitOf(v: int): Byte
    requires 0 <= v < 10
  {
    '0' + v as char
  }

  function ValueOf(c: Byte): int {
    c as int - '0' as int
  }

  /** `%d` of a byte. */
  function OctetText(o: Octet): (s: GoString)
    ensures s != ""
  {
    if o < 10 then [DigitOf(o)]
    else if o < 100 then [DigitOf(o / 10), DigitOf(o % 10)]
    else [DigitOf(o / 100), DigitOf(o / 10 % 10), DigitOf(o % 10)]
  }

  predicate AllDigits(s: GoString) {
    forall i :: 0 <= i < |s| ==> IsDigit(s[i])
  }

  /** One field of a dotted quad: at most three digits, no leading zero, at most 255. */
  function ParseOctet(s: GoString): Parsed<Octet> {
    if s == "" || |s| > 3 || !IsDigit(s[0]) || !IsDigit(s[|s| - 1]) || !IsDigit(s[|s| / 2]) then Malformed
    else if |s| > 1 && s[0] == '0' then Malformed
    else if |s| == 1 then Parsed(ValueOf(s[0]))
    else if |s| == 2 then Parsed(10 * ValueOf(s[0]) + ValueOf(s[1]))
    else
      var v := 100 * ValueOf(s[0]) + 10 * ValueOf(s[1]) + ValueOf(s[2]);
      if v < 256 then Parsed(v) else Malformed
  }

  lemma DigitOfValue(c: Byte, v: int)
    ensures IsDigit(c) ==> 0 <= ValueOf(c) < 10 && DigitOf(ValueOf(c)) == c
    ensures 0 <= v < 10 ==> IsDigit(DigitOf(v)) && ValueOf(DigitOf(v)) == v
  {
  }

  lemma ParseOfOctetText(o: Octet)
    ensures ParseOctet(OctetText(o)) == Parsed(o)
  {
    if o >= 100 {
      DigitOfValue('0', o / 100);
    }
    if o >= 10 {
      DigitOfValue('0', o / 10 % 10);
    }
    DigitOfValue('0', o % 10);
  }

  lemma OctetTextOfParse(s: GoString, o: Octet)
    requires ParseOctet(s) == Parsed(o)
    ensures s == OctetText(o)
  {
    DigitOfValue(s[0], 0);
    DigitOfValue(s[|s| - 1], 0);
    DigitOfValue(s[|s| / 2], 0);
    if |s| == 2 {
      assert o / 10 == ValueOf(s[0]) && o % 10 == ValueOf(s[1]);
    } else if |s| == 3 {
      assert o / 100 == ValueOf(s[0]) && o / 10 % 10 == ValueOf(s[1]) && o % 10 == ValueOf(s[2]);
    }
  }

  lemma OctetTextIsCanonical(s: GoString, o: Octet)
    ensures ParseOctet(s) == Parsed(o) <==> s == OctetText(o)
  {
    ParseOfOctetText(o);
    if ParseOctet(s) == Parsed(o) {
      OctetTextOfParse(s, o);
    }
  }

  function OctetTexts(o: seq<Octet>): (fields: seq<GoString>)
    ensures |fields| == |o| && forall i :: 0 <= i < |o| ==> fields[i] == OctetText(o[i])
  {
    if o == [] then [] else [OctetText(o[0])] + OctetTexts(o[1..])
  }

  function Format(ip: Ip): GoString {
    Join(OctetTexts([ip.a, ip.b, ip.c, ip.d]), '.')
  }

  /** Every field as an octet, if all of them are. */
  function ParseOctets(fields: seq<GoString>): (o: Parsed<seq<Octet>>)
    ensures o.Parsed? ==> |o.value| == |fields|
  {
    if fields == [] then Parsed([]) else
    var first, rest := ParseOctet(fields[0]), ParseOctets(fields[1..]);
    if first.Malformed? || rest.Malformed? then Malformed else Parsed([first.value] + rest.value)
  }

  lemma {:induction false} OctetsAreCanonical(fields: seq<GoString>, o: seq<Octet>)
    ensures ParseOctets(fields) == Parsed(o) <==> fields == OctetTexts(o)
  {
    if fields != [] && o != [] {
      OctetTextIsCanonical(fields[0], o[0]);
      OctetsAreCanonical(fields[1..], o[1..]);
      assert o == [o[0]] + o[1..];
      assert fields == [fields[0]] + fields[1..];
      if ParseOctets(fields) == Parsed(o) {
        assert [ParseOctet(fields[0]).value][..] == o[..1] && ParseOctets(fields[1..]).value == o[1..];
      }
      if fields == OctetTexts(o) {
        assert fields[1..] == OctetTexts(o)[1..] == OctetTexts(o[1..]);
      }
    }
  }

  function ParseIPv4(s: GoString): Parsed<Ip> {
    var o := ParseOctets(Split(s, '.'));
    if o.Malformed? || |o.value| != 4 then Malformed
    else Parsed(Ip(o.value[0], o.value[1], o.value[2], o.value[3]))
  }

  lemma {:induction false} DigitsHaveNo(s: GoString, sep: Byte)
    requires AllDigits(s) && !IsDigit(sep)
    ensures !Contains(s, sep)
  {
    IndexOfIsFirst(s, sep);
  }

  lemma OctetTextHasNo(o: Octet, sep: Byte)
    requires !IsDigit(sep)
    ensures AllDigits(OctetText(o)) && !Contains(OctetText(o), sep)
  {
    DigitsHaveNo(OctetText(o), sep);
  }

  lemma ParseOfFormat(ip: Ip)
    ensures ParseIPv4(Format(ip)) == Parsed(ip)
  {
    var o := [ip.a, ip.b, ip.c, ip.d];
    forall i | 0 <= i < 4 ensures !Contains(OctetTexts(o)[i], '.') {
      OctetTextHasNo(o[i], '.');
    }
    SplitJoin(OctetTexts(o), '.');
    OctetsAreCanonical(OctetTexts(o), o);
  }

  lemma FormatOfParse(s: GoString, ip: Ip)
    requires ParseIPv4(s) == Parsed(ip)
    ensures s == Format(ip)
  {
    var o := ParseOctets(Split(s, '.')).value;
    assert o == [ip.a, ip.b, ip.c, ip.d];
    OctetsAreCanonical(Split(s, '.'), o);
    JoinSplit(s, '.');
  }

  /** The dotted quads Go accepts are exactly the ones it prints. */
  lemma DottedQuadIsCanonical(s: GoString, ip: Ip)
    ensures ParseIPv4(s) == Parsed(ip) <==> s == Format(ip)
  {
    ParseOfFormat(ip);
    if ParseIPv4(s) == Parsed(ip) {
      FormatOfParse(s, ip);
    }
  }

  /** The text of an address: no white space at its ends, and no slash. */
  lemma AddressText(ip: Ip)
    ensures ParseIPv4(Format(ip)) == Parsed(ip) && Format(ip) != ""
    ensures TrimSpace(Format(ip)) == Format(ip) && !IsSpace(Format(ip)[0]) && !Contains(Format(ip), '/')
  {
    ParseOfFormat(ip);
    OctetTextHasNo(ip.a, '/');
    OctetTextHasNo(ip.b, '/');
    OctetTextHasNo(ip.c, '/');
    OctetTextHasNo(ip.d, '/');
    var c := OctetText(ip.c) + ['.'] + OctetText(ip.d);
    var b := OctetText(ip.b) + ['.'] + c;
    JoinFour(OctetText(ip.a), OctetText(ip.b), OctetText(ip.c), OctetText(ip.d), '.');
    assert OctetTexts([ip.a, ip.b, ip.c, ip.d]) == [OctetText(ip.a), OctetText(ip.b), OctetText(ip.c), OctetText(ip.d)];
    NoneInConcat(OctetText(ip.c), OctetText(ip.d), '/');
    NoneInConcat(OctetText(ip.b), c, '/');
    NoneInConcat(OctetText(ip.a), b, '/');
    assert Format(ip)[0] == OctetText(ip.a)[0];
    assert Format(ip)[|Format(ip)| - 1] == OctetText(ip.d)[|OctetText(ip.d)| - 1];
    assert Trimmed(Format(ip), IsSpace);
  }

  lemma NoneInConcat(a: GoString, b: GoString, sep: Byte)
    requires !Contains(a, sep) && !Contains(b, sep) && sep != '.'
    ensures !Contains(a + ['.'] + b, sep)
  {
    assert a + ['.'] + b == a + (['.'] + b);
    IndexOfConcat(['.'], b, sep);
    IndexOfConcat(a, ['.'] + b, sep);
  }

  // ----- words, bits and masks

  function Uint32(ip: Ip): (w: int)
    ensures 0 <= w < 0x1_0000_0000
  {
    ((ip.a * 256 + ip.b) * 256 + ip.c) * 256 + ip.d
  }

  lemma LastByte(p: int, q: int, x: Octet, y: Octet)
    ensures p * 256 + x == q * 256 + y <==> p == q && x == y
  {
  }

  lemma Uint32IsInjective(x: Ip, y: Ip)
    ensures Uint32(x) == Uint32(y) <==> x == y
  {
    LastByte(x.a, y.a, x.b, y.b);
    LastByte(x.a * 256 + x.b, y.a * 256 + y.b, x.c, y.c);
    LastByte((x.a * 256 + x.b) * 256 + x.c, (y.a * 256 + y.b) * 256 + y.c, x.d, y.d);
  }

  function Pow2(n: nat): (p: nat)
    ensures p >= 1
  {
    if n == 0 then 1 else 2 * Pow2(n - 1)
  }

  function Bit(x: nat, i: nat): bool {
    if i == 0 then x % 2 == 1 else Bit(x / 2, i - 1)
  }

  function BitAnd(x: nat, y: nat, width: nat): nat {
    if width == 0 then 0
    else (if x % 2 == 1 && y % 2 == 1 then 1 else 0) + 2 * BitAnd(x / 2, y / 2, width - 1)
  }

  function BitOr(x: nat, y: nat, width: nat): nat {
    if width == 0 then 0
    else (if x % 2 == 1 || y % 2 == 1 then 1 else 0) + 2 * BitOr(x / 2, y / 2, width - 1)
  }

  lemma {:induction false} BitAndBound(x: nat, y: nat, width: nat)
    ensures BitAnd(x, y, width) < Pow2(width)
  {
    if width > 0 { BitAndBound(x / 2, y / 2, width - 1); }
  }

  function AndOctet(x: Octet, y: Octet): Octet {
    BitAndBound(x, y, 8);
    assert Pow2(8) == 256 by { assert Pow2(4) == 16; }
    BitAnd(x, y, 8)
  }

  /** `net.IP.Mask`. */
  function Masked(ip: Ip, mask: Ip): Ip {
    Ip(AndOctet(ip.a, mask.a), AndOctet(ip.b, mask.b), AndOctet(ip.c, mask.c), AndOctet(ip.d, mask.d))
  }

  /** One byte of a mask whose first `ones` bits, counted from this byte, are set. */
  function MaskOctet(ones: int): Octet {
    if ones >= 8 then 255
    else if ones <= 0 then 0
    else [128, 192, 224, 240, 248, 252, 254][ones - 1]
  }

  /** `net.CIDRMask(prefix, 32)`. */
  function CIDRMask(prefix: nat): Ip {
    Ip(MaskOctet(prefix), MaskOctet(prefix - 8), MaskOctet(prefix - 16), MaskOctet(prefix - 24))
  }

  /** How many addresses a prefix leaves open. */
  function BlockSize(prefix: nat): nat
    requires prefix <= 32
  {
    Pow2(32 - prefix)
  }

  function Shl(x: nat, k: nat): nat {
    if k == 0 then x else 2 * Shl(x, k - 1)
  }

  function Shr(x: nat, k: nat): nat {
    if k == 0 then x else Shr(x / 2, k - 1)
  }

  /** Doubling and adding a digit, undone. */
  lemma Doubled(x: nat, a: nat, l: nat)
    requires x == 2 * a + l
    ensures x / 2 == a + l / 2 && x % 2 == l % 2
  {
  }

  lemma {:induction false} BitAndSplits(h: nat, l: nat, mh: nat, ml: nat, n: nat, k: nat)
    requires l < Pow2(k) && ml < Pow2(k)
    ensures BitAnd(Shl(h, k) + l, Shl(mh, k) + ml, n + k) == Shl(BitAnd(h, mh, n), k) + BitAnd(l, ml, k)
  {
    if k > 0 {
      Doubled(Shl(h, k) + l, Shl(h, k - 1), l);
      Doubled(Shl(mh, k) + ml, Shl(mh, k - 1), ml);
      BitAndSplits(h, l / 2, mh, ml / 2, n, k - 1);
    }
  }

  lemma ByteShift(x: nat)
    ensures Pow2(8) == 256 && Shl(x, 8) == 256 * x
  {
    assert Shl(x, 1) == 2 * x;
    assert Shl(x, 2) == 4 * x;
    assert Shl(x, 4) == 4 * Shl(x, 2);
    assert Shl(x, 6) == 4 * Shl(x, 4);
  }

  /** Masking byte by byte is the conjunction of the words. */
  lemma MaskedIsWordAnd(ip: Ip, mask: Ip)
    ensures Uint32(Masked(ip, mask)) == BitAnd(Uint32(ip), Uint32(mask), 32)
  {
    var x2, m2 := ip.a * 256 + ip.b, mask.a * 256 + mask.b;
    var r2 := AndOctet(ip.a, mask.a) * 256 + AndOctet(ip.b, mask.b);
    assert BitAnd(x2, m2, 16) == r2 by {
      BitAndByte(ip.a, ip.b, mask.a, mask.b, 8);
    }
    LowWordAnd(x2, m2, r2, ip.c, ip.d, mask.c, mask.d);
  }

  lemma LowWordAnd(x: nat, m: nat, r: nat, c: Octet, d: Octet, mc: Octet, md: Octet)
    requires BitAnd(x, m, 16) == r
    ensures BitAnd((x * 256 + c) * 256 + d, (m * 256 + mc) * 256 + md, 32) == (r * 256 + AndOctet(c, mc)) * 256 + AndOctet(d, md)
  {
    BitAndByte(x, c, m, mc, 16);
    BitAndByte(x * 256 + c, d, m * 256 + mc, md, 24);
  }

  lemma BitAndByte(h: nat, l: Octet, mh: nat, ml: Octet, n: nat)
    ensures BitAnd(h * 256 + l, mh * 256 + ml, n + 8) == BitAnd(h, mh, n) * 256 + AndOctet(l, ml)
  {
    ByteShift(h);
    ByteShift(mh);
    ByteShift(BitAnd(h, mh, n));
    BitAndSplits(h, l, mh, ml, n, 8);
  }

  /** A mask of leading ones clears the bits below them. */
  lemma {:induction false} LeadingOnesClear(x: nat, k: nat, width: nat)
    requires k <= width && x < Pow2(width)
    ensures Pow2(k) <= Pow2(width)
    ensures BitAnd(x, Pow2(width) - Pow2(k), width) == Shl(Shr(x, k), k)
  {
    if width > 0 {
      LeadingOnesClear(x / 2, if k == 0 then 0 else k - 1, width - 1);
    }
  }

  lemma Halved(x: nat, a: nat, p: nat)
    ensures 2 * a <= x < 2 * a + 2 * p <==> a <= x / 2 < a + p
  {
  }

  lemma {:induction false} ShiftBounds(x: nat, y: nat, k: nat)
    ensures Shl(y, k) <= x < Shl(y, k) + Pow2(k) <==> Shr(x, k) == y
  {
    if k > 0 {
      ShiftBounds(x / 2, y, k - 1);
      Halved(x, Shl(y, k - 1), Pow2(k - 1));
    }
  }

  lemma {:induction false} ShlIsTimes(y: nat, k: nat)
    ensures Shl(y, k) == y * Pow2(k)
  {
    if k > 0 {
      ShlIsTimes(y, k - 1);
      TwiceTimes(y, Pow2(k - 1));
    }
  }

  lemma TwiceTimes(y: nat, p: nat)
    ensures 2 * (y * p) == y * (2 * p)
  {
  }

  lemma MulAtLeast(d: int, p: int)
    requires p >= 1
    ensures d >= 1 ==> d * p >= p
    ensures d <= -1 ==> d * p <= -p
  {
    if d >= 1 {
      assert (d - 1) * p >= 0;
    } else if d <= -1 {
      assert (d + 1) * p <= 0;
    }
  }

  lemma ShrIsDivision(x: nat, k: nat)
    ensures Shr(x, k) == x / Pow2(k) && Shl(Shr(x, k), k) == x / Pow2(k) * Pow2(k)
  {
    ShiftBounds(x, Shr(x, k), k);
    ShlIsTimes(Shr(x, k), k);
    QuotientIs(x, Shr(x, k), Pow2(k));
  }

  lemma QuotientIs(x: nat, q: nat, p: nat)
    requires p >= 1 && q * p <= x < q * p + p
    ensures x / p == q
  {
    var d := x / p - q;
    assert d * p == x / p * p - q * p;
    assert x / p * p + x % p == x;
    MulAtLeast(d, p);
  }

  lemma MaskOctetValue(ones: int)
    requires 0 <= ones <= 8
    ensures MaskOctet(ones) == 256 - Pow2(8 - ones)
  {
    assert Pow2(0) == 1 && Pow2(1) == 2 && Pow2(2) == 4;
    assert Pow2(3) == 8 && Pow2(4) == 16 && Pow2(5) == 32;
    assert Pow2(6) == 64 && Pow2(7) == 128 && Pow2(8) == 256;
  }

  lemma Pow2Byte(n: nat)
    ensures Pow2(n + 8) == 256 * Pow2(n)
  {
    assert Pow2(n + 2) == 4 * Pow2(n);
    assert Pow2(n + 4) == 4 * Pow2(n + 2);
    assert Pow2(n + 6) == 4 * Pow2(n + 4);
  }

  /** A word of full bytes, one partial byte that leaves `r` bits open, and empty bytes. */
  lemma PartialByte(r: nat)
    requires r <= 8
    ensures MaskOctet(8 - r) == 256 - Pow2(r)
    ensures Pow2(r + 8) == 0x100 * Pow2(r) && Pow2(r + 16) == 0x1_0000 * Pow2(r) && Pow2(r + 24) == 0x100_0000 * Pow2(r)
  {
    MaskOctetValue(8 - r);
    Pow2Byte(r);
    Pow2Byte(r + 8);
    Pow2Byte(r + 16);
  }

  lemma MaskWord(prefix: nat)
    requires prefix <= 32
    ensures Uint32(CIDRMask(prefix)) == 0x1_0000_0000 - BlockSize(prefix)
  {
    if prefix <= 8 {
      PartialByte(8 - prefix);
      assert CIDRMask(prefix) == Ip(256 - Pow2(8 - prefix), 0, 0, 0);
    } else if prefix <= 16 {
      PartialByte(16 - prefix);
      assert CIDRMask(prefix) == Ip(255, 256 - Pow2(16 - prefix), 0, 0);
    } else if prefix <= 24 {
      PartialByte(24 - prefix);
      assert CIDRMask(prefix) == Ip(255, 255, 256 - Pow2(24 - prefix), 0);
    } else {
      PartialByte(32 - prefix);
      assert CIDRMask(prefix) == Ip(255, 255, 255, 256 - Pow2(32 - prefix));
    }
  }

  /** The network of an address: the largest multiple of the block size not above it. */
  lemma NetworkOf(ip: Ip, prefix: nat)
    requires prefix <= 32
    ensures Uint32(Masked(ip, CIDRMask(prefix))) == Shl(Shr(Uint32(ip), 32 - prefix), 32 - prefix)
    ensures Uint32(Masked(ip, CIDRMask(prefix))) == Uint32(ip) / BlockSize(prefix) * BlockSize(prefix)
  {
    MaskedIsWordAnd(ip, CIDRMask(prefix));
    MaskWord(prefix);
    WordSize();
    LeadingOnesClear(Uint32(ip), 32 - prefix, 32);
    ShrIsDivision(Uint32(ip), 32 - prefix);
  }

  lemma WordSize()
    ensures Pow2(32) == 0x1_0000_0000
  {
    Pow2Byte(0);
    Pow2Byte(8);
    Pow2Byte(16);
    Pow2Byte(24);
  }

  lemma {:induction false} OrWithZero(q: nat, width: nat)
    requires q < Pow2(width)
    ensures BitOr(q, 0, width) == q
  {
    if width > 0 {
      OrWithZero(q / 2, width - 1);
    }
  }

  lemma {:induction false} FillLowBits(q: nat, k: nat, width: nat)
    requires k <= width && Shl(q, k) < Pow2(width)
    ensures BitOr(Shl(q, k), Pow2(k) - 1, width) == Shl(q, k) + Pow2(k) - 1
  {
    if k > 0 {
      Doubled(Shl(q, k), Shl(q, k - 1), 0);
      Doubled(Pow2(k) - 1, Pow2(k - 1) - 1, 1);
      FillLowBits(q, k - 1, width - 1);
    } else {
      OrWithZero(q, width);
    }
  }

  /** The broadcast word, as both implementations compute it from the masked network. */
  function Broadcast(network: Ip, mask: Ip): int {
    BitOr(Uint32(network), 0xFFFF_FFFF - Uint32(mask), 32)
  }

  lemma FillBlock(w: nat, k: nat)
    requires w < 0x1_0000_0000 && k <= 32
    ensures BitOr(Shl(Shr(w, k), k), Pow2(k) - 1, 32) == Shl(Shr(w, k), k) + Pow2(k) - 1
  {
    WordSize();
    ShiftBounds(w, Shr(w, k), k);
    FillLowBits(Shr(w, k), k, 32);
  }

  lemma BroadcastWord(network: int, mask: int, w: nat, k: nat)
    requires w < 0x1_0000_0000 && k <= 32
    requires network == Shl(Shr(w, k), k) && mask == 0x1_0000_0000 - Pow2(k)
    ensures network >= 0 && 0xFFFF_FFFF - mask >= 0
    ensures BitOr(network, 0xFFFF_FFFF - mask, 32) == network + Pow2(k) - 1
  {
    FillBlock(w, k);
  }

  lemma BroadcastOf(ip: Ip, prefix: nat)
    requires prefix <= 32
    ensures var network := Masked(ip, CIDRMask(prefix));
            Broadcast(network, CIDRMask(prefix)) == Uint32(network) + BlockSize(prefix) - 1
  {
    NetworkOf(ip, prefix);
    MaskWord(prefix);
    BroadcastWord(Uint32(Masked(ip, CIDRMask(prefix))), Uint32(CIDRMask(prefix)), Uint32(ip), 32 - prefix);
  }

  lemma {:induction false} ShlIsInjective(x: nat, y: nat, k: nat)
    ensures Shl(x, k) == Shl(y, k) <==> x == y
  {
    if k > 0 {
      ShlIsInjective(x, y, k - 1);
    }
  }

  lemma SameBlock(w: nat, v: nat, k: nat)
    ensures var n := Shl(Shr(w, k), k); Shl(Shr(v, k), k) == n <==> n <= v < n + Pow2(k)
  {
    ShiftBounds(v, Shr(w, k), k);
    ShlIsInjective(Shr(v, k), Shr(w, k), k);
  }

  /** Two addresses share a network exactly when the second is in the first one's block. */
  lemma SameNetwork(ip: Ip, v: Ip, prefix: nat)
    requires prefix <= 32
    ensures var n := Uint32(Masked(ip, CIDRMask(prefix)));
            Masked(v, CIDRMask(prefix)) == Masked(ip, CIDRMask(prefix)) <==> n <= Uint32(v) < n + BlockSize(prefix)
  {
    NetworkOf(ip, prefix);
    NetworkOf(v, prefix);
    Uint32IsInjective(Masked(v, CIDRMask(prefix)), Masked(ip, CIDRMask(prefix)));
    SameBlock(Uint32(ip), Uint32(v), 32 - prefix);
  }
}
