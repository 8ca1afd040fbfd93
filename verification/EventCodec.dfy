/** Decoding of ring-buffer records and naming of destinations (internal/ebpf/collector.go). */
module EventCodec {

  type byte = x: int | 0 <= x < 0x100
  type uint16 = x: int | 0 <= x < 0x1_0000
  type uint32 = x: int | 0 <= x < 0x1_0000_0000
  type uint64 = x: int | 0 <= x < 0x1_0000_0000_0000_0000

  datatype LatencyEvent = LatencyEvent(
    srcIP: uint32, dstIP: uint32, srcPort: uint16, dstPort: uint16, rttNs: uint64, timestampNs: uint64)

  datatype Parsed = Event(event: LatencyEvent) | TooShort(length: nat)

  // ---------- little-endian numbers ----------

  function Power256(n: nat): (p: int)
    ensures p > 0
  {
    if n == 0 then 1 else 0x100 * Power256(n - 1)
  }

  function FromLE(b: seq<byte>): (x: int)
    ensures 0 <= x < Power256(|b|)
  {
    if b == [] then 0 else b[0] + 0x100 * FromLE(b[1..])
  }

  function ToLE(x: int, n: nat): (b: seq<byte>)
    requires 0 <= x < Power256(n)
    ensures |b| == n
  {
    if n == 0 then [] else [x % 0x100] + ToLE(x / 0x100, n - 1)
  }

  lemma {:induction false} FromTo(x: int, n: nat)
    requires 0 <= x < Power256(n)
    ensures FromLE(ToLE(x, n)) == x
  {
    if n > 0 {
      FromTo(x / 0x100, n - 1);
    }
  }

  lemma LowByte(b: byte, x: int)
    ensures (b + 0x100 * x) % 0x100 == b && (b + 0x100 * x) / 0x100 == x
  {
  }

  lemma {:induction false} ToFrom(b: seq<byte>)
    ensures ToLE(FromLE(b), |b|) == b
  {
    if b != [] {
      ToFrom(b[1..]);
      LowByte(b[0], FromLE(b[1..]));
      assert b == [b[0]] + b[1..];
    }
  }

  lemma {:induction false} FromAppend(a: seq<byte>, b: seq<byte>)
    ensures FromLE(a + b) == FromLE(a) + Times(Power256(|a|), FromLE(b))
  {
    if a == [] {
      assert a + b == b;
    } else {
      assert (a + b)[1..] == a[1..] + b;
      FromAppend(a[1..], b);
      Regroup(Power256(|a| - 1), FromLE(b));
    }
  }

  function Times(x: int, y: int): int { x * y }

  lemma Regroup(p: int, x: int)
    ensures 0x100 * Times(p, x) == Times(0x100 * p, x)
  {
  }

  lemma Widths()
    ensures Power256(2) == 0x1_0000
    ensures Power256(4) == 0x1_0000_0000
    ensures Power256(8) == 0x1_0000_0000_0000_0000
  {
    assert Power256(1) == 0x100;
    assert Power256(3) == 0x100_0000;
    assert Power256(5) == 0x100_0000_0000;
    assert Power256(6) == 0x1_0000_0000_0000;
    assert Power256(7) == 0x100_0000_0000_0000;
  }

  // ---------- records ----------

  const RECORD_SIZE := 28

  function ParseLatencyEvent(data: seq<byte>): (r: Parsed)
    ensures r.TooShort? <==> |data| < RECORD_SIZE
  {
    if |data| < RECORD_SIZE then TooShort(|data|)
    else
      Widths();
      Event(LatencyEvent(
        FromLE(data[0..4]), FromLE(data[4..8]), FromLE(data[8..10]), FromLE(data[10..12]),
        FromLE(data[12..20]), FromLE(data[20..28])))
  }

  /** Four bytes, the lowest first, as a number. */
  function Number(a: int, b: int, c: int, d: int): int { a + 0x100 * b + 0x1_0000 * c + 0x100_0000 * d }

  lemma TwoBytes(b: seq<byte>)
    requires |b| == 2
    ensures FromLE(b) == Number(b[0], b[1], 0, 0)
  {
    assert FromLE(b[1..]) == b[1];
  }

  lemma FourBytes(b: seq<byte>)
    requires |b| == 4
    ensures FromLE(b) == Number(b[0], b[1], b[2], b[3])
  {
    assert FromLE(b[3..]) == b[3];
    TwoBytes(b[2..]);
    assert FromLE(b[1..]) == Number(b[1], b[2], b[3], 0);
  }

  lemma EightBytes(b: seq<byte>)
    requires |b| == 8
    ensures FromLE(b) == Number(b[0], b[1], b[2], b[3]) + 0x1_0000_0000 * Number(b[4], b[5], b[6], b[7])
  {
    Widths();
    FourBytes(b[..4]);
    FourBytes(b[4..]);
    FromAppend(b[..4], b[4..]);
    assert b == b[..4] + b[4..];
  }

  /** Where the parser finds each field, byte by byte. */
  lemma FieldsByByte(data: seq<byte>)
    requires |data| >= 28
    ensures ParseLatencyEvent(data).Event?
    ensures var e := ParseLatencyEvent(data).event;
      && e.srcIP == Number(data[0], data[1], data[2], data[3])
      && e.dstIP == Number(data[4], data[5], data[6], data[7])
      && e.srcPort == Number(data[8], data[9], 0, 0)
      && e.dstPort == Number(data[10], data[11], 0, 0)
      && e.rttNs == Number(data[12], data[13], data[14], data[15])
                    + 0x1_0000_0000 * Number(data[16], data[17], data[18], data[19])
      && e.timestampNs == Number(data[20], data[21], data[22], data[23])
                          + 0x1_0000_0000 * Number(data[24], data[25], data[26], data[27])
  {
    FourBytes(data[0..4]);
    FourBytes(data[4..8]);
    TwoBytes(data[8..10]);
    TwoBytes(data[10..12]);
    EightBytes(data[12..20]);
    EightBytes(data[20..28]);
  }

  /** The packed layout the parser reads. */
  function Pack(e: LatencyEvent): (b: seq<byte>)
    ensures |b| == RECORD_SIZE
  {
    Widths();
    ToLE(e.srcIP, 4) + ToLE(e.dstIP, 4) + ToLE(e.srcPort, 2) + ToLE(e.dstPort, 2)
    + ToLE(e.rttNs, 8) + ToLE(e.timestampNs, 8)
  }

  lemma FieldsOf(a: seq<byte>, b: seq<byte>, c: seq<byte>, d: seq<byte>, e: seq<byte>, f: seq<byte>)
    requires |a| == |b| == 4 && |c| == |d| == 2 && |e| == |f| == 8
    ensures var s := a + b + c + d + e + f;
      s[0..4] == a && s[4..8] == b && s[8..10] == c && s[10..12] == d && s[12..20] == e && s[20..28] == f
  {
  }

  lemma JoinFields(s: seq<byte>)
    requires |s| >= RECORD_SIZE
    ensures s[0..4] + s[4..8] + s[8..10] + s[10..12] + s[12..20] + s[20..28] == s[..RECORD_SIZE]
  {
  }

  lemma ParsePack(e: LatencyEvent)
    ensures ParseLatencyEvent(Pack(e)) == Event(e)
  {
    Widths();
    FieldsOf(ToLE(e.srcIP, 4), ToLE(e.dstIP, 4), ToLE(e.srcPort, 2), ToLE(e.dstPort, 2),
             ToLE(e.rttNs, 8), ToLE(e.timestampNs, 8));
    FromTo(e.srcIP, 4);
    FromTo(e.dstIP, 4);
    FromTo(e.srcPort, 2);
    FromTo(e.dstPort, 2);
    FromTo(e.rttNs, 8);
    FromTo(e.timestampNs, 8);
  }

  /** Parsing loses nothing of the first 28 bytes and ignores the rest. */
  lemma PackParse(data: seq<byte>)
    requires |data| >= RECORD_SIZE
    ensures Pack(ParseLatencyEvent(data).event) == data[..RECORD_SIZE]
  {
    Widths();
    ToFrom(data[0..4]);
    ToFrom(data[4..8]);
    ToFrom(data[8..10]);
    ToFrom(data[10..12]);
    ToFrom(data[12..20]);
    ToFrom(data[20..28]);
    JoinFields(data);
  }

  /** The layout a C compiler gives the kernel's struct: four bytes of padding align rtt_ns to offset 16. */
  function Aligned(e: LatencyEvent, padding: seq<byte>): (b: seq<byte>)
    requires |padding| == 4
    ensures |b| == 32
  {
    Widths();
    ToLE(e.srcIP, 4) + ToLE(e.dstIP, 4) + ToLE(e.srcPort, 2) + ToLE(e.dstPort, 2) + padding
    + ToLE(e.rttNs, 8) + ToLE(e.timestampNs, 8)
  }

  lemma HalvesOf(x: uint64)
    ensures Power256(4) == 0x1_0000_0000 && Power256(8) == 0x1_0000_0000_0000_0000
    ensures FromLE(ToLE(x, 8)[..4]) == x % 0x1_0000_0000
    ensures FromLE(ToLE(x, 8)[4..]) == x / 0x1_0000_0000
  {
    Widths();
    var b := ToLE(x, 8);
    FromTo(x, 8);
    FromAppend(b[..4], b[4..]);
    assert b == b[..4] + b[4..];
    SplitUnique(x, FromLE(b[..4]), FromLE(b[4..]));
  }

  lemma SplitUnique(x: int, lo: int, hi: int)
    requires x == lo + Times(0x1_0000_0000, hi) && 0 <= lo < 0x1_0000_0000
    ensures lo == x % 0x1_0000_0000 && hi == x / 0x1_0000_0000
  {
  }

  lemma AlignedRoundTrip(rttNs: uint64, padding: seq<byte>)
    requires |padding| == 4
    ensures Power256(8) == 0x1_0000_0000_0000_0000
    ensures FromLE(padding + ToLE(rttNs, 8)[..4]) == FromLE(padding) + 0x1_0000_0000 * (rttNs % 0x1_0000_0000)
  {
    Widths();
    HalvesOf(rttNs);
    FromAppend(padding, ToLE(rttNs, 8)[..4]);
  }

  lemma SameHalves(pad: uint32, lo: uint32, hi: uint32)
    ensures pad + 0x1_0000_0000 * lo == lo + 0x1_0000_0000 * hi <==> lo == pad && hi == pad
  {
  }

  /** Read from an aligned record, the addresses and ports are right. */
  lemma ParseAlignedFlow(e: LatencyEvent, padding: seq<byte>)
    requires |padding| == 4
    ensures ParseLatencyEvent(Aligned(e, padding)).Event?
    ensures var p := ParseLatencyEvent(Aligned(e, padding)).event;
      p.srcIP == e.srcIP && p.dstIP == e.dstIP && p.srcPort == e.srcPort && p.dstPort == e.dstPort
  {
    Widths();
    AlignedSlices(e, padding);
    FromTo(e.srcIP, 4);
    FromTo(e.dstIP, 4);
    FromTo(e.srcPort, 2);
    FromTo(e.dstPort, 2);
  }

  /** But the round-trip time is the padding followed by the low half of the real one.  It is right exactly
      when both halves equal the padding: with padding zero, only for a round-trip time of zero. */
  lemma ParseAlignedTime(e: LatencyEvent, padding: seq<byte>)
    requires |padding| == 4
    ensures var rtt := ParseLatencyEvent(Aligned(e, padding)).event.rttNs;
      && rtt == FromLE(padding) + 0x1_0000_0000 * (e.rttNs % 0x1_0000_0000)
      && (rtt == e.rttNs <==>
          e.rttNs % 0x1_0000_0000 == FromLE(padding) && e.rttNs / 0x1_0000_0000 == FromLE(padding))
  {
    AlignedSlices(e, padding);
    AlignedRoundTrip(e.rttNs, padding);
    var lo, hi := e.rttNs % 0x1_0000_0000, e.rttNs / 0x1_0000_0000;
    SameHalves(FromLE(padding), lo, hi);
    assert e.rttNs == lo + 0x1_0000_0000 * hi;
  }

  /** Inputs on which it is wrong: every time between zero and about 4.3 seconds, whatever the padding holds. */
  lemma ShortTimesMisread(e: LatencyEvent, padding: seq<byte>)
    requires |padding| == 4 && 0 < e.rttNs < 0x1_0000_0000
    ensures ParseLatencyEvent(Aligned(e, padding)).event.rttNs != e.rttNs
  {
    ParseAlignedTime(e, padding);
  }

  lemma AlignedFields(a: seq<byte>, b: seq<byte>, c: seq<byte>, d: seq<byte>, p: seq<byte>, e: seq<byte>, f: seq<byte>)
    requires |a| == |b| == |p| == 4 && |c| == |d| == 2 && |e| == |f| == 8
    ensures var s := a + b + c + d + p + e + f;
      s[0..4] == a && s[4..8] == b && s[8..10] == c && s[10..12] == d && s[12..20] == p + e[..4]
  {
  }

  lemma AlignedSlices(e: LatencyEvent, padding: seq<byte>)
    requires |padding| == 4
    ensures Power256(4) == 0x1_0000_0000 && Power256(2) == 0x1_0000 && Power256(8) == 0x1_0000_0000_0000_0000
    ensures var b := Aligned(e, padding);
      && b[0..4] == ToLE(e.srcIP, 4) && b[4..8] == ToLE(e.dstIP, 4)
      && b[8..10] == ToLE(e.srcPort, 2) && b[10..12] == ToLE(e.dstPort, 2)
      && b[12..20] == padding + ToLE(e.rttNs, 8)[..4]
  {
    Widths();
    AlignedFields(ToLE(e.srcIP, 4), ToLE(e.dstIP, 4), ToLE(e.srcPort, 2), ToLE(e.dstPort, 2), padding,
                  ToLE(e.rttNs, 8), ToLE(e.timestampNs, 8));
  }

  // ---------- names of destinations ----------

  function Digit(d: int): (c: char)
    requires 0 <= d < 10
    ensures c != '.'
  {
    ['0', '1', '2', '3', '4', '5', '6', '7', '8', '9'][d]
  }

  function Decimal(n: nat): (s: string)
    ensures s != [] && '.' !in s
  {
    if n < 10 then [Digit(n)] else Decimal(n / 10) + [Digit(n % 10)]
  }

  lemma {:induction false} DecimalInjective(m: nat, n: nat)
    requires Decimal(m) == Decimal(n)
    ensures m == n
  {
    var s := Decimal(m);
    assert s[|s| - 1] == Digit(m % 10) && s[|s| - 1] == Digit(n % 10);
    DigitInjective(m % 10, n % 10);
    assert m >= 10 <==> n >= 10;
    if m >= 10 {
      assert s[..|s| - 1] == Decimal(m / 10);
      assert s[..|s| - 1] == Decimal(n / 10);
      DecimalInjective(m / 10, n / 10);
    }
  }

  lemma DigitInjective(d: int, e: int)
    requires 0 <= d < 10 && 0 <= e < 10 && Digit(d) == Digit(e)
    ensures d == e
  {
  }

  lemma FirstDot(a: string, x: string)
    requires '.' !in a
    ensures forall k :: 0 <= k < |a| ==> (a + "." + x)[k] != '.'
    ensures (a + "." + x)[|a|] == '.'
  {
  }

  lemma DotSplits(a: string, x: string, b: string, y: string)
    requires '.' !in a && '.' !in b
    requires a + "." + x == b + "." + y
    ensures a == b && x == y
  {
    var s := a + "." + x;
    FirstDot(a, x);
    FirstDot(b, y);
    assert a == s[..|a|] && b == s[..|b|];
    assert x == s[|a| + 1..] && y == s[|b| + 1..];
  }

  /** Dotted decimal, as IPv4address in section 3.2.2 of RFC 3986. */
  function Dotted(b: seq<byte>): string
    requires |b| == 4
  {
    Decimal(b[0]) + "." + (Decimal(b[1]) + "." + (Decimal(b[2]) + "." + Decimal(b[3])))
  }

  lemma DottedInjective(a: seq<byte>, b: seq<byte>)
    requires |a| == |b| == 4 && Dotted(a) == Dotted(b)
    ensures a == b
  {
    var a3, b3 := Decimal(a[2]) + "." + Decimal(a[3]), Decimal(b[2]) + "." + Decimal(b[3]);
    DotSplits(Decimal(a[0]), Decimal(a[1]) + "." + a3, Decimal(b[0]), Decimal(b[1]) + "." + b3);
    DotSplits(Decimal(a[1]), a3, Decimal(b[1]), b3);
    DotSplits(Decimal(a[2]), Decimal(a[3]), Decimal(b[2]), Decimal(b[3]));
    DecimalInjective(a[0], b[0]);
    DecimalInjective(a[1], b[1]);
    DecimalInjective(a[2], b[2]);
    DecimalInjective(a[3], b[3]);
  }

  /** The dotted decimal of the bytes in memory order. */
  function UInt32ToIP(ip: uint32): string {
    Widths();
    Dotted(ToLE(ip, 4))
  }

  /** Distinct destinations have distinct names, so they never share a sample window. */
  lemma UInt32ToIPInjective(x: uint32, y: uint32)
    requires UInt32ToIP(x) == UInt32ToIP(y)
    ensures x == y
  {
    Widths();
    DottedInjective(ToLE(x, 4), ToLE(y, 4));
    FromTo(x, 4);
    FromTo(y, 4);
  }

  // ---------- what a name says ----------

  predicate IsDigits(s: string) { s != [] && forall i :: 0 <= i < |s| ==> '0' <= s[i] <= '9' }

  /** The number that a string of decimal digits denotes. */
  function Reading(s: string): nat
    requires forall i :: 0 <= i < |s| ==> '0' <= s[i] <= '9'
  {
    if s == [] then 0 else 10 * Reading(s[..|s| - 1]) + (s[|s| - 1] as int - '0' as int)
  }

  /** No sign, no padding, and the right number. */
  predicate Denotes(s: string, n: int) {
    && IsDigits(s) && Reading(s) == n
    && (|s| > 1 ==> s[0] != '0')
  }

  lemma DigitReads(d: int)
    requires 0 <= d < 10
    ensures '0' <= Digit(d) <= '9' && Digit(d) as int - '0' as int == d
  {
  }

  lemma {:induction false} DecimalReads(n: nat)
    ensures Denotes(Decimal(n), n)
  {
    DigitReads(n % 10);
    if n < 10 {
      assert [Digit(n)][..0] == [];
    } else {
      DecimalReads(n / 10);
      var s := Decimal(n);
      assert s[..|s| - 1] == Decimal(n / 10);
      DecimalStarts(n / 10);
      assert s[0] == Decimal(n / 10)[0];
    }
  }

  lemma {:induction false} DecimalStarts(n: nat)
    requires n > 0
    ensures Decimal(n)[0] != '0'
  {
    if n >= 10 {
      DecimalStarts(n / 10);
    }
  }

  lemma DotsAssociate(a: string, b: string, c: string, d: string)
    ensures a + "." + (b + "." + (c + "." + d)) == a + "." + b + "." + c + "." + d
  {
  }

  /** The name of an address given by its bytes: each in decimal, in their order, between dots. */
  lemma NameOfBytes(b: seq<byte>) returns (a: seq<string>)
    requires |b| == 4
    ensures Power256(4) == 0x1_0000_0000 && |a| == 4
    ensures UInt32ToIP(FromLE(b)) == a[0] + "." + a[1] + "." + a[2] + "." + a[3]
    ensures Denotes(a[0], b[0]) && Denotes(a[1], b[1]) && Denotes(a[2], b[2]) && Denotes(a[3], b[3])
  {
    Widths();
    ToFrom(b);
    a := [Decimal(b[0]), Decimal(b[1]), Decimal(b[2]), Decimal(b[3])];
    DecimalReads(b[0]);
    DecimalReads(b[1]);
    DecimalReads(b[2]);
    DecimalReads(b[3]);
    DotsAssociate(a[0], a[1], a[2], a[3]);
  }

  /** A destination's name is four numbers in decimal between dots, the lowest byte of the address first. */
  lemma NameReads(ip: uint32) returns (a: seq<string>, b: seq<byte>)
    ensures |a| == 4 && |b| == 4
    ensures UInt32ToIP(ip) == a[0] + "." + a[1] + "." + a[2] + "." + a[3]
    ensures Denotes(a[0], b[0]) && Denotes(a[1], b[1]) && Denotes(a[2], b[2]) && Denotes(a[3], b[3])
    ensures ip == Number(b[0], b[1], b[2], b[3])
  {
    Widths();
    b := ToLE(ip, 4);
    FromTo(ip, 4);
    FourBytes(b);
    a := NameOfBytes(b);
  }

  /** The name under which a record's sample is filed: bytes 4 to 7 of the record, in that order. */
  lemma RecordName(data: seq<byte>) returns (a: seq<string>)
    requires |data| >= 28
    ensures ParseLatencyEvent(data).Event? && |a| == 4
    ensures UInt32ToIP(ParseLatencyEvent(data).event.dstIP) == a[0] + "." + a[1] + "." + a[2] + "." + a[3]
    ensures Denotes(a[0], data[4]) && Denotes(a[1], data[5]) && Denotes(a[2], data[6]) && Denotes(a[3], data[7])
  {
    a := NameOfBytes(data[4..8]);
  }
}
