/** Segment arithmetic on 64-bit positions, and the names of segment files. */
module XLog {
  import opened Arith
  import opened Bytes
  import opened Strings

  const WORD := 0x1_0000_0000
  const UINT64 := 0x1_0000_0000_0000_0000
  const WAL_SEG_MIN_SIZE := 1024 * 1024
  const WAL_SEG_MAX_SIZE := 1024 * 1024 * 1024
  const PARTIAL_SUFFIX := ".partial"

  // ---- powers of two ----

  /** Bitwise and of two unsigned numbers. */
  function And(x: nat, y: nat): (a: nat)
    ensures a <= x && a <= y
  {
    if x == 0 || y == 0 then 0
    else 2 * And(x / 2, y / 2) + if x % 2 == 1 && y % 2 == 1 then 1 else 0
  }

  function Pow2(k: nat): (p: nat)
    ensures p > 0
  {
    if k == 0 then 1 else 2 * Pow2(k - 1)
  }

  lemma {:induction false} AndMask(x: nat, k: nat)
    ensures And(x, Pow2(k) - 1) == x % Pow2(k)
    decreases k
  {
    if k > 0 && x > 0 {
      AndMask(x / 2, k - 1);
      var h := Pow2(k - 1);
      assert (Pow2(k) - 1) / 2 == h - 1 && (Pow2(k) - 1) % 2 == 1;
      ModByDouble(x, h);
    } else if k > 0 {
      assert 0 % Pow2(k) == 0;
    }
  }

  lemma ModByDouble(x: nat, h: nat)
    requires h > 0
    ensures x % (2 * h) == 2 * (x / 2 % h) + x % 2
  {
    var q, r := x / 2 / h, x / 2 % h;
    assert x / 2 == q * h + r;
    assert x == q * (2 * h) + (2 * r + x % 2);
    DivModUnique(2 * h, q, 2 * r + x % 2, x);
  }

  predicate IsPowerOf2(x: nat) {
    x > 0 && And(x, x - 1) == 0
  }

  lemma {:induction false} AndSelf(x: nat)
    ensures And(x, x) == x
  {
    if x > 0 { AndSelf(x / 2); }
  }

  lemma OddIsNoPower(x: nat)
    requires x > 1 && IsPowerOf2(x)
    ensures x % 2 == 0
  {
    if x % 2 == 1 {
      assert (x - 1) / 2 == x / 2 && (x - 1) % 2 == 0;
      AndSelf(x / 2);
    }
  }

  lemma {:induction false} PowerOf2Exponent(x: nat) returns (k: nat)
    requires IsPowerOf2(x)
    ensures x == Pow2(k)
  {
    if x == 1 {
      k := 0;
    } else {
      OddIsNoPower(x);
      assert (x - 1) / 2 == x / 2 - 1;
      var j := PowerOf2Exponent(x / 2);
      k := j + 1;
    }
  }

  /** The bit trick is right: it accepts exactly the powers of two. */
  lemma PowerOf2Exactly(x: nat)
    ensures IsPowerOf2(x) <==> exists k :: x == Pow2(k)
  {
    if IsPowerOf2(x) { var k := PowerOf2Exponent(x); }
    if k :| x == Pow2(k) { Pow2Accepted(k); }
  }

  lemma Pow2Accepted(k: nat)
    ensures IsPowerOf2(Pow2(k))
  {
    AndMask(Pow2(k), k);
    DivModUnique(Pow2(k), 1, 0, Pow2(k));
  }

  predicate IsValidWalSegSize(size: nat) {
    IsPowerOf2(size) && WAL_SEG_MIN_SIZE <= size <= WAL_SEG_MAX_SIZE
  }

  // ---- positions ----

  function ByteToSeg(lsn: nat, w: nat): nat
    requires w > 0
  {
    lsn / w
  }

  function SegmentOffset(lsn: nat, w: nat): nat
    requires w > 0
  {
    And(lsn, w - 1)
  }

  function SegmentsPerXLogId(w: nat): (n: nat)
    requires 0 < w <= WORD
    ensures 0 < n <= WORD
  {
    SizeInWord(w);
    WORD / w
  }

  lemma SizeInWord(w: nat)
    requires 0 < w <= WORD
    ensures 0 < WORD / w <= WORD
  {
  }

  /** Go multiplies 64-bit numbers: the product wraps around. */
  function SegNoToRecPtr(segno: nat, w: nat): nat {
    segno * w % UINT64
  }

  lemma {:induction false} Pow2Divides(a: nat, b: nat)
    requires a <= b
    ensures Pow2(b) == Pow2(b - a) * Pow2(a)
    decreases a
  {
    if a > 0 {
      Pow2Divides(a - 1, b - 1);
      DoubleProduct(Pow2(b - a), Pow2(a - 1));
    }
  }

  lemma DoubleProduct(x: nat, y: nat)
    ensures 2 * (x * y) == x * (2 * y)
  {
  }

  lemma {:induction false} Pow2Grows(a: nat, b: nat)
    requires a <= b
    ensures Pow2(a) <= Pow2(b)
  {
    if a < b { Pow2Grows(a, b - 1); }
  }

  lemma Pow2Of32()
    ensures Pow2(32) == WORD
  {
    assert Pow2(8) == 256;
    Pow2Divides(8, 16);
    Pow2Divides(16, 32);
  }

  /** A valid segment size divides 2^32 without remainder. */
  lemma SegSizeDivides(w: nat)
    requires IsValidWalSegSize(w)
    ensures SegmentsPerXLogId(w) * w == WORD
  {
    var k := PowerOf2Exponent(w);
    Pow2Of32();
    if k > 32 { Pow2Grows(33, k); }
    Pow2Divides(k, 32);
    DivModUnique(w, Pow2(32 - k), 0, WORD);
  }

  lemma OffsetIsRemainder(lsn: nat, w: nat)
    requires IsValidWalSegSize(w)
    ensures SegmentOffset(lsn, w) == lsn % w
  {
    var k := PowerOf2Exponent(w);
    AndMask(lsn, k);
  }

  lemma StartDoesNotWrap(lsn: nat, w: nat)
    requires w > 0 && lsn < UINT64
    ensures SegNoToRecPtr(lsn / w, w) + lsn % w == lsn
  {
    DivMod(lsn, w);
    SmallMod(lsn / w * w);
  }

  /** Segment start plus masked offset rebuilds the position. */
  lemma LsnRebuilt(lsn: nat, w: nat)
    requires IsValidWalSegSize(w) && lsn < UINT64
    ensures SegmentOffset(lsn, w) < w
    ensures SegNoToRecPtr(ByteToSeg(lsn, w), w) + SegmentOffset(lsn, w) == lsn
  {
    OffsetIsRemainder(lsn, w);
    StartDoesNotWrap(lsn, w);
  }

  lemma SmallMod(n: nat)
    ensures n % UINT64 == n <==> n < UINT64
  {
  }

  /** The start position computed for a segment number is that segment's start exactly as long as the
    * start fits in 64 bits; after that the computation wraps around. */
  lemma RecPtrExact(segno: nat, w: nat)
    ensures SegNoToRecPtr(segno, w) == segno * w <==> segno * w < UINT64
  {
  }

  // ---- hexadecimal numerals ----

  predicate IsUpperHex(c: char) { '0' <= c <= '9' || 'A' <= c <= 'F' }

  predicate IsHex(c: char) { IsUpperHex(c) || 'a' <= c <= 'f' }

  function DigitValue(c: char): (v: nat)
    requires IsHex(c)
    ensures v < 16
  {
    if c <= '9' then c as int - '0' as int
    else if c <= 'F' then c as int - 'A' as int + 10
    else c as int - 'a' as int + 10
  }

  function Digit(v: nat): (c: char)
    requires v < 16
    ensures IsUpperHex(c) && DigitValue(c) == v
  {
    if v < 10 then ('0' as int + v) as char else ('A' as int + v - 10) as char
  }

  /** %0<width>X: at least width digits, more if the number needs them. */
  function Hex(n: nat, width: nat): string
    decreases n, width
  {
    if n == 0 && width == 0 then ""
    else Hex(n / 16, if width == 0 then 0 else width - 1) + [Digit(n % 16)]
  }

  predicate AllHex(s: string) { forall i :: 0 <= i < |s| ==> IsHex(s[i]) }

  predicate AllUpperHex(s: string) { forall i :: 0 <= i < |s| ==> IsUpperHex(s[i]) }

  function Value(s: string): nat
    requires AllHex(s)
  {
    if s == "" then 0 else Value(s[..|s| - 1]) * 16 + DigitValue(s[|s| - 1])
  }

  function Pow16(k: nat): (p: nat)
    ensures p > 0
  {
    if k == 0 then 1 else 16 * Pow16(k - 1)
  }

  lemma {:induction false} HexValue(n: nat, width: nat)
    ensures AllUpperHex(Hex(n, width)) && Value(Hex(n, width)) == n
    ensures |Hex(n, width)| >= width && (|Hex(n, width)| == width <==> n < Pow16(width))
    decreases n, width
  {
    if n > 0 || width > 0 {
      HexValue(n / 16, if width == 0 then 0 else width - 1);
      var h := Hex(n / 16, if width == 0 then 0 else width - 1);
      assert Hex(n, width)[..|h|] == h;
    }
  }

  lemma {:induction false} ValueBound(s: string)
    requires AllHex(s)
    ensures Value(s) < Pow16(|s|)
  {
    if s != "" { ValueBound(s[..|s| - 1]); }
  }

  /** Upper-case numerals of one length are determined by their value. */
  lemma {:induction false} HexOfValue(s: string)
    requires AllUpperHex(s)
    ensures Hex(Value(s), |s|) == s
  {
    if s != "" {
      var h := s[..|s| - 1];
      HexOfValue(h);
      assert Value(s) / 16 == Value(h) && Value(s) % 16 == DigitValue(s[|s| - 1]);
      assert s == h + [s[|s| - 1]];
    }
  }

  lemma UpperValue(s: string)
    requires AllHex(s)
    ensures AllUpperHex(ToUpper(s)) && Value(ToUpper(s)) == Value(s)
  {
    var u := ToUpper(s);
    if s != "" {
      UpperValue(s[..|s| - 1]);
      assert u[..|s| - 1] == ToUpper(s[..|s| - 1]);
    }
  }

  lemma DigitOrder(c: char, d: char)
    requires IsUpperHex(c) && IsUpperHex(d)
    ensures Less([c], [d]) <==> DigitValue(c) < DigitValue(d)
    ensures c == d <==> DigitValue(c) == DigitValue(d)
  {
  }

  lemma ValueOf(h: string, c: char)
    requires AllUpperHex(h) && IsUpperHex(c)
    ensures AllUpperHex(h + [c]) && Value(h + [c]) == Value(h) * 16 + DigitValue(c)
  {
    assert (h + [c])[..|h|] == h;
  }

  /** Numerals of one length are ordered like their values. */
  lemma {:induction false} NumeralOrder(a: string, b: string)
    requires AllUpperHex(a) && AllUpperHex(b) && |a| == |b|
    ensures Less(a, b) <==> Value(a) < Value(b)
    ensures a == b <==> Value(a) == Value(b)
    decreases |a|
  {
    if a != "" {
      var n := |a| - 1;
      NumeralOrder(a[..n], b[..n]);
      assert a == a[..n] + [a[n]] && b == b[..n] + [b[n]];
      NumeralOrderStep(a[..n], a[n], b[..n], b[n]);
    }
  }

  lemma NumeralOrderStep(x: string, c: char, y: string, d: char)
    requires AllUpperHex(x) && AllUpperHex(y) && |x| == |y| && IsUpperHex(c) && IsUpperHex(d)
    requires (Less(x, y) <==> Value(x) < Value(y)) && (x == y <==> Value(x) == Value(y))
    ensures AllUpperHex(x + [c]) && AllUpperHex(y + [d])
    ensures Less(x + [c], y + [d]) <==> Value(x + [c]) < Value(y + [d])
    ensures x + [c] == y + [d] <==> Value(x + [c]) == Value(y + [d])
  {
    ValueOf(x, c);
    ValueOf(y, d);
    DigitOrder(c, d);
    LessJoin(x, [c], y, [d]);
    assert x + [c] == y + [d] ==> x == (x + [c])[..|x|] == y && c == (x + [c])[|x|] == d;
  }

  /** strconv.ParseUint in base 16, for numerals that fit. */
  function ParseHex(s: string): Option<nat> {
    if s != "" && AllHex(s) then Some(Value(s)) else None
  }

  // ---- segment file names ----

  function XLogFileName(tli: nat, segno: nat, w: nat): string
    requires 0 < w <= WORD
  {
    NameOf(tli, segno, SegmentsPerXLogId(w))
  }

  /** ... with n segments per log id. */
  function NameOf(tli: nat, segno: nat, n: nat): string
    requires n > 0
  {
    Numerals(tli, segno / n, segno % n)
  }

  function Numerals(tli: nat, log: nat, seg: nat): string {
    Hex(tli, 8) + Hex(log, 8) + Hex(seg, 8)
  }

  predicate IsXLogFileName(s: string) {
    |s| == 24 && AllUpperHex(s)
  }

  predicate IsPartialXLogFileName(s: string) {
    |s| == 24 + |PARTIAL_SUFFIX| && AllUpperHex(s[..24]) && s[24..] == PARTIAL_SUFFIX
  }

  /** Length of the longest prefix of upper-case hexadecimal digits. */
  method StrspnHex(s: string) returns (count: nat)
    ensures count <= |s| && AllUpperHex(s[..count])
    ensures count < |s| ==> !IsUpperHex(s[count])
  {
    count := 0;
    while count < |s| && IsUpperHex(s[count])
      invariant count <= |s| && AllUpperHex(s[..count])
    {
      count := count + 1;
    }
  }

  method MatchXLogFileName(fname: string) returns (ok: bool)
    ensures ok <==> IsXLogFileName(fname)
  {
    var n := StrspnHex(fname);
    ok := |fname| == 24 && n == 24;
  }

  method MatchPartialXLogFileName(fname: string) returns (ok: bool)
    ensures ok <==> IsPartialXLogFileName(fname)
  {
    if |fname| != 24 + |PARTIAL_SUFFIX| { return false; }
    var n := StrspnHex(fname[..24]);
    ok := n == 24 && fname[24..] == PARTIAL_SUFFIX;
  }

  datatype SegName = SegName(tli: nat, segno: nat)

  function XLogFromFileName(s: string, w: nat): Option<SegName>
    requires 0 < w <= WORD
  {
    if |s| < 24 then None else
    var tli, log, seg := ParseHex(s[..8]), ParseHex(s[8..16]), ParseHex(s[16..24]);
    if tli.None? || log.None? || seg.None? then None
    else Some(SegName(tli.value, log.value * SegmentsPerXLogId(w) + seg.value))
  }

  /** The segments that a 32-bit timeline and a 64-bit log have room for. */
  predicate InRange(tli: nat, segno: nat, w: nat) {
    tli < WORD && segno * w < UINT64
  }

  lemma Pow16Of8()
    ensures Pow16(8) == WORD
  {
  }

  lemma LogIdFits(segno: nat, log: nat, seg: nat, n: nat, w: nat)
    requires seg < n && w > 0 && n * w == WORD && segno == log * n + seg
    ensures segno * w < UINT64 <==> log < WORD
  {
  }

  lemma SplitSegno(tli: nat, segno: nat, n: nat) returns (log: nat, seg: nat)
    requires n > 0
    ensures seg < n && segno == log * n + seg && NameOf(tli, segno, n) == Numerals(tli, log, seg)
  {
    log, seg := segno / n, segno % n;
    DivMod(segno, n);
  }

  /** The parts of a segment number that its name shows. */
  lemma NameDigits(tli: nat, segno: nat, w: nat) returns (log: nat, seg: nat)
    requires IsValidWalSegSize(w)
    ensures seg < SegmentsPerXLogId(w) && segno == log * SegmentsPerXLogId(w) + seg
    ensures XLogFileName(tli, segno, w) == Numerals(tli, log, seg)
    ensures segno * w < UINT64 <==> log < WORD
  {
    SegSizeDivides(w);
    log, seg := SplitSegno(tli, segno, SegmentsPerXLogId(w));
    LogIdFits(segno, log, seg, SegmentsPerXLogId(w), w);
  }

  lemma NumeralsFit(tli: nat, log: nat, seg: nat)
    ensures IsXLogFileName(Numerals(tli, log, seg)) <==> tli < WORD && log < WORD && seg < WORD
  {
    Pow16Of8();
    HexValue(tli, 8);
    HexValue(log, 8);
    HexValue(seg, 8);
  }

  lemma NumeralsRead(tli: nat, log: nat, seg: nat)
    requires tli < WORD && log < WORD && seg < WORD
    ensures var s := Numerals(tli, log, seg);
      ThreeHexParts(s) && Value(s[..8]) == tli && Value(s[8..16]) == log && Value(s[16..24]) == seg
  {
    Pow16Of8();
    HexValue(tli, 8);
    HexValue(log, 8);
    HexValue(seg, 8);
    var s := Numerals(tli, log, seg);
    assert s[..8] == Hex(tli, 8) && s[8..16] == Hex(log, 8) && s[16..24] == Hex(seg, 8);
  }

  /** Three numerals of eight digits, in either case. */
  predicate ThreeHexParts(s: string) { |s| == 24 && AllHex(s) }

  /** A segment name in either case, with its last part in range. */
  predicate IsSegmentName(s: string, w: nat)
    requires 0 < w <= WORD
  {
    ThreeHexParts(s) && Value(s[16..24]) < SegmentsPerXLogId(w)
  }

  lemma NameReadBack(tli: nat, segno: nat, w: nat)
    requires IsValidWalSegSize(w) && InRange(tli, segno, w)
    ensures IsSegmentName(XLogFileName(tli, segno, w), w)
    ensures XLogFromFileName(XLogFileName(tli, segno, w), w) == Some(SegName(tli, segno))
  {
    var log, seg := NameDigits(tli, segno, w);
    NumeralsRead(tli, log, seg);
  }

  lemma OnlyPrefixRead(s: string, rest: string, w: nat)
    requires 0 < w <= WORD && |s| == 24
    ensures XLogFromFileName(s + rest, w) == XLogFromFileName(s, w)
  {
    assert (s + rest)[..8] == s[..8] && (s + rest)[8..16] == s[8..16] && (s + rest)[16..24] == s[16..24];
  }

  /** Reading a name back gives the timeline and segment it was made from, whatever follows it. */
  lemma NameRoundTrip(tli: nat, segno: nat, w: nat, rest: string)
    requires IsValidWalSegSize(w) && InRange(tli, segno, w)
    ensures IsXLogFileName(XLogFileName(tli, segno, w))
    ensures IsPartialXLogFileName(XLogFileName(tli, segno, w) + PARTIAL_SUFFIX)
    ensures XLogFromFileName(XLogFileName(tli, segno, w) + rest, w) == Some(SegName(tli, segno))
  {
    var name := XLogFileName(tli, segno, w);
    NameWellFormedExactly(tli, segno, w);
    NameReadBack(tli, segno, w);
    OnlyPrefixRead(name, rest, w);
    assert (name + PARTIAL_SUFFIX)[..24] == name;
  }

  /** Exactly the segments of the 64-bit log have a well-formed name. */
  lemma NameWellFormedExactly(tli: nat, segno: nat, w: nat)
    requires IsValidWalSegSize(w)
    ensures IsXLogFileName(XLogFileName(tli, segno, w)) <==> InRange(tli, segno, w)
  {
    var log, seg := NameDigits(tli, segno, w);
    NumeralsFit(tli, log, seg);
  }

  /** Writing a parsed name again gives the same name exactly when its last part is below the number of
    * segments per log id; other names alias a later segment. */
  lemma NameRewritten(s: string, w: nat)
    requires 0 < w <= WORD && IsXLogFileName(s)
    ensures var p := XLogFromFileName(s, w);
      p.Some? && (XLogFileName(p.value.tli, p.value.segno, w) == s <==> Value(s[16..24]) < SegmentsPerXLogId(w))
  {
    RewrittenWith(s, SegmentsPerXLogId(w));
  }

  lemma RewrittenWith(s: string, n: nat)
    requires IsXLogFileName(s) && n > 0
    ensures NameOf(Value(s[..8]), Value(s[8..16]) * n + Value(s[16..24]), n) == s <==> Value(s[16..24]) < n
  {
    var log, seg := SplitSegno(Value(s[..8]), Value(s[8..16]) * n + Value(s[16..24]), n);
    TwoPartsRewritten(s[8..16], s[16..24], log, seg, n);
    Rewritten(s, log, seg);
  }

  lemma Rewritten(s: string, log: nat, seg: nat)
    requires IsXLogFileName(s)
    ensures Numerals(Value(s[..8]), log, seg) == s <==> Hex(log, 8) + Hex(seg, 8) == s[8..16] + s[16..24]
  {
    var a, x := s[..8], Hex(log, 8) + Hex(seg, 8);
    HexOfValue(a);
    assert s == a + (s[8..16] + s[16..24]);
    assert Numerals(Value(a), log, seg) == a + x;
    AppendInjective(a, x, s[8..16] + s[16..24]);
  }

  lemma AppendInjective(a: string, x: string, y: string)
    ensures a + x == a + y <==> x == y
  {
    assert (a + x)[|a|..] == x && (a + y)[|a|..] == y;
  }

  lemma TwoPartsRewritten(b: string, c: string, log: nat, seg: nat, n: nat)
    requires |b| == |c| == 8 && AllUpperHex(b) && AllUpperHex(c)
    requires seg < n && Value(b) * n + Value(c) == log * n + seg
    ensures Hex(log, 8) + Hex(seg, 8) == b + c <==> Value(c) < n
  {
    if Value(c) < n {
      SameDigits(log, seg, Value(b), Value(c), n);
      HexOfValue(b);
      HexOfValue(c);
    } else {
      HexValue(log, 8);
      HexValue(seg, 8);
      PartsDiffer(Hex(log, 8), Hex(seg, 8), b, c);
    }
  }

  lemma PartsDiffer(hi: string, lo: string, b: string, c: string)
    requires |b| == |c| == 8 && |hi| >= 8 && |lo| >= 8 && lo != c
    ensures hi + lo != b + c
  {
    if |hi| == 8 && |lo| == 8 { AppendInjective(hi, lo, c); assert (hi + lo)[8..] == lo && (b + c)[8..] == c; }
  }
}
