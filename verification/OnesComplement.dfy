/** The Internet checksum (RFC 1071), its incremental update (RFC 1624), and the
    two's-complement update the router performs instead. */
module OnesComplement {
  import opened Words

  // -------------------------------------------------- Sums of 16-bit words

  function Sum(ws: seq<u16>): nat {
    if ws == [] then 0 else Sum(ws[..|ws| - 1]) + ws[|ws| - 1]
  }

  /** The 16-bit words of a byte string, an odd last byte padded with zero (RFC 768). */
  function WordsOf(bs: seq<u8>): (ws: seq<u16>)
    ensures |ws| == (|bs| + 1) / 2
  {
    if bs == [] then []
    else if |bs| == 1 then [Be16(bs + [0])]
    else [Be16(bs[..2])] + WordsOf(bs[2..])
  }

  function ByteSum(bs: seq<u8>): nat {
    Sum(WordsOf(bs))
  }

  lemma {:induction false} SumAppend(xs: seq<u16>, ys: seq<u16>)
    ensures Sum(xs + ys) == Sum(xs) + Sum(ys)
  {
    if ys == [] {
      assert xs + ys == xs;
    } else {
      assert (xs + ys)[..|xs + ys| - 1] == xs + ys[..|ys| - 1];
      SumAppend(xs, ys[..|ys| - 1]);
    }
  }

  lemma {:induction false} WordsStep(bs: seq<u8>)
    requires |bs| >= 2
    ensures WordsOf(bs) == [Be16(bs[..2])] + WordsOf(bs[2..])
  {
  }

  lemma {:induction false} WordsAppend(xs: seq<u8>, ys: seq<u8>)
    requires |xs| % 2 == 0
    ensures WordsOf(xs + ys) == WordsOf(xs) + WordsOf(ys)
  {
    if xs == [] {
      assert xs + ys == ys;
    } else {
      assert (xs + ys)[2..] == xs[2..] + ys && (xs + ys)[..2] == xs[..2];
      WordsStep(xs + ys);
      WordsStep(xs);
      WordsAppend(xs[2..], ys);
      Regroup([Be16(xs[..2])], WordsOf(xs[2..]), WordsOf(ys));
    }
  }

  lemma {:induction false} SumOfTwo(x: u16, y: u16)
    ensures Sum([x]) == x && Sum([x, y]) == x + y
  {
  }

  /** Word sums add up over any cut at an even offset. */
  lemma {:induction false} ByteSumAppend(xs: seq<u8>, ys: seq<u8>)
    requires |xs| % 2 == 0
    ensures ByteSum(xs + ys) == ByteSum(xs) + ByteSum(ys)
  {
    WordsAppend(xs, ys);
    SumAppend(WordsOf(xs), WordsOf(ys));
  }

  lemma {:induction false} SumBound(ws: seq<u16>)
    ensures Sum(ws) <= 0xffff * |ws|
  {
    if ws != [] {
      SumBound(ws[..|ws| - 1]);
    }
  }

  // -------------------------------------------------- One's-complement addition

  /** Addition with end-around carry. */
  function OcAdd(x: u16, y: u16): u16 {
    if x + y < 0x1_0000 then x + y else x + y - 0xffff
  }

  /** Word-by-word end-around-carry addition, the definition in RFC 1071 section 1. */
  function OcSum(ws: seq<u16>): u16 {
    if ws == [] then 0 else OcAdd(OcSum(ws[..|ws| - 1]), ws[|ws| - 1])
  }

  /** The one's-complement representative of a true sum: zero only for zero. */
  function Canon(s: nat): u16 {
    if s == 0 then 0 else (s - 1) % 0xffff + 1
  }

  function FoldOnce(x: nat): nat {
    x % 0x1_0000 + x / 0x1_0000
  }

  lemma {:induction false} CanonAdd(s: nat, y: u16)
    ensures OcAdd(Canon(s), y) == Canon(s + y)
  {
  }

  lemma {:induction false} OcSumIsCanon(ws: seq<u16>)
    ensures OcSum(ws) == Canon(Sum(ws))
  {
    if ws != [] {
      OcSumIsCanon(ws[..|ws| - 1]);
      CanonAdd(Sum(ws[..|ws| - 1]), ws[|ws| - 1]);
    }
  }

  /** Deferring every carry and folding twice gives the end-around-carry sum of any 32-bit total. */
  lemma {:induction false} TwoFoldsSuffice(x: u32)
    ensures FoldOnce(FoldOnce(x)) == Canon(x)
  {
  }

  /** A positive sum passes the RFC 1071 test exactly when 65535 divides it. */
  lemma {:induction false} AllOnesIff(ws: seq<u16>)
    ensures OcSum(ws) == 0xffff <==> Sum(ws) > 0 && Sum(ws) % 0xffff == 0
  {
    OcSumIsCanon(ws);
    var s := Sum(ws);
    if s > 0 {
      var q, r := (s - 1) / 0xffff, (s - 1) % 0xffff;
      assert s - 1 == 0xffff * q + r;
      if r == 0xfffe {
        DivModUnique(s, 0xffff, q + 1, 0);
      } else {
        DivModUnique(s, 0xffff, q, r + 1);
      }
    }
  }

  /** The complemented sum of a byte string: the checksum field it calls for. */
  function Checksum(bs: seq<u8>): u16 {
    Not16(OcSum(WordsOf(bs)))
  }

  /** The receiver's test: all words, checksum included, add up to all ones. */
  predicate Verifies(bs: seq<u8>) {
    OcSum(WordsOf(bs)) == 0xffff
  }

  /** Writing the computed checksum between two even-sized parts makes the whole verify. */
  lemma {:induction false} ChecksumVerifies(front: seq<u8>, back: seq<u8>)
    requires |front| % 2 == 0
    ensures Verifies(front + ToBeBytes16(Checksum(front + back)) + back)
  {
    var c := Checksum(front + back);
    var s := ByteSum(front + back);
    SumWithWord(front, c, back);
    OcSumIsCanon(WordsOf(front + back));
    AllOnesIff(WordsOf(front + ToBeBytes16(c) + back));
    if s > 0 {
      DivModUnique(s - Canon(s) + 0xffff, 0xffff, (s - 1) / 0xffff + 1, 0);
    }
  }

  lemma {:induction false} SumWithWord(front: seq<u8>, c: u16, back: seq<u8>)
    requires |front| % 2 == 0
    ensures ByteSum(front + ToBeBytes16(c) + back) == ByteSum(front + back) + c
  {
    var b := ToBeBytes16(c);
    ByteSumAppend(front, back);
    ByteSumAppend(front + b, back);
    ByteSumAppend(front, b);
    assert b[..2] == b && b[2..] == [];
    assert WordsOf(b) == [c];
    SumOfTwo(c, 0);
  }

  /** Data that verifies, changed by d in its true sum, verifies again exactly when 65535
      divides d. */
  lemma {:induction false} VerifiesAfterChange(xs: seq<u8>, ys: seq<u8>, d: int)
    requires Verifies(xs) && ByteSum(ys) == ByteSum(xs) + d && ByteSum(ys) > 0
    ensures Verifies(ys) <==> d % 0xffff == 0
  {
    AllOnesIff(WordsOf(xs));
    AllOnesIff(WordsOf(ys));
    ModShift(ByteSum(xs), d);
  }

  // -------------------------------------------------- Incremental update

  /** One word of the covered data changing from `was` to `now`. */
  datatype Patch = Patch(was: u16, now: u16)

  /** `update_udp_checksum`: complement, subtract and add with two's-complement wrapping. */
  function UpdateUdpChecksum(csum: u16, was: u16, now: u16): u16 {
    Not16(WrappingAdd16(WrappingSub16(Not16(csum), was), now))
  }

  /** Equation 3 in section 3 of RFC 1624: HC' = ~(~HC + ~m + m'), end-around carries throughout. */
  function Eq3(hc: u16, was: u16, now: u16): u16 {
    Not16(OcAdd(OcAdd(Not16(hc), Not16(was)), now))
  }

  /** Carry of the wrapping addition less borrow of the wrapping subtraction. */
  function NetWrap(csum: u16, was: u16, now: u16): int {
    var borrow := if Not16(csum) < was then 1 else 0;
    var carry := if WrappingSub16(Not16(csum), was) + now >= 0x1_0000 then 1 else 0;
    carry - borrow
  }

  predicate SameOc(x: int, y: int) {
    (x - y) % 0xffff == 0
  }

  lemma {:induction false} UpdateExact(csum: u16, was: u16, now: u16)
    ensures UpdateUdpChecksum(csum, was, now) == csum + was - now + 0x1_0000 * NetWrap(csum, was, now)
    ensures UpdateUdpChecksum(csum, was, now) == (csum + was - now) % 0x1_0000
  {
  }

  lemma {:induction false} Eq3Exact(hc: u16, was: u16, now: u16)
    ensures SameOc(Eq3(hc, was, now), hc + was - now)
    ensures Not16(hc) > 0 ==> Not16(Eq3(hc, was, now)) > 0
  {
  }

  /** The update by cases on the true result csum + was - now. */
  lemma {:induction false} UpdateByWrap(csum: u16, was: u16, now: u16)
    ensures var s := csum + was - now;
      var k := if s < 0 then 1 else if s < 0x1_0000 then 0 else -1;
      NetWrap(csum, was, now) == k && UpdateUdpChecksum(csum, was, now) == s + 0x1_0000 * k
  {
    UpdateExact(csum, was, now);
  }

  /** Equation 3 likewise, its two end-around carries made explicit. */
  lemma {:induction false} Eq3ByCarry(csum: u16, was: u16, now: u16)
    ensures var s := csum + was - now;
      Eq3(csum, was, now) ==
        if s < 0 then s + 0xffff
        else if s < 0xffff then s
        else if s < 0x1_fffe then s - 0xffff
        else 0xffff
  {
  }

  lemma {:induction false} SmallMultiple(x: int)
    requires -0x1_fffe < x < 0x1_fffe
    ensures x % 0xffff == 0 <==> x in {-0xffff, 0, 0xffff}
  {
  }

  /** One update misses equation 3 by its net wrap, modulo 65535. It agrees with it up to the
      choice between the two zeros exactly when the wrapping operations cancel; the values are
      equal exactly when, besides, csum + was is not now + 65535, for there the update gives
      0xffff and equation 3 gives 0. */
  lemma {:induction false} UpdateMissesEq3ByNetWrap(csum: u16, was: u16, now: u16)
    ensures NetWrap(csum, was, now) in {-1, 0, 1}
    ensures SameOc(UpdateUdpChecksum(csum, was, now), Eq3(csum, was, now) + NetWrap(csum, was, now))
    ensures SameOc(UpdateUdpChecksum(csum, was, now), Eq3(csum, was, now))
       <==> now <= csum + was <= now + 0xffff
    ensures UpdateUdpChecksum(csum, was, now) == Eq3(csum, was, now)
       <==> now <= csum + was < now + 0xffff
    ensures csum + was == now + 0xffff ==>
      UpdateUdpChecksum(csum, was, now) == 0xffff && Eq3(csum, was, now) == 0
  {
    UpdateByWrap(csum, was, now);
    Eq3ByCarry(csum, was, now);
    var u, e, k := UpdateUdpChecksum(csum, was, now), Eq3(csum, was, now), NetWrap(csum, was, now);
    SmallMultiple(u as int - e as int);
    SmallMultiple(u - (e + k));
  }

  /** A single update that is not the RFC's: the field 0xffff, a word going from 1 to 0. */
  lemma {:induction false} UpdateCanMissEq3()
    ensures UpdateUdpChecksum(0xffff, 1, 0) == 0 && Eq3(0xffff, 1, 0) == 1
  {
  }

  // -------------------------------------------------- Chains of updates

  function FoldUpdates(csum: u16, ps: seq<Patch>): u16
    decreases ps
  {
    if ps == [] then csum
    else FoldUpdates(UpdateUdpChecksum(csum, ps[0].was, ps[0].now), ps[1..])
  }

  function FoldEq3(hc: u16, ps: seq<Patch>): u16
    decreases ps
  {
    if ps == [] then hc
    else FoldEq3(Eq3(hc, ps[0].was, ps[0].now), ps[1..])
  }

  /** The net wraps met along a chain, added up. */
  function TotalWrap(csum: u16, ps: seq<Patch>): int
    decreases ps
  {
    if ps == [] then 0
    else
      var p := ps[0];
      NetWrap(csum, p.was, p.now) + TotalWrap(UpdateUdpChecksum(csum, p.was, p.now), ps[1..])
  }

  /** The true change of the word sum: now less was. */
  function Delta(ps: seq<Patch>): int {
    if ps == [] then 0 else ps[0].now - ps[0].was + Delta(ps[1..])
  }

  lemma {:induction false} FoldExact(csum: u16, ps: seq<Patch>)
    ensures FoldUpdates(csum, ps) == csum - Delta(ps) + 0x1_0000 * TotalWrap(csum, ps)
    decreases ps
  {
    if ps != [] {
      UpdateExact(csum, ps[0].was, ps[0].now);
      FoldExact(UpdateUdpChecksum(csum, ps[0].was, ps[0].now), ps[1..]);
    }
  }

  /** A chain depends on nothing but the total change modulo 65536: two chains agree
      exactly when their totals do, whatever their lengths and orders. */
  lemma {:induction false} ChainsAgreeIffTotalsAgree(csum: u16, ps: seq<Patch>, qs: seq<Patch>)
    ensures FoldUpdates(csum, ps) == FoldUpdates(csum, qs) <==> (Delta(ps) - Delta(qs)) % 0x1_0000 == 0
  {
    FoldExact(csum, ps);
    FoldExact(csum, qs);
    var k := TotalWrap(csum, ps) - TotalWrap(csum, qs);
    var d := FoldUpdates(csum, ps) as int - FoldUpdates(csum, qs) as int;
    var t := Delta(ps) - Delta(qs);
    assert t == 0x1_0000 * k - d;
    if d <= 0 {
      DivModUnique(t, 0x1_0000, k, -d);
    } else {
      DivModUnique(t, 0x1_0000, k - 1, 0x1_0000 - d);
    }
  }

  function Olds(ps: seq<Patch>): (ws: seq<u16>)
    ensures |ws| == |ps|
  {
    seq(|ps|, i requires 0 <= i < |ps| => ps[i].was)
  }

  function News(ps: seq<Patch>): (ws: seq<u16>)
    ensures |ws| == |ps|
  {
    seq(|ps|, i requires 0 <= i < |ps| => ps[i].now)
  }

  lemma {:induction false} DeltaIsDifference(ps: seq<Patch>)
    ensures Delta(ps) == Sum(News(ps)) - Sum(Olds(ps))
  {
    if ps != [] {
      DeltaIsDifference(ps[1..]);
      SumAppend([ps[0].now], News(ps[1..]));
      SumAppend([ps[0].was], Olds(ps[1..]));
      assert News(ps) == [ps[0].now] + News(ps[1..]);
      assert Olds(ps) == [ps[0].was] + Olds(ps[1..]);
      assert [ps[0].now][..0] == [] && [ps[0].was][..0] == [];
    }
  }

  lemma {:induction false} SumWithout(ys: seq<u16>, i: nat)
    requires i < |ys|
    ensures Sum(ys) == Sum(ys[..i] + ys[i + 1..]) + ys[i]
  {
    CutOut(ys, i);
    SumInserted(ys[..i], ys[i], ys[i + 1..]);
  }

  lemma {:induction false} CutOut(ys: seq<u16>, i: nat)
    requires i < |ys|
    ensures ys == ys[..i] + [ys[i]] + ys[i + 1..]
  {
  }

  lemma {:induction false} SumInserted(xs: seq<u16>, x: u16, ys: seq<u16>)
    ensures Sum(xs + [x] + ys) == Sum(xs + ys) + x
  {
    SumAppend(xs + [x], ys);
    SumAppend(xs, [x]);
    SumAppend(xs, ys);
    SumOfTwo(x, 0);
  }

  lemma {:induction false} MultisetWithout(ys: seq<u16>, i: nat)
    requires i < |ys|
    ensures multiset(ys[..i] + ys[i + 1..]) == multiset(ys) - multiset{ys[i]}
  {
    CutOut(ys, i);
  }

  lemma {:induction false} SumOfPermutation(xs: seq<u16>, ys: seq<u16>)
    requires multiset(xs) == multiset(ys)
    ensures Sum(xs) == Sum(ys)
  {
    if xs == [] {
      assert |multiset(ys)| == 0;
    } else {
      var n := |xs| - 1;
      assert xs[n] in multiset(ys);
      var i :| 0 <= i < |ys| && ys[i] == xs[n];
      MultisetWithout(xs, n);
      assert xs[..n] + xs[n + 1..] == xs[..n];
      MultisetWithout(ys, i);
      SumWithout(ys, i);
      SumOfPermutation(xs[..n], ys[..i] + ys[i + 1..]);
    }
  }

  /** Updates that only move words around leave the field alone, and the misses of
      the single updates cancel. */
  lemma {:induction false} RearrangementIsIdentity(csum: u16, ps: seq<Patch>)
    requires multiset(Olds(ps)) == multiset(News(ps))
    ensures FoldUpdates(csum, ps) == csum && TotalWrap(csum, ps) == 0
  {
    DeltaIsDifference(ps);
    SumOfPermutation(Olds(ps), News(ps));
    FoldExact(csum, ps);
  }

  /** Equation 3 ends at 0xffff only if it started there and every patch took all ones to zero. */
  lemma {:induction false} FoldEq3AllOnes(hc: u16, ps: seq<Patch>)
    requires FoldEq3(hc, ps) == 0xffff
    ensures hc == 0xffff && Delta(ps) == -0xffff * |ps|
    decreases ps
  {
    if ps != [] {
      FoldEq3AllOnes(Eq3(hc, ps[0].was, ps[0].now), ps[1..]);
    }
  }

  /** Equation 3, patch by patch, is not the identity there: it turns 0xffff into 0, the
      other zero, which in a UDP header means that there is no checksum. */
  lemma {:induction false} RearrangementByEq3(csum: u16, ps: seq<Patch>)
    requires multiset(Olds(ps)) == multiset(News(ps)) && ps != []
    ensures FoldEq3(csum, ps) == if csum == 0xffff then 0 else csum
  {
    DeltaIsDifference(ps);
    SumOfPermutation(Olds(ps), News(ps));
    FoldEq3Exact(csum, ps);
    if FoldEq3(csum, ps) == 0xffff {
      FoldEq3AllOnes(csum, ps);
    }
  }

  /** A chain misses the chain of equation 3 by its total wrap. */
  lemma {:induction false} ChainMissesEq3ByTotalWrap(csum: u16, hc: u16, ps: seq<Patch>)
    requires SameOc(csum, hc)
    ensures SameOc(FoldUpdates(csum, ps), FoldEq3(hc, ps) + TotalWrap(csum, ps))
  {
    FoldExact(csum, ps);
    FoldEq3Exact(hc, ps);
    ModCombine(csum - hc, FoldEq3(hc, ps) - (hc - Delta(ps)), TotalWrap(csum, ps));
  }

  lemma {:induction false} ModCombine(d: int, e: int, k: int)
    requires d % 0xffff == 0 && e % 0xffff == 0
    ensures (d - e + 0xffff * k) % 0xffff == 0
  {
    DivModUnique(d - e + 0xffff * k, 0xffff, d / 0xffff - e / 0xffff + k, 0);
  }

  lemma {:induction false} ModShift(s: int, d: int)
    requires s % 0xffff == 0
    ensures (s + d) % 0xffff == 0 <==> d % 0xffff == 0
  {
    DivModUnique(s + d, 0xffff, s / 0xffff + d / 0xffff, d % 0xffff);
  }

  lemma {:induction false} FoldEq3Exact(hc: u16, ps: seq<Patch>)
    ensures SameOc(FoldEq3(hc, ps), hc - Delta(ps))
    ensures Not16(hc) > 0 ==> Not16(FoldEq3(hc, ps)) > 0
    decreases ps
  {
    if ps != [] {
      var p := ps[0];
      Eq3Exact(hc, p.was, p.now);
      FoldEq3Exact(Eq3(hc, p.was, p.now), ps[1..]);
      var d := FoldEq3(hc, ps) - (Eq3(hc, p.was, p.now) - Delta(ps[1..]));
      var e := hc + p.was - p.now - Eq3(hc, p.was, p.now);
      ModCombine(d, e, 0);
    }
  }

  /** Patching the checksum of a nonzero sum by equation 3 gives the recomputed checksum
      exactly when the new sum is not zero: the only clash is between the two zeros. */
  lemma {:induction false} Eq3MatchesRecompute(s: nat, ps: seq<Patch>)
    requires s > 0 && s + Delta(ps) >= 0
    ensures FoldEq3(Not16(Canon(s)), ps) == Not16(Canon(s + Delta(ps))) <==> s + Delta(ps) > 0
  {
    var hc := Not16(Canon(s));
    FoldEq3Exact(hc, ps);
    var x := Not16(FoldEq3(hc, ps));
    var t := s + Delta(ps);
    var q := (s - 1) / 0xffff;
    assert s == 0xffff * q + Canon(s);
    var m := FoldEq3(hc, ps) - (hc - Delta(ps));
    assert x == t - m - 0xffff * q;
    assert m == 0xffff * (m / 0xffff);
    if t > 0 {
      DivModUnique(t - 1, 0xffff, q + m / 0xffff, x - 1);
    }
  }
}
