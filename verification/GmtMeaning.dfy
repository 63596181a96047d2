/** What the definitions of the record format come to, in terms of single bits and of positions in a block:
    which muons a record has, in which order, and which blocks have none. */
module GmtMeaning {
  import opened Basics
  import opened GmtFormat
  import opened GmtOrbit

  // ---- Transverse momentum --------------------------------------------------------------------------

  /** The nine bits of the momentum field, from bit 10 on, are not all zero. */
  ghost predicate HasMomentum(muon: Word) { exists t: nat :: 10 <= t < 19 && Bit(muon, t) }

  /** The field is bits 10 to 18, whatever the other bits are. */
  lemma MomentumField(high: nat, pt: nat, low: nat)
    requires high < 0x2000 && pt < 512 && low < 1024
    ensures high * 0x8_0000 + pt * 1024 + low < 0x1_0000_0000
    ensures Pt((high * 0x8_0000 + pt * 1024 + low) as Word) as nat == pt
  {
    DivisionIs(high * 0x8_0000 + pt * 1024 + low, 1024, high * 512 + pt, low);
    DivisionIs(high * 512 + pt, 512, high, pt);
  }

  lemma FiveBitsOn(word: Word, t: nat)
    ensures Bit(word, 5 + t) == Bit(word / 32, t)
  {
    var x1 := word / 2;
    var x2 := x1 / 2;
    var x3 := x2 / 2;
    var x4 := x3 / 2;
    assert Bit(word, 5 + t) == Bit(x1, 4 + t) == Bit(x2, 3 + t) == Bit(x3, 2 + t) == Bit(x4, 1 + t) == Bit(x4 / 2, t);
    assert x4 / 2 == word / 32;
  }

  lemma TenBitsOn(word: Word, t: nat)
    ensures Bit(word, 10 + t) == Bit(word / 1024, t)
  {
    FiveBitsOn(word, 5 + t);
    FiveBitsOn(word / 32, t);
    assert word / 32 / 32 == word / 1024;
  }

  /** Some of the low `n` bits is set. */
  function SomeBit(word: Word, n: nat): bool
    decreases n, word as nat
  {
    n > 0 && (word % 2 == 1 || SomeBit(word / 2, n - 1))
  }

  lemma BitSteps(word: Word, t: nat)
    ensures t == 0 ==> (Bit(word, t) <==> word % 2 == 1)
    ensures t > 0 ==> (Bit(word, t) <==> Bit(word / 2, t - 1))
  {}

  lemma {:induction false} SomeBitExactlyWhen(word: Word, n: nat)
    ensures SomeBit(word, n) <==> exists t: nat :: t < n && Bit(word, t)
    decreases n
  {
    hide Bit;
    if n == 0 {
    } else {
      SomeBitExactlyWhen(word / 2, n - 1);
      if word % 2 == 1 {
        BitSteps(word, 0);
      } else if SomeBit(word / 2, n - 1) {
        var t: nat :| t < n - 1 && Bit(word / 2, t);
        BitSteps(word, t + 1);
      } else {
        forall t: nat | t < n ensures !Bit(word, t) {
          BitSteps(word, t);
        }
      }
    }
  }

  lemma Halving(word: Word, n: nat, p: Word)
    requires 1 <= n <= 9 && PowerPair(n, p)
    ensures PowerPair(n - 1, p / 2) && (word % p > 0 <==> word % 2 == 1 || word / 2 % (p / 2) > 0)
  {
    var h := p / 2;
    assert p == 2 * h;
    RemainderOfHalf(word, n, h);
  }

  lemma RemainderOfHalf(word: Word, n: nat, h: Word)
    requires 1 <= n && PowerPair(n - 1, h)
    ensures word % (2 * h) == word % 2 + 2 * (word / 2 % h)
  {
    var x, m := word as nat, h as nat;
    Halves(x, m);
    DivisionIs(x, 2 * m, x / 2 / m, x % 2 + 2 * (x / 2 % m));
  }

  lemma Halves(x: nat, h: nat)
    requires h >= 1
    ensures x % 2 + 2 * (x / 2 % h) < 2 * h
    ensures x == 2 * h * (x / 2 / h) + (x % 2 + 2 * (x / 2 % h))
  {
    var y := x / 2;
    assert y == h * (y / h) + y % h;
    assert 2 * (h * (y / h)) == 2 * h * (y / h);
  }

  predicate PowerPair(n: nat, p: Word) {
    (n, p) in {(0, 1), (1, 2), (2, 4), (3, 8), (4, 16), (5, 32), (6, 64), (7, 128), (8, 256), (9, 512)}
  }

  lemma {:induction false} LowBits(word: Word, n: nat, p: Word)
    requires n <= 9 && PowerPair(n, p)
    ensures SomeBit(word, n) <==> word % p > 0
    decreases n
  {
    if n == 0 {
    } else {
      Halving(word, n, p);
      LowBits(word / 2, n - 1, p / 2);
    }
  }

  lemma MomentumExactlyWhen(muon: Word)
    ensures Pt(muon) > 0 <==> HasMomentum(muon)
  {
    var x := muon / 1024;
    LowBits(x, 9, 512);
    SomeBitExactlyWhen(x, 9);
    hide Bit;
    if t: nat :| t < 9 && Bit(x, t) {
      TenBitsOn(muon, t);
      assert Bit(muon, 10 + t);
    } else if HasMomentum(muon) {
      var t: nat :| 10 <= t < 19 && Bit(muon, t);
      TenBitsOn(muon, t - 10);
    }
  }

  /** A muon is kept if zero suppression is off or it has momentum. */
  lemma KeptExactlyWhen(muon: Word, doZS: bool)
    ensures Keep(muon, doZS) <==> !doZS || HasMomentum(muon)
  {
    MomentumExactlyWhen(muon);
  }

  // ---- The muons of a block -------------------------------------------------------------------------

  /** Link `i` carries the muon with these two words in the groups that begin at `group`. */
  predicate Carries(b: Block, group: nat, i: nat, f: Word, s: Word)
    requires group <= 32 && i < 8
  {
    b[group + i] == f && b[group + 8 + i] == s
  }

  lemma LastLink(b: Block, group: nat, extra: Word, doZS: bool, n: nat, m: Muon)
    requires group <= 32 && 1 <= n <= 8
    ensures m in KeptMuons(b, group, extra, doZS, n)
       <==> (m in KeptMuons(b, group, extra, doZS, n - 1)
             || (Carries(b, group, n - 1, m.f, m.s) && m.extra == extra && Keep(m.f, doZS)))
  {
    hide Keep;
    var last := Muon(b[group + n - 1], b[group + 8 + n - 1], extra);
    var before := KeptMuons(b, group, extra, doZS, n - 1);
    assert m in before + [last] <==> m in before || m == last;
  }

  /** Exactly the muons that a link carries survive, all of them with zero suppression off, those with
      momentum with it on. */
  lemma {:induction false} SuppressionIsExact(b: Block, group: nat, extra: Word, doZS: bool, n: nat, m: Muon)
    requires group <= 32 && n <= 8
    ensures m in KeptMuons(b, group, extra, doZS, n)
       <==> m.extra == extra && (!doZS || HasMomentum(m.f)) && exists i :: 0 <= i < n && Carries(b, group, i, m.f, m.s)
    decreases n
  {
    if n == 0 {
    } else {
      SuppressionIsExact(b, group, extra, doZS, n - 1, m);
      LastLink(b, group, extra, doZS, n, m);
      KeptExactlyWhen(m.f, doZS);
      hide KeptMuons, Carries, HasMomentum, Keep;
    }
  }

  /** The muons stand in link order: before that of link `i` there are the kept ones of the links below. */
  lemma {:induction false} KeptInLinkOrder(b: Block, group: nat, extra: Word, doZS: bool, n: nat, i: nat)
    requires group <= 32 && i < n <= 8 && (!doZS || HasMomentum(b[group + i]))
    ensures var k := |KeptMuons(b, group, extra, doZS, i)|;
      && k < |KeptMuons(b, group, extra, doZS, n)| && k < |KeptMuons(b, group, extra, doZS, i + 1)|
      && KeptMuons(b, group, extra, doZS, n)[k] == Muon(b[group + i], b[group + 8 + i], extra)
    decreases n
  {
    KeptExactlyWhen(b[group + i], doZS);
    hide Keep, HasMomentum;
    if i == n - 1 {
    } else {
      KeptInLinkOrder(b, group, extra, doZS, n - 1, i);
    }
  }

  /** Neither the first nor the second muon of link `i` has momentum. */
  ghost predicate Silent(b: Block, i: nat)
    requires i < 8
  {
    !HasMomentum(b[16 + i]) && !HasMomentum(b[32 + i])
  }

  lemma SilentExactlyWhen(b: Block, doZS: bool, i: nat)
    requires i < 8
    ensures (doZS && Silent(b, i)) <==> (!Keep(b[16 + i], doZS) && !Keep(b[32 + i], doZS))
  {
    KeptExactlyWhen(b[16 + i], doZS);
    KeptExactlyWhen(b[32 + i], doZS);
  }

  /** A block has nothing to record exactly when zero suppression is on and all links are silent. */
  lemma NoMuonsExactlyWhen(b: Block, doZS: bool)
    ensures NoMuons(b, doZS) <==> doZS && forall i: nat :: i < 8 ==> Silent(b, i)
  {
    hide Keep, KeptCount, Silent;
    NoneKeptExactlyWhen(b, 16, doZS, 8);
    NoneKeptExactlyWhen(b, 32, doZS, 8);
    if NoMuons(b, doZS) {
      SilentExactlyWhen(b, doZS, 0);
      forall i: nat | i < 8 ensures Silent(b, i) {
        SilentExactlyWhen(b, doZS, i);
      }
    }
    if doZS && forall i: nat :: i < 8 ==> Silent(b, i) {
      forall k | 16 <= k < 24 ensures !Keep(b[k], doZS) {
        SilentExactlyWhen(b, doZS, k - 16);
      }
      forall k | 32 <= k < 40 ensures !Keep(b[k], doZS) {
        SilentExactlyWhen(b, doZS, k - 32);
      }
    }
  }

  lemma {:induction false} NoneKeptExactlyWhen(b: Block, group: nat, doZS: bool, n: nat)
    requires group <= 32 && n <= 8
    ensures KeptCount(b, group, doZS, n) == 0 <==> forall k :: group <= k < group + n ==> !Keep(b[k], doZS)
    decreases n
  {
    if n == 0 {
    } else {
      hide Keep;
      NoneKeptExactlyWhen(b, group, doZS, n - 1);
    }
  }

  // ---- The match bits -------------------------------------------------------------------------------

  lemma {:induction false} BitOfSum(x: nat, k: nat, e: nat, i: nat)
    requires x < Pow2(k) && e <= 1 && x + e * Pow2(k) < 0x1_0000_0000
    ensures Bit((x + e * Pow2(k)) as Word, i) <==> if i < k then Bit(x as Word, i) else i == k && e == 1
    decreases k
  {
    if k == 0 {
      NoBitsAbove(e as Word, i);
    } else {
      PowerDoubles(k);
      if i > 0 {
        BitOfSum(x / 2, k - 1, e, i - 1);
      }
    }
  }

  lemma NoBitsAbove(e: Word, i: nat)
    requires e <= 1
    ensures Bit(e, i) <==> i == 0 && e == 1
  {
    if i > 0 {
      Nothing(i - 1);
    }
  }

  lemma {:induction false} Nothing(i: nat)
    ensures !Bit(0, i)
    decreases i
  {
    if i == 0 {
    } else {
      Nothing(i - 1);
    }
  }

  /** Bit `i` tells whether link `i` has the orbit number of link 0. */
  lemma {:induction false} OrbitMatchBits(b: Block, n: nat, i: nat)
    requires n <= 8
    ensures Pow2(n) <= 256 && OrbitMatch(b, n) < 256
    ensures Bit(OrbitMatch(b, n) as Word, i) <==> i < n && b[i] == b[0]
    decreases n
  {
    if n == 0 {
      Nothing(i);
    } else {
      OrbitMatchBits(b, n - 1, i);
      PowerDoubles(n);
      PowerAtMost(n);
      BitOfSum(OrbitMatch(b, n - 1), n - 1, if b[n - 1] == b[0] then 1 else 0, i);
    }
  }

  lemma {:induction false} PowerAtMost(n: nat)
    requires n <= 8
    ensures Pow2(n) <= 256
  {
    assert Pow2(4) == 16 && Pow2(8) == 256;
    if n == 8 {
    } else {
      assert n in {0, 1, 2, 3, 4, 5, 6, 7};
    }
  }

  // ---- A record -------------------------------------------------------------------------------------

  /** The crossing with its lowest bit replaced. */
  predicate LowBit(extra: Word, bx: Word, low: Word) { extra / 2 == bx / 2 && extra % 2 == low }

  lemma LowBitIs(bx: Word, extra: Word)
    ensures extra == Even(bx) <==> LowBit(extra, bx, 0)
    ensures extra == Odd(bx) <==> LowBit(extra, bx, 1)
  {}

  /** A record in plain terms: all bx match bits, a bit for every link with the orbit number of link 0, the
      crossing and the orbit as they are; as first muons what the links carry from word 16 on, with the low
      bit of the crossing cleared, as second muons what they carry from word 32 on, with that bit set. */
  lemma RecordInPlainTerms(b: Block, bx: Word, doZS: bool)
    ensures var r := Meaning(b, bx, doZS);
      && r.bxMatch == 0xff && r.bx == bx && r.orbit == b[0] && r.orbitMatch < 256
      && (forall i: nat :: MatchBit(b, r.orbitMatch, i))
      && (forall m: Muon :: m in r.first <==> FromLinks(b, 16, m, bx, 0, doZS))
      && (forall m: Muon :: m in r.second <==> FromLinks(b, 32, m, bx, 1, doZS))
  {
    var r := Meaning(b, bx, doZS);
    AllOrbitMatchBits(b);
    hide MatchBit, OrbitMatch;
    forall m: Muon
      ensures m in r.first <==> FromLinks(b, 16, m, bx, 0, doZS)
      ensures m in r.second <==> FromLinks(b, 32, m, bx, 1, doZS)
    {
      SuppressionIsExact(b, 16, Even(bx), doZS, 8, m);
      SuppressionIsExact(b, 32, Odd(bx), doZS, 8, m);
      LowBitIs(bx, m.extra);
      hide Even, Odd, LowBit, HasMomentum, Carries;
    }
  }

  /** Bit `i` is set exactly if there is a link `i` with the orbit number of link 0. */
  predicate MatchBit(b: Block, bits: nat, i: nat)
    requires bits < 256
  {
    Bit(bits as Word, i) <==> i < 8 && b[i] == b[0]
  }

  lemma AllOrbitMatchBits(b: Block)
    ensures OrbitMatch(b, 8) < 256
    ensures forall i: nat :: MatchBit(b, OrbitMatch(b, 8), i)
  {
    OrbitMatchBits(b, 8, 0);
    forall i: nat ensures MatchBit(b, OrbitMatch(b, 8), i) {
      OrbitMatchBits(b, 8, i);
    }
  }

  ghost predicate FromLinks(b: Block, group: nat, m: Muon, bx: Word, low: Word, doZS: bool)
    requires group <= 32
  {
    && LowBit(m.extra, bx, low) && (!doZS || HasMomentum(m.f))
    && exists i :: 0 <= i < 8 && Carries(b, group, i, m.f, m.s)
  }

  // ---- Which blocks are recorded --------------------------------------------------------------------

  /** The blocks that count are those of the orbit that have something to record. */
  lemma {:induction false} FullBlocksAre(w: seq<Word>, j: nat, n: nat, doZS: bool, b: Block)
    requires j <= n && HEADER + BLOCK * n <= |w|
    ensures b in FullBlocks(w, j, n, doZS) <==> !NoMuons(b, doZS) && exists k :: j <= k < n && BlockIs(w, k, b)
    decreases n - j
  {
    hide NoMuons;
    if j == n {
    } else {
      FullBlocksAre(w, j + 1, n, doZS, b);
      if BlockAt(w, j) == b {
        assert BlockIs(w, j, b);
      }
    }
  }

  predicate BlockIs(w: seq<Word>, k: nat, b: Block) {
    HEADER + BLOCK * k + BLOCK <= |w| && BlockAt(w, k) == b
  }
}
