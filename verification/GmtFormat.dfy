/** Layout of an orbit as it arrives from the board and of the records written for it
    (src/format.h), in 32-bit words. Shifts and masks are written as divisions and remainders
    by powers of two. */
module GmtFormat {
  import opened Basics

  const HEADER := 8
  const BLOCK := 48
  const TRAILER := 136
  const MAP_WORDS := 112
  const BEEFDEAD: Word := 0xbeefdead
  const DEADBEEF: Word := 0xdeadbeef

  /** The eight-word groups of a block. */
  const MU1F := 16
  const MU1S := 24
  const MU2F := 32
  const MU2S := 40

  type Block = b: seq<Word> | |b| == 48 witness seq(48, _ => 0)

  function Pt(muon: Word): Word { muon / 1024 % 512 }

  predicate Keep(muon: Word, doZS: bool) { Pt(muon) > 0 || !doZS }

  datatype Muon = Muon(f: Word, s: Word, extra: Word)

  /** One decoded record. */
  datatype BxRecord = BxRecord(bxMatch: nat, orbitMatch: nat, bx: Word, orbit: Word, first: seq<Muon>,
                               second: seq<Muon>)

  /** How many of the first `n` links hold a kept muon in the group at `group`. */
  function KeptCount(b: Block, group: nat, doZS: bool, n: nat): (c: nat)
    requires group <= 40 && n <= 8
    ensures c <= n
    decreases n, |b|
  {
    if n == 0 then 0 else KeptCount(b, group, doZS, n - 1) + (if Keep(b[group + n - 1], doZS) then 1 else 0)
  }

  /** Bit i is set when link i carries the orbit number of link 0. */
  function OrbitMatch(b: Block, n: nat): (m: nat)
    requires n <= 8
    ensures m < Pow2(n)
    decreases n, |b|
  {
    if n == 0 then 0 else OrbitMatch(b, n - 1) + (if b[n - 1] == b[0] then Pow2(n - 1) else 0)
  }

  /** The kept muons of a group in link order; the second words are in the group after `group`. */
  function KeptMuons(b: Block, group: nat, extra: Word, doZS: bool, n: nat): (ms: seq<Muon>)
    requires group <= 32 && n <= 8
    ensures |ms| == KeptCount(b, group, doZS, n)
    decreases n, |b|
  {
    if n == 0 then []
    else KeptMuons(b, group, extra, doZS, n - 1) +
         (if Keep(b[group + n - 1], doZS) then [Muon(b[group + n - 1], b[group + 8 + n - 1], extra)] else [])
  }

  function Even(bx: Word): Word { bx - bx % 2 }
  function Odd(bx: Word): Word { bx - bx % 2 + 1 }

  /** What a reader should find for a block that belongs to crossing `bx`. */
  function Meaning(b: Block, bx: Word, doZS: bool): BxRecord {
    var first := KeptMuons(b, MU1F, Even(bx), doZS, 8);
    var second := KeptMuons(b, MU2F, Odd(bx), doZS, 8);
    BxRecord(255, OrbitMatch(b, 8), bx, b[0], first, second)
  }

  // ---- Encoding ---------------------------------------------------------------------------------

  function MuonWords(ms: seq<Muon>): (ws: seq<Word>)
    ensures |ws| == 3 * |ms|
  {
    if ms == [] then [] else MuonWords(ms[..|ms| - 1]) + [ms[|ms| - 1].f, ms[|ms| - 1].s, ms[|ms| - 1].extra]
  }

  /** The packed counts and match bits. */
  function HeaderWord(bxMatch: nat, first: nat, orbitMatch: nat, second: nat): Word {
    ((bxMatch * 0x100_0000 + first * 0x1_0000 + orbitMatch * 0x100 + second) % 0x1_0000_0000) as Word
  }

  function Encoded(r: BxRecord): (ws: seq<Word>)
    ensures |ws| == 3 * (1 + |r.first| + |r.second|)
  {
    [HeaderWord(r.bxMatch, |r.first|, r.orbitMatch, |r.second|), r.bx, r.orbit]
    + MuonWords(r.first) + MuonWords(r.second)
  }

  // ---- Decoding, as src/elastico.cc reads the header ----------------------------------------------

  function MuonsOf(ws: seq<Word>): seq<Muon>
    requires |ws| % 3 == 0
  {
    if ws == [] then [] else MuonsOf(ws[..|ws| - 3]) + [Muon(ws[|ws| - 3], ws[|ws| - 2], ws[|ws| - 1])]
  }

  function BxMatchOf(h: Word): nat { (h / 0x100_0000) as nat }
  function OrbitMatchOf(h: Word): nat { (h / 0x100 % 0x100) as nat }
  function FirstCount(h: Word): nat { (h / 0x1_0000 % 0x10) as nat }
  function SecondCount(h: Word): nat { (h % 0x10) as nat }

  /** Length of the record that a header word announces. */
  function RecordSize(h: Word): (n: nat)
    ensures n >= 3
  {
    3 + 3 * FirstCount(h) + 3 * SecondCount(h)
  }

  function FirstRecord(ws: seq<Word>): BxRecord
    requires ws != [] && |ws| >= RecordSize(ws[0])
  {
    var mid := 3 + 3 * FirstCount(ws[0]);
    BxRecord(BxMatchOf(ws[0]), OrbitMatchOf(ws[0]), ws[1], ws[2], MuonsOf(ws[3..mid]),
             MuonsOf(ws[mid..RecordSize(ws[0])]))
  }

  /** Records until the words run out; None if the last one is cut short. */
  function Decode(ws: seq<Word>): Option<seq<BxRecord>>
    decreases |ws|
  {
    if ws == [] then Some([])
    else if |ws| < RecordSize(ws[0]) then None
    else match Decode(ws[RecordSize(ws[0])..])
      case None => None
      case Some(rest) => Some([FirstRecord(ws)] + rest)
  }

  predicate Encodable(r: BxRecord) {
    r.bxMatch < 256 && r.orbitMatch < 256 && |r.first| <= 8 && |r.second| <= 8
  }

  lemma FieldsSplit(bxMatch: nat, first: nat, orbitMatch: nat, second: nat)
    requires bxMatch < 256 && orbitMatch < 256 && first <= 8 && second <= 8
    ensures var sum := bxMatch * 0x100_0000 + first * 0x1_0000 + orbitMatch * 0x100 + second;
            && sum < 0x1_0000_0000 && sum / 0x100_0000 == bxMatch && sum / 0x1_0000 == bxMatch * 0x100 + first
            && sum / 0x100 == bxMatch * 0x1_0000 + first * 0x100 + orbitMatch && sum % 0x10 == second
  {
    assert second == second % 0x10;
  }

  lemma LowParts(bxMatch: nat, first: nat, orbitMatch: nat)
    requires orbitMatch < 256 && first <= 8
    ensures (bxMatch * 0x100 + first) % 0x10 == first
    ensures (bxMatch * 0x1_0000 + first * 0x100 + orbitMatch) % 0x100 == orbitMatch
  {
    DivisionIs(bxMatch * 0x100 + first, 0x10, bxMatch * 0x10, first);
    DivisionIs(bxMatch * 0x1_0000 + first * 0x100 + orbitMatch, 0x100, bxMatch * 0x100 + first, orbitMatch);
  }

  /** The fields of the header sum never carry into each other. */
  lemma HeaderInverts(bxMatch: nat, first: nat, orbitMatch: nat, second: nat)
    requires bxMatch < 256 && orbitMatch < 256 && first <= 8 && second <= 8
    ensures var h := HeaderWord(bxMatch, first, orbitMatch, second);
            && h as nat == bxMatch * 0x100_0000 + first * 0x1_0000 + orbitMatch * 0x100 + second
            && FirstCount(h) == first && SecondCount(h) == second
            && BxMatchOf(h) == bxMatch && OrbitMatchOf(h) == orbitMatch
  {
    FieldsSplit(bxMatch, first, orbitMatch, second);
    LowParts(bxMatch, first, orbitMatch);
  }

  lemma {:induction false} MuonsInvert(ms: seq<Muon>)
    ensures MuonsOf(MuonWords(ms)) == ms
    decreases |ms|
  {
    if ms == [] {
    } else {
      var init := ms[..|ms| - 1];
      MuonsInvert(init);
      assert MuonWords(ms)[..|MuonWords(ms)| - 3] == MuonWords(init);
    }
  }

  lemma Slices(head: seq<Word>, m1: seq<Word>, m2: seq<Word>, rest: seq<Word>)
    ensures var ws := head + m1 + m2 + rest;
            && ws[..|head|] == head && ws[|head|..|head| + |m1|] == m1
            && ws[|head| + |m1|..|head| + |m1| + |m2|] == m2 && ws[|head| + |m1| + |m2|..] == rest
  {}

  lemma GroupsInvert(r: BxRecord, ws: seq<Word>, a: nat, b: nat)
    requires a == |r.first| && b == |r.second| && |ws| >= 3 + 3 * a + 3 * b
    requires ws[3..3 + 3 * a] == MuonWords(r.first) && ws[3 + 3 * a..3 + 3 * a + 3 * b] == MuonWords(r.second)
    ensures MuonsOf(ws[3..3 + 3 * a]) == r.first && MuonsOf(ws[3 + 3 * a..3 + 3 * a + 3 * b]) == r.second
  {
    MuonsInvert(r.first);
    MuonsInvert(r.second);
  }

  lemma FirstRecordIs(ws: seq<Word>, a: nat, b: nat)
    requires ws != [] && FirstCount(ws[0]) == a && SecondCount(ws[0]) == b && |ws| >= 3 + 3 * a + 3 * b
    ensures RecordSize(ws[0]) == 3 + 3 * a + 3 * b
    ensures FirstRecord(ws) == BxRecord(BxMatchOf(ws[0]), OrbitMatchOf(ws[0]), ws[1], ws[2],
                                        MuonsOf(ws[3..3 + 3 * a]), MuonsOf(ws[3 + 3 * a..3 + 3 * a + 3 * b]))
  {}

  lemma FirstRecordInverts(r: BxRecord, ws: seq<Word>, a: nat, b: nat)
    requires Encodable(r) && a == |r.first| && b == |r.second| && |ws| >= 3 + 3 * a + 3 * b
    requires ws[0] == HeaderWord(r.bxMatch, a, r.orbitMatch, b) && ws[1] == r.bx && ws[2] == r.orbit
    requires ws[3..3 + 3 * a] == MuonWords(r.first) && ws[3 + 3 * a..3 + 3 * a + 3 * b] == MuonWords(r.second)
    ensures RecordSize(ws[0]) == 3 + 3 * a + 3 * b && FirstRecord(ws) == r
  {
    HeaderInverts(r.bxMatch, a, r.orbitMatch, b);
    FirstRecordIs(ws, a, b);
    GroupsInvert(r, ws, a, b);
  }

  /** Decoding undoes encoding, record by record. */
  lemma DecodeInverts(r: BxRecord, rest: seq<Word>)
    requires Encodable(r)
    ensures Decode(Encoded(r) + rest) ==
            match Decode(rest) case None => None case Some(rs) => Some([r] + rs)
  {
    var head := [HeaderWord(r.bxMatch, |r.first|, r.orbitMatch, |r.second|), r.bx, r.orbit];
    var ws := head + MuonWords(r.first) + MuonWords(r.second) + rest;
    Slices(head, MuonWords(r.first), MuonWords(r.second), rest);
    FirstRecordInverts(r, ws, |r.first|, |r.second|);
    assert ws == Encoded(r) + rest;
  }

  function EncodeAll(rs: seq<BxRecord>): seq<Word> {
    if rs == [] then [] else Encoded(rs[0]) + EncodeAll(rs[1..])
  }

  lemma {:induction false} DecodeInvertsAll(rs: seq<BxRecord>)
    requires forall k :: 0 <= k < |rs| ==> Encodable(rs[k])
    ensures Decode(EncodeAll(rs)) == Some(rs)
    decreases |rs|
  {
    if rs == [] {
    } else {
      DecodeInvertsAll(rs[1..]);
      DecodeInverts(rs[0], EncodeAll(rs[1..]));
      assert [rs[0]] + rs[1..] == rs;
    }
  }

  /** With zero suppression off all sixteen muon word pairs survive, whatever they hold. */
  lemma {:induction false} NothingSuppressed(b: Block, group: nat, extra: Word, n: nat)
    requires group <= 32 && n <= 8
    ensures KeptMuons(b, group, extra, false, n) ==
            seq(n, i requires 0 <= i < n => Muon(b[group + i], b[group + 8 + i], extra))
    decreases n
  {
    if n == 0 {
    } else {
      assert Keep(b[group + n - 1], false);
      hide Keep;
      NothingSuppressed(b, group, extra, n - 1);
    }
  }

  lemma MeaningEncodable(b: Block, bx: Word, doZS: bool)
    ensures Encodable(Meaning(b, bx, doZS))
  {
    assert Pow2(4) == 16 && Pow2(8) == 256;
  }

  // ---- The bitmap of filled crossings -------------------------------------------------------------

  predicate Bit(word: Word, i: nat)
    decreases i
  {
    if i == 0 then word % 2 == 1 else Bit(word / 2, i - 1)
  }

  function Popcount(word: Word): nat
    decreases word as int
  {
    if word == 0 then 0 else (if word % 2 == 1 then 1 else 0) + Popcount(word / 2)
  }

  /** Numbers of the bits set among the low `n` bits, counted from `offset`. */
  function SetBits(word: Word, offset: nat, n: nat): seq<Word>
    requires offset + n <= 0x1_0000_0000
    decreases n, word as nat
  {
    if n == 0 then [] else (if word % 2 == 1 then [offset as Word] else []) + SetBits(word / 2, offset + 1, n - 1)
  }

  /** Filled crossings of the map words from number `k` on. */
  function Crossings(words: seq<Word>, k: nat): seq<Word>
    requires k + |words| <= MAP_WORDS
    decreases |words|
  {
    if words == [] then [] else SetBits(words[0], 32 * k, 32) + Crossings(words[1..], k + 1)
  }

  function PopcountSum(words: seq<Word>): nat {
    if words == [] then 0 else Popcount(words[0]) + PopcountSum(words[1..])
  }

  ghost predicate StrictlyIncreasing(xs: seq<Word>) { forall i, j :: 0 <= i < j < |xs| ==> xs[i] < xs[j] }

  lemma IncreasingConcat(xs: seq<Word>, ys: seq<Word>, bound: nat)
    requires StrictlyIncreasing(xs) && StrictlyIncreasing(ys)
    requires (forall x :: x in xs ==> x as nat < bound) && (forall y :: y in ys ==> bound <= y as nat)
    ensures StrictlyIncreasing(xs + ys)
  {
    forall i, j | 0 <= i < j < |xs + ys| ensures (xs + ys)[i] < (xs + ys)[j] {
      if i < |xs| <= j {
        assert (xs + ys)[i] in xs && (xs + ys)[j] in ys;
      }
    }
  }

  lemma {:induction false} SetBitsMember(word: Word, offset: nat, n: nat, x: Word)
    requires offset + n <= 0x1_0000_0000
    ensures x in SetBits(word, offset, n) <==> offset <= x as nat < offset + n && Bit(word, x as nat - offset)
    decreases n
  {
    if n == 0 {
    } else {
      SetBitsMember(word / 2, offset + 1, n - 1, x);
    }
  }

  lemma {:induction false} SetBitsIncrease(word: Word, offset: nat, n: nat)
    requires offset + n <= 0x1_0000_0000
    ensures StrictlyIncreasing(SetBits(word, offset, n))
    decreases n
  {
    if n == 0 {
    } else {
      var head := if word % 2 == 1 then [offset as Word] else [];
      var tail := SetBits(word / 2, offset + 1, n - 1);
      SetBitsIncrease(word / 2, offset + 1, n - 1);
      forall x | x in tail ensures offset + 1 <= x as nat {
        SetBitsMember(word / 2, offset + 1, n - 1, x);
      }
      IncreasingConcat(head, tail, offset + 1);
    }
  }

  lemma {:induction false} SetBitsCount(word: Word, offset: nat, n: nat)
    requires offset + n <= 0x1_0000_0000 && word as nat < Pow2(n)
    ensures |SetBits(word, offset, n)| == Popcount(word)
    decreases n
  {
    if n == 0 {
    } else {
      SetBitsCount(word / 2, offset + 1, n - 1);
    }
  }

  lemma Pow2Of32()
    ensures Pow2(32) == 0x1_0000_0000
  {
    assert Pow2(8) == 256;
    assert Pow2(16) == 65536;
    assert Pow2(24) == 0x100_0000;
  }

  lemma {:induction false} CrossingsCount(words: seq<Word>, k: nat)
    requires k + |words| <= MAP_WORDS
    ensures |Crossings(words, k)| == PopcountSum(words)
    decreases |words|
  {
    if words == [] {
    } else {
      Pow2Of32();
      SetBitsCount(words[0], 32 * k, 32);
      CrossingsCount(words[1..], k + 1);
    }
  }

  lemma {:induction false} SetBitsAtMost(word: Word, offset: nat, n: nat)
    requires offset + n <= 0x1_0000_0000
    ensures |SetBits(word, offset, n)| <= n
    decreases n
  {
    if n == 0 {
    } else {
      SetBitsAtMost(word / 2, offset + 1, n - 1);
    }
  }

  lemma {:induction false} CrossingsAtMost(words: seq<Word>, k: nat)
    requires k + |words| <= MAP_WORDS
    ensures |Crossings(words, k)| <= 32 * |words|
    decreases |words|
  {
    if words == [] {
    } else {
      SetBitsAtMost(words[0], 32 * k, 32);
      CrossingsAtMost(words[1..], k + 1);
    }
  }

  /** Bit `t` of the i-th word stands for crossing 32 (k + i) + t, if the first word has number `k`. */
  lemma {:induction false} CrossingsMember(words: seq<Word>, k: nat, i: nat, t: nat)
    requires k + |words| <= MAP_WORDS && i < |words| && t < 32
    ensures (32 * (k + i) + t) as Word in Crossings(words, k) <==> Bit(words[i], t)
    decreases |words|
  {
    var x := (32 * (k + i) + t) as Word;
    SetBitsMember(words[0], 32 * k, 32, x);
    if i == 0 {
      if x in Crossings(words[1..], k + 1) {
        CrossingsRange(words[1..], k + 1, x);
      }
    } else {
      CrossingsMember(words[1..], k + 1, i - 1, t);
    }
  }

  lemma {:induction false} CrossingsRange(words: seq<Word>, k: nat, x: Word)
    requires k + |words| <= MAP_WORDS && x in Crossings(words, k)
    ensures 32 * k <= x as nat < 32 * (k + |words|)
    decreases |words|
  {
    if x in SetBits(words[0], 32 * k, 32) {
      SetBitsMember(words[0], 32 * k, 32, x);
    } else {
      CrossingsRange(words[1..], k + 1, x);
    }
  }

  lemma {:induction false} CrossingsIncrease(words: seq<Word>, k: nat)
    requires k + |words| <= MAP_WORDS
    ensures StrictlyIncreasing(Crossings(words, k))
    decreases |words|
  {
    if words == [] {
    } else {
      var head, tail := SetBits(words[0], 32 * k, 32), Crossings(words[1..], k + 1);
      SetBitsIncrease(words[0], 32 * k, 32);
      CrossingsIncrease(words[1..], k + 1);
      forall x | x in head ensures x as nat < 32 * (k + 1) {
        SetBitsMember(words[0], 32 * k, 32, x);
      }
      forall x | x in tail ensures 32 * (k + 1) <= x as nat {
        CrossingsRange(words[1..], k + 1, x);
      }
      IncreasingConcat(head, tail, 32 * (k + 1));
    }
  }

  lemma CrossingBit(words: seq<Word>, x: Word)
    requires |words| == MAP_WORDS
    ensures x in Crossings(words, 0) <==> x < 3584 && Bit(words[x as nat / 32], x as nat % 32)
  {
    if x < 3584 {
      var i, t := x as nat / 32, x as nat % 32;
      assert (32 * (0 + i) + t) as Word == x;
      CrossingsMember(words, 0, i, t);
    } else if x in Crossings(words, 0) {
      CrossingsRange(words, 0, x);
    }
  }

  /** The vector is strictly increasing, holds x exactly when bit x mod 32 of map word x div 32 is
      set, and is as long as the number of set bits. */
  lemma CrossingsAreTheSetBits(words: seq<Word>)
    requires |words| == MAP_WORDS
    ensures StrictlyIncreasing(Crossings(words, 0))
    ensures forall x: Word :: x in Crossings(words, 0) <==> x < 3584 && Bit(words[x as nat / 32], x as nat % 32)
    ensures |Crossings(words, 0)| == PopcountSum(words)
  {
    CrossingsIncrease(words, 0);
    CrossingsCount(words, 0);
    forall x: Word ensures x in Crossings(words, 0) <==> x < 3584 && Bit(words[x as nat / 32], x as nat % 32) {
      CrossingBit(words, x);
    }
  }

  lemma SmallestFirst(xs: seq<Word>, sorted: seq<Word>)
    requires StrictlyIncreasing(xs) && xs != [] && multiset(xs) == multiset(sorted)
    requires forall i, j :: 0 <= i < j < |sorted| ==> sorted[i] <= sorted[j]
    ensures sorted != [] && sorted[0] == xs[0]
  {
    assert xs[0] in multiset(sorted);
    assert sorted[0] in multiset(xs);
    assert xs[0] in sorted && sorted[0] in xs;
  }

  lemma TailMultiset(xs: seq<Word>)
    requires xs != []
    ensures multiset(xs[1..]) == multiset(xs) - multiset{xs[0]}
  {
    assert xs == [xs[0]] + xs[1..];
  }

  /** Any sorted rearrangement of a strictly increasing vector is that vector: the std::sort that
      follows changes nothing. */
  lemma {:induction false} SortingIsIdentity(xs: seq<Word>, sorted: seq<Word>)
    requires StrictlyIncreasing(xs) && multiset(xs) == multiset(sorted)
    requires forall i, j :: 0 <= i < j < |sorted| ==> sorted[i] <= sorted[j]
    ensures sorted == xs
    decreases |xs|
  {
    if xs == [] {
      assert |sorted| == |multiset(sorted)| == 0;
    } else {
      SmallestFirst(xs, sorted);
      TailMultiset(xs);
      TailMultiset(sorted);
      SortingIsIdentity(xs[1..], sorted[1..]);
      assert xs == [xs[0]] + xs[1..] && sorted == [sorted[0]] + sorted[1..];
    }
  }
}
