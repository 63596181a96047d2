/** What the reformatting of src/processor.cc means for one packet: pure definitions and their laws. */
module GmtOrbit {
  import opened Basics
  import opened GmtFormat

  function BlockAt(w: seq<Word>, j: nat): Block
    requires HEADER + BLOCK * j + BLOCK <= |w|
  {
    w[HEADER + BLOCK * j..HEADER + BLOCK * j + BLOCK]
  }

  /** Number of the block position, from `j` on, at which a complete orbit trailer stands. None when
      the search would leave the packet: there the original has no defined behaviour. */
  function FindTrailer(w: seq<Word>, j: nat): (n: Option<nat>)
    ensures n.Some? ==> HEADER + BLOCK * n.value + TRAILER <= |w|
    decreases |w| - BLOCK * j
  {
    var p := HEADER + BLOCK * j;
    if p >= |w| then None
    else if w[p] != BEEFDEAD then FindTrailer(w, j + 1)
    else if p + TRAILER <= |w| then Some(j)
    else None
  }

  lemma {:induction false} TrailerFound(w: seq<Word>, j: nat)
    requires FindTrailer(w, j).Some?
    ensures var n := FindTrailer(w, j).value;
            && j <= n && HEADER + BLOCK * n + TRAILER <= |w| && w[HEADER + BLOCK * n] == BEEFDEAD
            && forall i :: j <= i < n ==> w[HEADER + BLOCK * i] != BEEFDEAD
    decreases |w| - BLOCK * j
  {
    if w[HEADER + BLOCK * j] == BEEFDEAD {
    } else {
      TrailerFound(w, j + 1);
    }
  }

  /** The filled crossings that the trailer after `n` blocks lists. */
  function CrossingsOf(w: seq<Word>, n: nat): seq<Word>
    requires HEADER + BLOCK * n + TRAILER <= |w|
  {
    Crossings(w[HEADER + BLOCK * n + 8..HEADER + BLOCK * n + 8 + MAP_WORDS], 0)
  }

  predicate NoMuons(b: Block, doZS: bool) {
    KeptCount(b, MU1F, doZS, 8) == 0 && KeptCount(b, MU2F, doZS, 8) == 0
  }

  /** The records written for blocks j..n when the crossings before `rel` are used up. */
  function Records(w: seq<Word>, j: nat, n: nat, bxs: seq<Word>, rel: nat, doZS: bool): seq<BxRecord>
    requires j <= n && HEADER + BLOCK * n <= |w| && rel <= |bxs|
    decreases n - j
  {
    if rel == |bxs| || j == n then []
    else if NoMuons(BlockAt(w, j), doZS) then Records(w, j + 1, n, bxs, rel, doZS)
    else [Meaning(BlockAt(w, j), bxs[rel], doZS)] + Records(w, j + 1, n, bxs, rel + 1, doZS)
  }

  /** The blocks with a kept muon, in order. */
  function FullBlocks(w: seq<Word>, j: nat, n: nat, doZS: bool): seq<Block>
    requires j <= n && HEADER + BLOCK * n <= |w|
    decreases n - j
  {
    if j == n then []
    else if NoMuons(BlockAt(w, j), doZS) then FullBlocks(w, j + 1, n, doZS)
    else [BlockAt(w, j)] + FullBlocks(w, j + 1, n, doZS)
  }

  /** The k-th record is the k-th block with a kept muon under the k-th crossing. */
  ghost predicate Pairs(rs: seq<BxRecord>, blocks: seq<Block>, bxs: seq<Word>, rel: nat, doZS: bool) {
    && rel <= |bxs| && |rs| == Min(|blocks|, |bxs| - rel)
    && forall k :: 0 <= k < |rs| ==> rs[k] == Meaning(blocks[k], bxs[rel + k], doZS)
  }

  lemma PairsOn(rs: seq<BxRecord>, b: Block, blocks: seq<Block>, bxs: seq<Word>, rel: nat, doZS: bool)
    requires rel < |bxs| && Pairs(rs, blocks, bxs, rel + 1, doZS)
    ensures Pairs([Meaning(b, bxs[rel], doZS)] + rs, [b] + blocks, bxs, rel, doZS)
  {
    var longer := [Meaning(b, bxs[rel], doZS)] + rs;
    forall k | 0 <= k < |longer| ensures longer[k] == Meaning(([b] + blocks)[k], bxs[rel + k], doZS) {
      if k > 0 {
        assert longer[k] == rs[k - 1] && bxs[rel + k] == bxs[rel + 1 + (k - 1)];
      }
    }
  }

  lemma {:induction false} RecordsPair(w: seq<Word>, j: nat, n: nat, bxs: seq<Word>, rel: nat, doZS: bool)
    requires j <= n && HEADER + BLOCK * n <= |w| && rel <= |bxs|
    ensures Pairs(Records(w, j, n, bxs, rel, doZS), FullBlocks(w, j, n, doZS), bxs, rel, doZS)
    ensures |FullBlocks(w, j, n, doZS)| <= n - j
    decreases n - j
  {
    if j == n {
    } else if NoMuons(BlockAt(w, j), doZS) {
      RecordsPair(w, j + 1, n, bxs, rel, doZS);
    } else if rel < |bxs| {
      RecordsPair(w, j + 1, n, bxs, rel + 1, doZS);
      PairsOn(Records(w, j + 1, n, bxs, rel + 1, doZS), BlockAt(w, j), FullBlocks(w, j + 1, n, doZS), bxs, rel, doZS);
    } else {
      RecordsPair(w, j + 1, n, bxs, rel, doZS);
    }
  }

  lemma RecordsEncodable(w: seq<Word>, j: nat, n: nat, bxs: seq<Word>, rel: nat, doZS: bool)
    requires j <= n && HEADER + BLOCK * n <= |w| && rel <= |bxs|
    ensures forall k :: 0 <= k < |Records(w, j, n, bxs, rel, doZS)| ==> Encodable(Records(w, j, n, bxs, rel, doZS)[k])
  {
    RecordsPair(w, j, n, bxs, rel, doZS);
    var rs, blocks := Records(w, j, n, bxs, rel, doZS), FullBlocks(w, j, n, doZS);
    forall k | 0 <= k < |rs| ensures Encodable(rs[k]) {
      MeaningEncodable(blocks[k], bxs[rel + k], doZS);
    }
  }

  /** Decoding the words of an orbit gives the k-th block with a muon under the k-th crossing, until
      blocks or crossings run out: a block without muons is left out and shifts the rest. */
  lemma OrbitDecodes(w: seq<Word>, n: nat, bxs: seq<Word>, doZS: bool)
    requires HEADER + BLOCK * n <= |w|
    ensures var rs := Records(w, 0, n, bxs, 0, doZS);
            Decode(EncodeAll(rs)) == Some(rs) && Pairs(rs, FullBlocks(w, 0, n, doZS), bxs, 0, doZS)
  {
    RecordsEncodable(w, 0, n, bxs, 0, doZS);
    DecodeInvertsAll(Records(w, 0, n, bxs, 0, doZS));
    RecordsPair(w, 0, n, bxs, 0, doZS);
  }

  // ---- The loop over a packet -----------------------------------------------------------------------

  /** Words the packet cursor skips for one orbit with `crossings` filled crossings. */
  function OrbitWords(crossings: nat): nat { HEADER + BLOCK * crossings + TRAILER }

  /** How often the loop advances from `p` by `d` until it lands on the packet trailer. None when it
      passes the end of the packet: from there the cursor only grows and the loop never ends. */
  function PassCount(w: seq<Word>, d: nat, p: nat): Option<nat>
    requires d > 0
    decreases |w| - p
  {
    if p + d >= |w| then None
    else if w[p + d] == DEADBEEF then Some(1)
    else match PassCount(w, d, p + d) case None => None case Some(m) => Some(m + 1)
  }

  /** Whether a packet trailer word stands `m` passes of `d` words after `p`. */
  predicate Lands(w: seq<Word>, d: nat, p: nat, m: nat) {
    m >= 1 && p + m * d < |w| && w[p + m * d] == DEADBEEF
  }

  /** One pass more from `p` is `m` passes from where the first one ends. */
  lemma LandsLater(w: seq<Word>, d: nat, p: nat, m: nat)
    requires m >= 2
    ensures Lands(w, d, p, m) <==> Lands(w, d, p + d, m - 1)
    ensures p + d < p + m * d || d == 0
  {
    assert p + m * d == (p + d) + (m - 1) * d;
    MultiplesApart(d, m - 1);
  }

  /** The loop halts exactly when some multiple of the orbit length is the position of a packet
      trailer word, and then after the first such multiple. */
  lemma {:induction false} HaltsExactlyWhen(w: seq<Word>, d: nat, p: nat)
    requires d > 0
    ensures PassCount(w, d, p).Some? <==> exists m: nat :: Lands(w, d, p, m)
    ensures PassCount(w, d, p).Some? ==>
              Lands(w, d, p, PassCount(w, d, p).value) && forall m: nat :: m < PassCount(w, d, p).value ==> !Lands(w,
                    d, p, m)
    decreases |w| - p
  {
    hide Lands;
    LandsFirst(w, d, p);
    if p + d >= |w| || w[p + d] == DEADBEEF {
      forall m: nat | p + d >= |w| ensures !Lands(w, d, p, m) {
        LandsWithin(w, d, p, m);
      }
    } else {
      HaltsExactlyWhen(w, d, p + d);
      forall m: nat | m >= 2 ensures Lands(w, d, p, m) <==> Lands(w, d, p + d, m - 1) {
        LandsLater(w, d, p, m);
      }
      if PassCount(w, d, p + d).Some? {
        assert Lands(w, d, p, PassCount(w, d, p + d).value + 1);
      }
    }
  }

  lemma LandsFirst(w: seq<Word>, d: nat, p: nat)
    ensures Lands(w, d, p, 1) <==> p + d < |w| && w[p + d] == DEADBEEF
    ensures !Lands(w, d, p, 0)
  {}

  lemma LandsWithin(w: seq<Word>, d: nat, p: nat, m: nat)
    requires p + d >= |w|
    ensures !Lands(w, d, p, m)
  {
    if m >= 2 {
      LandsLater(w, d, p, m);
    }
  }

  /** One orbit with as many blocks as set map bits and a kept muon in every block. */
  ghost predicate WellFormedOrbit(o: seq<Word>, n: nat, doZS: bool) {
    && |o| == OrbitWords(n)
    && o[HEADER + BLOCK * n] == 0xbeefdead
    && (forall j :: 0 <= j < n ==> o[HEADER + BLOCK * j] != BEEFDEAD && !NoMuons(BlockAt(o, j), doZS))
    && PopcountSum(o[HEADER + BLOCK * n + 8..HEADER + BLOCK * n + 8 + MAP_WORDS]) == n
  }

  /** One orbit closed by the packet trailer. */
  ghost predicate SingleOrbit(w: seq<Word>, n: nat, doZS: bool) {
    && |w| == OrbitWords(n) + 8
    && WellFormedOrbit(w[..OrbitWords(n)], n, doZS)
    && w[OrbitWords(n)] == 0xdeadbeef
  }

  lemma {:induction false} TrailerAt(w: seq<Word>, j: nat, n: nat)
    requires j <= n && HEADER + BLOCK * n + TRAILER <= |w| && w[HEADER + BLOCK * n] == BEEFDEAD
    requires forall i :: j <= i < n ==> w[HEADER + BLOCK * i] != BEEFDEAD
    ensures FindTrailer(w, j) == Some(n)
    decreases n - j
  {
    if j == n {
    } else {
      TrailerAt(w, j + 1, n);
    }
  }

  /** A trailer is found after `n` blocks exactly when there is the first one at a block position, with
      room for all of it. */
  lemma TrailerFoundExactlyWhen(w: seq<Word>, n: nat)
    ensures FindTrailer(w, 0) == Some(n) <==>
            HEADER + BLOCK * n + TRAILER <= |w| && w[HEADER + BLOCK * n] == BEEFDEAD
            && forall i :: 0 <= i < n ==> w[HEADER + BLOCK * i] != BEEFDEAD
  {
    if FindTrailer(w, 0) == Some(n) {
      TrailerFound(w, 0);
    } else if HEADER + BLOCK * n + TRAILER <= |w| && w[HEADER + BLOCK * n] == BEEFDEAD
              && forall i :: 0 <= i < n ==> w[HEADER + BLOCK * i] != BEEFDEAD {
      TrailerAt(w, 0, n);
    }
  }

  lemma {:induction false} AllFull(w: seq<Word>, j: nat, n: nat, doZS: bool)
    requires j <= n && HEADER + BLOCK * n <= |w|
    requires forall i :: j <= i < n ==> !NoMuons(BlockAt(w, i), doZS)
    ensures |FullBlocks(w, j, n, doZS)| == n - j
    ensures forall k :: 0 <= k < n - j ==> FullBlocks(w, j, n, doZS)[k] == BlockAt(w, j + k)
    decreases n - j
  {
    if j == n {
    } else {
      AllFull(w, j + 1, n, doZS);
      forall k | 0 < k < n - j ensures FullBlocks(w, j, n, doZS)[k] == BlockAt(w, j + k) {
        assert FullBlocks(w, j, n, doZS)[k] == FullBlocks(w, j + 1, n, doZS)[k - 1];
        assert BlockAt(w, j + k) == BlockAt(w, j + 1 + (k - 1));
      }
    }
  }

  /** Muons in a list of records. */
  function MuonCount(rs: seq<BxRecord>): nat {
    if rs == [] then 0 else |rs[0].first| + |rs[0].second| + MuonCount(rs[1..])
  }

  /** The write cursor has moved by three words per muon and three per record. */
  lemma {:induction false} EncodedLength(rs: seq<BxRecord>)
    ensures |EncodeAll(rs)| == 3 * (MuonCount(rs) + |rs|)
    ensures (forall k :: 0 <= k < |rs| ==> Encodable(rs[k])) ==> MuonCount(rs) <= 16 * |rs|
    decreases |rs|
  {
    if rs == [] {
    } else {
      EncodedLength(rs[1..]);
    }
  }

  /** The words and the muons of the records still to come. */
  ghost predicate Remain(w: seq<Word>, j: nat, n: nat, bxs: seq<Word>, rel: nat, doZS: bool, words: seq<Word>,
                         muons: nat)
    requires j <= n && HEADER + BLOCK * n <= |w| && rel <= |bxs|
  {
    words == EncodeAll(Records(w, j, n, bxs, rel, doZS)) && muons == MuonCount(Records(w, j, n, bxs, rel, doZS))
  }

  lemma AllRemain(w: seq<Word>, n: nat, bxs: seq<Word>, doZS: bool)
    requires HEADER + BLOCK * n <= |w|
    ensures var rs := Records(w, 0, n, bxs, 0, doZS); Remain(w, 0, n, bxs, 0, doZS, EncodeAll(rs), MuonCount(rs))
  {}

  lemma NothingRemains(w: seq<Word>, j: nat, n: nat, bxs: seq<Word>, rel: nat, doZS: bool, words: seq<Word>, muons: nat)
    requires j <= n && HEADER + BLOCK * n <= |w| && rel <= |bxs| && (j == n || rel == |bxs|)
    requires Remain(w, j, n, bxs, rel, doZS, words, muons)
    ensures words == [] && muons == 0
  {}

  lemma SameRemain(w: seq<Word>, j: nat, n: nat, bxs: seq<Word>, rel: nat, doZS: bool, words: seq<Word>, muons: nat)
    requires j < n && HEADER + BLOCK * n <= |w| && rel < |bxs| && NoMuons(BlockAt(w, j), doZS)
    requires Remain(w, j, n, bxs, rel, doZS, words, muons)
    ensures Remain(w, j + 1, n, bxs, rel, doZS, words, muons)
  {}

  lemma FewerRemain(w: seq<Word>, j: nat, n: nat, bxs: seq<Word>, rel: nat, doZS: bool, words: seq<Word>, muons: nat,
                    written: seq<Word>, kept: nat)
    returns (words': seq<Word>, muons': nat)
    requires j < n && HEADER + BLOCK * n <= |w| && rel < |bxs| && !NoMuons(BlockAt(w, j), doZS)
    requires Remain(w, j, n, bxs, rel, doZS, words, muons)
    requires var r := Meaning(BlockAt(w, j), bxs[rel], doZS); written == Encoded(r) && kept == |r.first| + |r.second|
    ensures Remain(w, j + 1, n, bxs, rel + 1, doZS, words', muons')
    ensures words == written + words' && muons == kept + muons'
  {
    words' := EncodeAll(Records(w, j + 1, n, bxs, rel + 1, doZS));
    muons' := MuonCount(Records(w, j + 1, n, bxs, rel + 1, doZS));
    RecordsStep(w, j, n, bxs, rel, doZS);
  }

  /** The first record to come and the rest. */
  lemma RecordsStep(w: seq<Word>, j: nat, n: nat, bxs: seq<Word>, rel: nat, doZS: bool)
    requires j < n && HEADER + BLOCK * n <= |w| && rel < |bxs| && !NoMuons(BlockAt(w, j), doZS)
    ensures var r := Meaning(BlockAt(w, j), bxs[rel], doZS);
            var rest := Records(w, j + 1, n, bxs, rel + 1, doZS);
            && EncodeAll(Records(w, j, n, bxs, rel, doZS)) == Encoded(r) + EncodeAll(rest)
            && MuonCount(Records(w, j, n, bxs, rel, doZS)) == |r.first| + |r.second| + MuonCount(rest)
  {
    var r := Meaning(BlockAt(w, j), bxs[rel], doZS);
    assert ([r] + Records(w, j + 1, n, bxs, rel + 1, doZS))[1..] == Records(w, j + 1, n, bxs, rel + 1, doZS);
  }

  /** Where `process` puts the end of the output after one pass. */
  function ClosedForm(counts: nat, crossings: nat): nat { 3 * counts + 3 * crossings }

  lemma AllFullRecords(w: seq<Word>, n: nat, bxs: seq<Word>, doZS: bool)
    requires HEADER + BLOCK * n <= |w| && |bxs| == n
    requires forall j :: 0 <= j < n ==> !NoMuons(BlockAt(w, j), doZS)
    ensures var rs := Records(w, 0, n, bxs, 0, doZS);
            |rs| == n && forall k :: 0 <= k < n ==> rs[k] == Meaning(BlockAt(w, k), bxs[k], doZS)
  {
    AllFull(w, 0, n, doZS);
    RecordsPair(w, 0, n, bxs, 0, doZS);
    var rs := Records(w, 0, n, bxs, 0, doZS);
    forall k | 0 <= k < n ensures rs[k] == Meaning(BlockAt(w, k), bxs[k], doZS) {
      assert FullBlocks(w, 0, n, doZS)[k] == BlockAt(w, 0 + k) && bxs[0 + k] == bxs[k];
    }
  }

  lemma SamePrefix(o: seq<Word>, w: seq<Word>, lo: nat, hi: nat)
    requires o <= w && lo <= hi <= |o|
    ensures w[lo..hi] == o[lo..hi]
  {}

  lemma FirstBlocks(o: seq<Word>, w: seq<Word>, n: nat, doZS: bool)
    requires o <= w && WellFormedOrbit(o, n, doZS)
    ensures forall j :: 0 <= j < n ==> BlockAt(w, j) == BlockAt(o, j)
  {
    forall j | 0 <= j < n ensures BlockAt(w, j) == BlockAt(o, j) {
      assert BLOCK * j + BLOCK <= BLOCK * n;
      SamePrefix(o, w, HEADER + BLOCK * j, HEADER + BLOCK * j + BLOCK);
    }
  }

  /** However the packet goes on, its first orbit is found, and its records are written. */
  lemma FirstOrbit(o: seq<Word>, w: seq<Word>, n: nat, doZS: bool)
    requires o <= w && WellFormedOrbit(o, n, doZS)
    ensures FindTrailer(w, 0) == Some(n) && CrossingsOf(w, n) == CrossingsOf(o, n)
    ensures |CrossingsOf(o, n)| == n && StrictlyIncreasing(CrossingsOf(o, n))
    ensures var rs := Records(w, 0, n, CrossingsOf(w, n), 0, doZS);
      && |rs| == n && Decode(EncodeAll(rs)) == Some(rs)
      && forall k :: 0 <= k < n ==> rs[k] == Meaning(BlockAt(o, k), CrossingsOf(o, n)[k], doZS)
  {
    CrossingsAreTheSetBits(o[HEADER + BLOCK * n + 8..HEADER + BLOCK * n + 8 + MAP_WORDS]);
    hide Records, Decode, EncodeAll, Meaning, NoMuons, Crossings, FindTrailer;
    FirstBlocks(o, w, n, doZS);
    forall j | 0 <= j < n ensures w[HEADER + BLOCK * j] != BEEFDEAD {
      assert BLOCK * j + BLOCK <= BLOCK * n;
    }
    TrailerAt(w, 0, n);
    SamePrefix(o, w, HEADER + BLOCK * n + 8, HEADER + BLOCK * n + 8 + MAP_WORDS);
    AllFullRecords(w, n, CrossingsOf(w, n), doZS);
    OrbitDecodes(w, n, CrossingsOf(w, n), doZS);
  }

  /** Meaning is preserved: a well-formed single-orbit packet is done in one pass, and its output
      decodes to one record per block, in block order, under the crossings of the map in ascending
      order. The closed form for the end of the output is where the last record ends. */
  lemma SingleOrbitMeaning(w: seq<Word>, n: nat, doZS: bool)
    requires SingleOrbit(w, n, doZS)
    ensures FindTrailer(w, 0) == Some(n) && PassCount(w, OrbitWords(n), 0) == Some(1)
    ensures var bxs := CrossingsOf(w, n);
            var rs := Records(w, 0, n, bxs, 0, doZS);
            && |bxs| == n && StrictlyIncreasing(bxs)
            && Decode(EncodeAll(rs)) == Some(rs) && |rs| == n
            && (forall k :: 0 <= k < n ==> rs[k] == Meaning(BlockAt(w, k), bxs[k], doZS))
            && |EncodeAll(rs)| == ClosedForm(MuonCount(rs), |bxs|)
  {
    var o := w[..OrbitWords(n)];
    FirstOrbit(o, w, n, doZS);
    FirstBlocks(o, w, n, doZS);
    EncodedLength(Records(w, 0, n, CrossingsOf(w, n), 0, doZS));
  }

  /** The closed form of one pass agrees with the write cursor exactly when every crossing of the
      map found a block with a muon. */
  lemma ClosedFormExactlyWhen(w: seq<Word>, n: nat, bxs: seq<Word>, doZS: bool)
    requires HEADER + BLOCK * n <= |w|
    ensures var rs := Records(w, 0, n, bxs, 0, doZS);
            && |EncodeAll(rs)| == ClosedForm(MuonCount(rs), |rs|)
            && (|EncodeAll(rs)| == ClosedForm(MuonCount(rs), |bxs|) <==> |FullBlocks(w, 0, n, doZS)| >= |bxs|)
  {
    RecordsPair(w, 0, n, bxs, 0, doZS);
    EncodedLength(Records(w, 0, n, bxs, 0, doZS));
  }

  /** After `m` passes the logical end is `m` times the closed form, while the orbit was written
      once: the end is right exactly for one pass in which every crossing found a block with a muon,
      unless there is nothing to write. */
  lemma EndIsRightExactlyWhen(w: seq<Word>, n: nat, bxs: seq<Word>, doZS: bool, m: nat)
    requires HEADER + BLOCK * n <= |w| && m >= 1
    ensures var rs := Records(w, 0, n, bxs, 0, doZS);
            m * ClosedForm(MuonCount(rs), |bxs|) == |EncodeAll(rs)|
            <==> (m == 1 && |FullBlocks(w, 0, n, doZS)| >= |bxs|) || bxs == []
  {
    var rs := Records(w, 0, n, bxs, 0, doZS);
    ClosedFormExactlyWhen(w, n, bxs, doZS);
    RecordsPair(w, 0, n, bxs, 0, doZS);
    MultipleIsEqual(m, ClosedForm(MuonCount(rs), |bxs|), |EncodeAll(rs)|);
  }

  lemma MultipleIsEqual(m: nat, c: nat, d: nat)
    requires m >= 1 && d <= c
    ensures m * c == d <==> (m == 1 && c == d) || c == 0
  {
    if m >= 2 {
      TwiceAtLeast(m, c);
    }
  }

  lemma TwiceAtLeast(m: nat, c: nat)
    requires m >= 2
    ensures m * c >= 2 * c
  {
    assert (m - 2) * c >= 0;
  }

  /** Sixteen output words never need more than seventeen input words' worth of room. */
  lemma PassBound(counts: nat, crossings: nat)
    requires counts <= 16 * crossings
    ensures 16 * ClosedForm(counts, crossings) <= 17 * OrbitWords(crossings)
  {}

  // ---- The frame-size test --------------------------------------------------------------------------

  /** A packet with room for its overhead passes if the rest is whole blocks; a shorter one passes if it
      is 64 bytes short of that. Both numbers are what 32 bits hold of them. */
  predicate FrameIsMultiple(bytes: nat, orbits: nat) {
    var held, overhead := bytes % 0x1_0000_0000, (576 * orbits + 32) % 0x1_0000_0000;
    if held >= overhead then (held - overhead) % 192 == 0 else (overhead - held) % 192 == 64
  }

  lemma Remainder192(k: int, r: nat)
    requires r < 192
    ensures (192 * k + r) % 192 == r
  {}

  lemma ShortBy(y: nat)
    ensures (0x1_0000_0000 - y) % 192 == 0 <==> y % 192 == 64
  {
    var q, r := y / 192, y % 192;
    if r <= 64 {
      Remainder192(22369621 - q, 64 - r);
      assert 0x1_0000_0000 - y == 192 * (22369621 - q) + (64 - r);
    } else {
      Remainder192(22369620 - q, 256 - r);
      assert 0x1_0000_0000 - y == 192 * (22369620 - q) + (256 - r);
    }
  }

  lemma SameModulo(x: int, y: int, k: int)
    requires x == y + 0x1_0000_0000 * k
    ensures x % 0x1_0000_0000 == y % 0x1_0000_0000
  {}

  /** The unsigned expression of CheckFrameMultBlock, which wraps around for short packets, tests this. */
  lemma FrameTestExactlyWhen(bytes: nat, orbits: nat)
    ensures (bytes % 0x1_0000_0000 - orbits * 544 - 32 * orbits - 32) % 0x1_0000_0000 % 192 == 0
       <==> FrameIsMultiple(bytes, orbits)
  {
    var held, whole := bytes % 0x1_0000_0000, 576 * orbits + 32;
    var overhead := whole % 0x1_0000_0000;
    SameModulo(held - overhead, held - whole, whole / 0x1_0000_0000);
    if held < overhead {
      SameModulo(0x1_0000_0000 - (overhead - held), held - overhead, 1);
      ShortBy(overhead - held);
    }
  }

  lemma WholeBlocksPass(bytes: nat, orbits: nat, blocks: nat)
    requires bytes == 576 * orbits + 32 + 192 * blocks < 0x1_0000_0000
    ensures FrameIsMultiple(bytes, orbits)
  {
    assert bytes % 0x1_0000_0000 == bytes && (576 * orbits + 32) % 0x1_0000_0000 == 576 * orbits + 32;
    Remainder192(blocks, 0);
  }

  /** No orbit has more blocks than the map has bits. */
  lemma AtMostMapBits(o: seq<Word>, n: nat, doZS: bool)
    requires WellFormedOrbit(o, n, doZS)
    ensures n <= 3584
  {
    var words := o[HEADER + BLOCK * n + 8..HEADER + BLOCK * n + 8 + MAP_WORDS];
    CrossingsAreTheSetBits(words);
    CrossingsAtMost(words, 0);
  }

  /** A well-formed single-orbit packet is never turned away by the frame-size test. */
  lemma SingleOrbitPassesFrameTest(w: seq<Word>, n: nat, doZS: bool)
    requires SingleOrbit(w, n, doZS)
    ensures FrameIsMultiple(4 * |w|, 1)
  {
    hide WellFormedOrbit;
    AtMostMapBits(w[..OrbitWords(n)], n, doZS);
    WholeBlocksPass(4 * |w|, 1, n);
  }
}
