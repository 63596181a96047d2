/** The reformatting stage of src/processor.cc, writing into its output slice in place. */
module StreamProcessors {
  import opened Basics
  import opened Slices
  import opened GmtFormat
  import opened GmtOrbit
  import opened GmtPackets

  method BitCheck(bxs: seq<Word>, word: Word, offset: nat) returns (longer: seq<Word>)
    requires offset + 32 <= 0x1_0000_0000
    ensures longer == bxs + SetBits(word, offset, 32)
  {
    hide SetBits;
    longer := bxs;
    var rest := word;
    for i := 0 to 32
      invariant longer + SetBits(rest, offset + i, 32 - i) == bxs + SetBits(word, offset, 32)
    {
      NextBit(longer, rest, offset + i, 32 - i);
      if rest % 2 == 1 {
        longer := longer + [(i + offset) as Word];
      }
      rest := rest / 2;
    }
    NoMoreBits(rest, offset + 32);
  }

  lemma NoMoreBits(rest: Word, offset: nat)
    requires offset <= 0x1_0000_0000
    ensures SetBits(rest, offset, 0) == []
  {}

  lemma NextBit(before: seq<Word>, rest: Word, offset: nat, n: nat)
    requires n > 0 && offset + n <= 0x1_0000_0000
    ensures before + SetBits(rest, offset, n)
         == (if rest % 2 == 1 then before + [offset as Word] else before) + SetBits(rest / 2, offset + 1, n - 1)
  {}

  lemma NextWord(vect: seq<Word>, words: seq<Word>, k: nat)
    requires k < |words| == MAP_WORDS
    ensures vect + Crossings(words[k..], k) == (vect + SetBits(words[k], 32 * k, 32)) + Crossings(words[k + 1..], k + 1)
  {
    assert words[k..][1..] == words[k + 1..];
  }

  lemma NoMoreWords(words: seq<Word>)
    requires |words| == MAP_WORDS
    ensures Crossings(words[MAP_WORDS..], MAP_WORDS) == []
  {}

  /** The words `ws` stand in memory from position `q` on. */
  ghost predicate Holds(out: array<Word>, q: nat, ws: seq<Word>)
    reads out
  {
    q + |ws| <= out.Length && forall i :: q <= i < q + |ws| ==> out[i] == ws[i - q]
  }

  /** Outside of positions lo to hi the memory is what it was. */
  twostate predicate SameOutside(out: array<Word>, lo: nat, hi: nat)
    reads out
  {
    forall i :: 0 <= i < out.Length && !(lo <= i < hi) ==> out[i] == old(out[i])
  }

  lemma HoldsConcat(out: array<Word>, q: nat, first: seq<Word>, second: seq<Word>)
    requires Holds(out, q, first) && Holds(out, q + |first|, second)
    ensures Holds(out, q, first + second)
  {}

  /** Three memcpy calls of four bytes each. */
  method CopyThree(out: array<Word>, q: nat, x: Word, y: Word, z: Word)
    requires q + 3 <= out.Length
    modifies out
    ensures Holds(out, q, [x, y, z]) && SameOutside(out, q, q + 3)
  {
    out[q], out[q + 1], out[q + 2] := x, y, z;
  }

  /** `bx_vect[relbx] &= ~1` or `|= 1`, and the value it then has. */
  method ReplaceLowBit(bxs: seq<Word>, rel: nat, low: Word) returns (bxs': seq<Word>, x: Word)
    requires rel < |bxs| && low < 2
    ensures x == Even(bxs[rel]) + low && bxs' == bxs[rel := x] && Even(x) == Even(bxs[rel])
  {
    x := bxs[rel] - bxs[rel] % 2 + low;
    bxs' := bxs[rel := x];
  }

  /** Copies one muon behind what was copied from position `q` on. */
  method CopyMuon(out: array<Word>, ghost q: nat, end: nat, ghost ws: seq<Word>, f: Word, s: Word, extra: Word)
    returns (end': nat, ghost ws': seq<Word>)
    requires Holds(out, q, ws) && end == q + |ws| && end + 3 <= out.Length
    modifies out
    ensures ws' == ws + [f, s, extra] && end' == end + 3
    ensures Holds(out, q, ws') && SameOutside(out, end, end')
  {
    CopyThree(out, end, f, s, extra);
    HoldsConcat(out, q, ws, [f, s, extra]);
    ws', end' := ws + [f, s, extra], end + 3;
  }

  /** The muons of the links switched on, in link order. */
  function Selected(on: seq<bool>, f: seq<Word>, s: seq<Word>, extra: Word): (ms: seq<Muon>)
    requires |on| == |f| == |s|
    ensures |ms| <= |on|
  {
    if on == [] then []
    else
      var i := |on| - 1;
      Selected(on[..i], f[..i], s[..i], extra) + (if on[i] then [Muon(f[i], s[i], extra)] else [])
  }

  lemma {:induction false} SelectedIsKept(on: seq<bool>, f: seq<Word>, s: seq<Word>, b: Block, group: nat,
                                          extra: Word, doZS: bool)
    requires |on| == |f| == |s| <= 8 && group <= 32 && forall i :: 0 <= i < |on| ==> on[i] == Keep(b[group + i], doZS)
    requires forall i :: 0 <= i < |on| ==> f[i] == b[group + i] && s[i] == b[group + 8 + i]
    ensures Selected(on, f, s, extra) == KeptMuons(b, group, extra, doZS, |on|)
    decreases |on|
  {
    if on == [] {
    } else {
      hide Keep;
      var n := |on| - 1;
      SelectedIsKept(on[..n], f[..n], s[..n], b, group, extra, doZS);
    }
  }

  /** The words of the first `i` links. */
  function LinkWords(on: seq<bool>, f: seq<Word>, s: seq<Word>, extra: Word, i: nat): seq<Word>
    requires |on| == |f| == |s| && i <= |on|
  {
    MuonWords(Selected(on[..i], f[..i], s[..i], extra))
  }

  lemma AllLinks(on: seq<bool>, f: seq<Word>, s: seq<Word>, extra: Word)
    requires |on| == |f| == |s|
    ensures LinkWords(on, f, s, extra, 0) == []
    ensures LinkWords(on, f, s, extra, |on|) == MuonWords(Selected(on, f, s, extra))
  {
    assert on[..|on|] == on && f[..|on|] == f && s[..|on|] == s;
  }

  lemma OneMoreLink(on: seq<bool>, f: seq<Word>, s: seq<Word>, extra: Word, i: nat)
    requires |on| == |f| == |s| && i < |on|
    ensures LinkWords(on, f, s, extra, i + 1)
         == LinkWords(on, f, s, extra, i) + (if on[i] then [f[i], s[i], extra] else [])
  {
    assert on[..i + 1][..i] == on[..i] && f[..i + 1][..i] == f[..i] && s[..i + 1][..i] == s[..i];
    var ms := Selected(on[..i], f[..i], s[..i], extra);
    if on[i] {
      assert (ms + [Muon(f[i], s[i], extra)])[..|ms|] == ms;
    } else {
      assert ms + [] == ms;
    }
  }

  /** Copies the muons of the links switched on behind `q`. Each gets the crossing with its low bit
      replaced as third word; the replacement is made in the vector itself. */
  method CopyMuons(out: array<Word>, q: nat, on: seq<bool>, f: seq<Word>, s: seq<Word>,
                   bxs: seq<Word>, rel: nat, low: Word, ghost extra: Word)
    returns (q': nat, bxs': seq<Word>, ghost ws: seq<Word>)
    requires |on| == |f| == |s| && rel < |bxs| && low < 2 && q + 3 * |on| <= out.Length && extra == Even(bxs[rel]) + low
    modifies out
    ensures ws == MuonWords(Selected(on, f, s, extra))
    ensures q' == q + |ws| && |ws| <= 3 * |on| && Holds(out, q, ws) && SameOutside(out, q, q')
    ensures |bxs'| == |bxs| && bxs' == bxs[rel := bxs'[rel]] && Even(bxs'[rel]) == Even(bxs[rel])
  {
    q', bxs', ws := q, bxs, [];
    AllLinks(on, f, s, extra);
    assert Holds(out, q, []);
    hide LinkWords, Selected, MuonWords, Even, Holds;
    for i := 0 to |on|
      invariant ws == LinkWords(on, f, s, extra, i) && q' == q + |ws| && |ws| <= 3 * i
      invariant Holds(out, q, ws) && SameOutside(out, q, q')
      invariant |bxs'| == |bxs| && bxs' == bxs[rel := bxs'[rel]] && Even(bxs'[rel]) == Even(bxs[rel])
    {
      OneMoreLink(on, f, s, extra, i);
      if on[i] {
        var x;
        bxs', x := ReplaceLowBit(bxs', rel, low);
        q', ws := CopyMuon(out, q, q', ws, f[i], s[i], x);
      }
    }
  }

  /** The counting loop over the eight links: which muons are kept and how many, and which links
      agree with the first one. */
  method Survey(b: Block, bxs: seq<Word>, rel: nat, doZS: bool)
    returns (onA: seq<bool>, onB: seq<bool>, first: nat, second: nat, bxMatch: nat, orbitMatch: nat)
    requires rel < |bxs|
    ensures |onA| == 8 && forall i :: 0 <= i < 8 ==> onA[i] == Keep(b[MU1F + i], doZS)
    ensures |onB| == 8 && forall i :: 0 <= i < 8 ==> onB[i] == Keep(b[MU2F + i], doZS)
    ensures first == KeptCount(b, MU1F, doZS, 8) && second == KeptCount(b, MU2F, doZS, 8)
    ensures bxMatch == 255 && orbitMatch == OrbitMatch(b, 8)
  {
    hide KeptCount, OrbitMatch, Pow2, Keep;
    onA, onB, first, second, bxMatch, orbitMatch := [], [], 0, 0, 0, 0;
    NoLinks(b, doZS);
    for i := 0 to 8
      invariant |onA| == i && forall k :: 0 <= k < i ==> onA[k] == Keep(b[MU1F + k], doZS)
      invariant |onB| == i && forall k :: 0 <= k < i ==> onB[k] == Keep(b[MU2F + k], doZS)
      invariant first == KeptCount(b, MU1F, doZS, i) && second == KeptCount(b, MU2F, doZS, i)
      invariant bxMatch == Pow2(i) - 1 && orbitMatch == OrbitMatch(b, i)
    {
      OneMoreCounted(b, doZS, i);
      PowerDoubles(i + 1);
      var bx := bxs[rel];
      bxMatch := bxMatch + (if bx == bxs[rel] then Pow2(i) else 0);
      orbitMatch := orbitMatch + (if b[i] == b[0] then Pow2(i) else 0);
      var a, c := Keep(b[MU1F + i], doZS), Keep(b[MU2F + i], doZS);
      onA, onB := onA + [a], onB + [c];
      first := first + (if a then 1 else 0);
      second := second + (if c then 1 else 0);
    }
    Pow2Of8();
  }

  lemma NoLinks(b: Block, doZS: bool)
    ensures KeptCount(b, MU1F, doZS, 0) == 0 && KeptCount(b, MU2F, doZS, 0) == 0 && OrbitMatch(b, 0) == 0
    ensures Pow2(0) == 1
  {}

  lemma Pow2Of8()
    ensures Pow2(8) == 256
  {
    assert Pow2(4) == 16;
  }

  lemma OneMoreCounted(b: Block, doZS: bool, i: nat)
    requires i < 8
    ensures KeptCount(b, MU1F, doZS, i + 1) == KeptCount(b, MU1F, doZS, i) + (if Keep(b[MU1F + i], doZS) then 1 else 0)
    ensures KeptCount(b, MU2F, doZS, i + 1) == KeptCount(b, MU2F, doZS, i) + (if Keep(b[MU2F + i], doZS) then 1 else 0)
    ensures OrbitMatch(b, i + 1) == OrbitMatch(b, i) + (if b[i] == b[0] then Pow2(i) else 0)
  {
    hide Keep;
  }

  /** One record: header, crossing, orbit, first muons, second muons. */
  method WriteRecord(out: array<Word>, q: nat, header: Word, orbit: Word, onA: seq<bool>, onB: seq<bool>,
                     mu1f: seq<Word>, mu1s: seq<Word>, mu2f: seq<Word>, mu2s: seq<Word>, bxs: seq<Word>, rel: nat)
    returns (q': nat, bxs': seq<Word>, ghost ws: seq<Word>)
    requires |onA| == |mu1f| == |mu1s| == |onB| == |mu2f| == |mu2s| == 8 && rel < |bxs| && q + 51 <= out.Length
    modifies out
    ensures ws == [header, bxs[rel], orbit] + MuonWords(Selected(onA, mu1f, mu1s, Even(bxs[rel])))
                  + MuonWords(Selected(onB, mu2f, mu2s, Odd(bxs[rel])))
    ensures q' == q + |ws| && |ws| <= 51 && Holds(out, q, ws) && SameOutside(out, q, q')
    ensures |bxs'| == |bxs| && bxs' == bxs[rel := bxs'[rel]] && Even(bxs'[rel]) == Even(bxs[rel])
  {
    ghost var head := [header, bxs[rel], orbit];
    ghost var first, second;
    CopyThree(out, q, header, bxs[rel], orbit);
    q', bxs', first := CopyMuons(out, q + 3, onA, mu1f, mu1s, bxs, rel, 0, Even(bxs[rel]));
    HoldsConcat(out, q, head, first);
    q', bxs', second := CopyMuons(out, q', onB, mu2f, mu2s, bxs', rel, 1, Odd(bxs[rel]));
    HoldsConcat(out, q, head + first, second);
    ws := head + first + second;
  }

  lemma RecordParts(b: Block, bx: Word, doZS: bool, onA: seq<bool>, onB: seq<bool>)
    requires |onA| == 8 && forall i :: 0 <= i < 8 ==> onA[i] == Keep(b[MU1F + i], doZS)
    requires |onB| == 8 && forall i :: 0 <= i < 8 ==> onB[i] == Keep(b[MU2F + i], doZS)
    ensures var header := HeaderWord(255, KeptCount(b, MU1F, doZS, 8), OrbitMatch(b, 8), KeptCount(b, MU2F, doZS, 8));
            [header, bx, b[0]] + MuonWords(Selected(onA, b[MU1F..MU1F + 8], b[MU1S..MU1S + 8], Even(bx)))
              + MuonWords(Selected(onB, b[MU2F..MU2F + 8], b[MU2S..MU2S + 8], Odd(bx)))
            == Encoded(Meaning(b, bx, doZS))
  {
    hide Selected, KeptMuons, KeptCount, OrbitMatch, MuonWords, HeaderWord, Keep;
    SelectedIsKept(onA, b[MU1F..MU1F + 8], b[MU1S..MU1S + 8], b, MU1F, Even(bx), doZS);
    SelectedIsKept(onB, b[MU2F..MU2F + 8], b[MU2S..MU2S + 8], b, MU2F, Odd(bx), doZS);
  }

  datatype ProcessorType = PASS_THROUGH | GMT

  /** How a call of `process` ends. NoTrailer: the search for the orbit trailer leaves the packet,
      where the original has no defined behaviour. NeverReturns: the packet cursor has passed the
      end of the packet and only grows from there. */
  datatype Outcome = PassedThrough | Skipped | Reformatted | NoTrailer | NeverReturns

  class StreamProcessor {
    const maxSize: nat
    const doZS: bool
    const processorType: ProcessorType
    const nOrbits: nat
    var nbPackets: nat

    constructor (maxSize: nat, doZS: bool, processorType: ProcessorType, nOrbits: nat)
      ensures this.maxSize == maxSize && this.doZS == doZS && this.processorType == processorType
      ensures this.nOrbits == nOrbits && nbPackets == 0
    {
      this.maxSize, this.doZS, this.processorType, this.nOrbits, nbPackets := maxSize, doZS, processorType, nOrbits, 0;
    }

    /** The loop over the bitmap words of the trailer at `p`. */
    method ReadMap(input: Slice, p: nat) returns (vect: seq<Word>)
      requires input.Valid() && p + TRAILER <= input.size
      ensures vect == Crossings(input.Words()[p + 8..p + 8 + MAP_WORDS], 0)
    {
      hide Crossings;
      vect := [];
      ghost var words := input.Words()[p + 8..p + 8 + MAP_WORDS];
      for k := 0 to MAP_WORDS
        invariant vect + Crossings(words[k..], k) == Crossings(words, 0)
      {
        assert words[k] == input.Words()[p + 8 + k];
        NextWord(vect, words, k);
        vect := BitCheck(vect, input.data[p + 8 + k], 32 * k);
      }
      NoMoreWords(words);
    }

    method CountBX(input: Slice) returns (bxs: Option<seq<Word>>)
      requires input.Valid()
      ensures bxs == match FindTrailer(input.Words(), 0)
                     case None => None
                     case Some(n) => Some(CrossingsOf(input.Words(), n))
    {
      var p := HEADER;
      ghost var j := 0;
      while p < input.size
        invariant p == HEADER + BLOCK * j
        invariant FindTrailer(input.Words(), j) == FindTrailer(input.Words(), 0)
        decreases input.size - p
      {
        if input.data[p] == BEEFDEAD {
          if p + TRAILER > input.size {
            return None;
          }
          var vect := ReadMap(input, p);
          return Some(vect);
        }
        p := p + BLOCK;
        j := j + 1;
      }
      return None;
    }

    /** The block the packet cursor points at. */
    method ReadBlock(input: Slice, p: nat, ghost j: nat) returns (b: Block)
      requires input.Valid() && p == HEADER + BLOCK * j && p + BLOCK <= input.size
      ensures b == BlockAt(input.Words(), j)
    {
      b := input.data[p..p + BLOCK];
      SliceOfPrefix(input.data[..], input.size, p, p + BLOCK);
    }

    /** The body of the loop over the blocks: counts, and unless there is nothing to write, a record. */
    method EncodeBlock(out: array<Word>, q: nat, b: Block, bxs: seq<Word>, rel: nat, ghost done: seq<Word>)
      returns (kept: nat, q': nat, bxs': seq<Word>, ghost ws: seq<Word>)
      requires rel < |bxs| && q + 51 <= out.Length && q == |done| && Holds(out, 0, done)
      modifies out
      ensures kept == 0 <==> NoMuons(b, doZS)
      ensures kept == 0 ==> q' == q && bxs' == bxs && ws == []
      ensures kept > 0 ==> var r := Meaning(b, bxs[rel], doZS); ws == Encoded(r) && kept == |r.first| + |r.second|
      ensures q' == q + |ws| && |ws| <= 51 && Holds(out, 0, done + ws)
      ensures forall i :: q' <= i < out.Length ==> out[i] == old(out[i])
      ensures |bxs'| == |bxs| && forall k :: 0 <= k < |bxs| && k != rel ==> bxs'[k] == bxs[k]
    {
      var onA, onB, first, second, bxMatch, orbitMatch := Survey(b, bxs, rel, doZS);
      kept, q', bxs', ws := first + second, q, bxs, [];
      if first == 0 && second == 0 {
        assert done + [] == done;
        return;
      }
      q', bxs', ws := WriteRecord(out, q, HeaderWord(bxMatch, first, orbitMatch, second), b[0], onA, onB,
                                  b[MU1F..MU1F + 8], b[MU1S..MU1S + 8], b[MU2F..MU2F + 8], b[MU2S..MU2S + 8], bxs, rel);
      RecordParts(b, bxs[rel], doZS, onA, onB);
      HoldsConcat(out, 0, done, ws);
    }

    method FillOrbit(input: Slice, out: Slice, vect: seq<Word>, ghost n: nat) returns (counts: nat, bxs: seq<Word>)
      requires input.Valid() && input.data != out.data && FindTrailer(input.Words(), 0) == Some(n)
      requires 51 * n <= out.data.Length
      modifies out.data
      ensures var ws := EncodeAll(Records(input.Words(), 0, n, vect, 0, doZS));
              |ws| <= 51 * n && Holds(out.data, 0, ws) && SameOutside(out.data, 0, |ws|)
      ensures counts == MuonCount(Records(input.Words(), 0, n, vect, 0, doZS))
      ensures |bxs| == |vect|
    {
      hide Records, NoMuons, Meaning, Encoded, EncodeAll, MuonCount, FindTrailer, Remain;
      ghost var w := input.Words();
      TrailerFound(w, 0);
      var p, q, rel := HEADER, 0, 0;
      counts, bxs := 0, vect;
      ghost var j, done: seq<Word> := 0, [];
      ghost var all, total := EncodeAll(Records(w, 0, n, vect, 0, doZS)), MuonCount(Records(w, 0, n, vect, 0, doZS));
      ghost var words, muons := all, total;
      AllRemain(w, n, vect, doZS);
      while rel < |bxs|
        invariant input.Words() == w
        invariant j <= n && p == HEADER + BLOCK * j && rel <= |bxs| == |vect|
        invariant forall k :: rel <= k < |bxs| ==> bxs[k] == vect[k]
        invariant Remain(w, j, n, vect, rel, doZS, words, muons) && done + words == all && counts + muons == total
        invariant q == |done| <= 51 * j && Holds(out.data, 0, done)
        invariant forall i :: q <= i < out.data.Length ==> out.data[i] == old(out.data[i])
        decreases n - j
      {
        if input.data[p] == BEEFDEAD {
          assert w[p] == BEEFDEAD;
          break;
        }
        var b := ReadBlock(input, p, j);
        var kept;
        ghost var added;
        kept, q, bxs, added := EncodeBlock(out.data, q, b, bxs, rel, done);
        if kept == 0 {
          assert done + added == done;
          SameRemain(w, j, n, vect, rel, doZS, words, muons);
          p := p + BLOCK;
          j := j + 1;
          continue;
        }
        counts := counts + kept;
        words, muons := FewerRemain(w, j, n, vect, rel, doZS, words, muons, added, kept);
        done := done + added;
        p := p + BLOCK;
        rel := rel + 1;
        j := j + 1;
      }
      NothingRemains(w, j, n, vect, rel, doZS, words, muons);
    }

    /** The size is in words; the test is on bytes. A packet is turned away unless it consists of whole
        blocks besides its overhead, or is 64 bytes short of that. */
    method CheckFrameMultBlock(size: nat) returns (ok: bool)
      ensures var bytes, overhead := 4 * size % 0x1_0000_0000, (576 * nOrbits + 32) % 0x1_0000_0000;
              ok <==> if bytes >= overhead then (bytes - overhead) % 192 == 0 else (overhead - bytes) % 192 == 64
      ensures ok == FrameIsMultiple(4 * size, nOrbits)
    {
      FrameTestExactlyWhen(4 * size, nOrbits);
      ok := (4 * size % 0x1_0000_0000 - nOrbits * 544 - 32 * nOrbits - 32) % 0x1_0000_0000 % 192 == 0;
    }

    /** What a pass over the packet writes. */
    ghost function OrbitRecords(w: seq<Word>, n: nat): seq<BxRecord>
      requires FindTrailer(w, 0) == Some(n)
    {
      Records(w, 0, n, CrossingsOf(w, n), 0, doZS)
    }

    /** The end of a call on a packet `w` in GMT mode, as far as it is defined. */
    ghost function Expected(w: seq<Word>): Outcome {
      if !FrameIsMultiple(4 * |w|, nOrbits) then Skipped
      else match FindTrailer(w, 0)
        case None => NoTrailer
        case Some(n) =>
          match PassCount(w, OrbitWords(|CrossingsOf(w, n)|), 0) case None => NeverReturns case Some(m) => Reformatted
    }

    /** Whether some multiple of the orbit length, for an orbit of `n` blocks, is at a packet trailer word. */
    ghost predicate Ends(w: seq<Word>, n: nat)
      requires HEADER + BLOCK * n + TRAILER <= |w|
    {
      exists m: nat :: Lands(w, OrbitWords(|CrossingsOf(w, n)|), 0, m)
    }

    /** When a packet is turned away, is left without a result, or is reformatted. */
    lemma OutcomeExactlyWhen(w: seq<Word>)
      ensures Expected(w) == Skipped <==> !FrameIsMultiple(4 * |w|, nOrbits)
      ensures Expected(w) == NoTrailer <==> FrameIsMultiple(4 * |w|, nOrbits) && FindTrailer(w, 0) == None
      ensures Expected(w) == NeverReturns <==>
              FrameIsMultiple(4 * |w|, nOrbits) && FindTrailer(w, 0).Some? && !Ends(w, FindTrailer(w, 0).value)
      ensures Expected(w) == Reformatted <==>
              FrameIsMultiple(4 * |w|, nOrbits) && FindTrailer(w, 0).Some? && Ends(w, FindTrailer(w, 0).value)
    {
      hide FrameIsMultiple, FindTrailer, PassCount, Crossings;
      if FindTrailer(w, 0).Some? {
        HaltsExactlyWhen(w, OrbitWords(|CrossingsOf(w, FindTrailer(w, 0).value)|), 0);
      }
    }

    /** One pass: the crossings are counted and the orbit is encoded at the start of the output. */
    method Pass(input: Slice, out: Slice, ghost n: nat) returns (crossings: nat, counts: nat)
      requires input.Valid() && input.data != out.data && FindTrailer(input.Words(), 0) == Some(n)
      requires 51 * n <= out.data.Length
      modifies out.data
      ensures crossings == |CrossingsOf(input.Words(), n)| && counts == MuonCount(OrbitRecords(input.Words(), n))
      ensures Holds(out.data, 0, EncodeAll(OrbitRecords(input.Words(), n)))
      ensures 16 * ClosedForm(counts, crossings) <= 17 * OrbitWords(crossings)
    {
      var vect := CountBX(input);
      var bxs;
      counts, bxs := FillOrbit(input, out, vect.value, n);
      crossings := |bxs|;
      ghost var rs := OrbitRecords(input.Words(), n);
      RecordsPair(input.Words(), 0, n, vect.value, 0, doZS);
      RecordsEncodable(input.Words(), 0, n, vect.value, 0, doZS);
      EncodedLength(rs);
      PassBound(counts, crossings);
    }

    method Process(input: Slice, out: Slice) returns (outcome: Outcome)
      requires input.Valid() && out.Valid() && input.data != out.data && input != out
      requires input.size <= maxSize && out.data.Length == 2 * maxSize
      modifies this`nbPackets, out, out.data
      ensures nbPackets == old(nbPackets) + 1 && out.Valid()
      ensures processorType == PASS_THROUGH ==>
                outcome == PassedThrough && out.Words() == input.Words() && out.counts == 1
      ensures processorType == GMT ==> outcome == Expected(input.Words())
      ensures !outcome.PassedThrough? && !outcome.Reformatted? ==>
                out.size == old(out.size) && out.counts == old(out.counts)
      ensures outcome.Reformatted? ==>
                var w := input.Words();
                var n := FindTrailer(w, 0).value;
                var rs := OrbitRecords(w, n);
                var m := PassCount(w, OrbitWords(|CrossingsOf(w, n)|), 0).value;
                && Holds(out.data, 0, EncodeAll(rs))
                && out.size == m * ClosedForm(MuonCount(rs), |CrossingsOf(w, n)|) && out.counts == m * MuonCount(rs)
    {
      nbPackets := nbPackets + 1;
      if processorType == PASS_THROUGH {
        forall i | 0 <= i < input.size {
          out.data[i] := input.data[i];
        }
        out.size, out.counts := input.size, 1;
        return PassedThrough;
      }
      var ok := CheckFrameMultBlock(input.size);
      if !ok {
        return Skipped;
      }
      var first := CountBX(input);
      if first.None? {
        return NoTrailer;
      }
      outcome := Reformat(input, out);
    }

    /** The loop over the passes. */
    method Reformat(input: Slice, out: Slice) returns (outcome: Outcome)
      requires input.Valid() && out.Valid() && input.data != out.data && input != out
      requires input.size <= maxSize && out.data.Length == 2 * maxSize
      requires FindTrailer(input.Words(), 0).Some?
      modifies out, out.data
      ensures out.Valid()
      ensures var w := input.Words();
              var n := FindTrailer(w, 0).value;
              var rs := OrbitRecords(w, n);
              match PassCount(w, OrbitWords(|CrossingsOf(w, n)|), 0)
              case None => outcome == NeverReturns && out.size == old(out.size) && out.counts == old(out.counts)
              case Some(m) =>
                && outcome == Reformatted && Holds(out.data, 0, EncodeAll(rs))
                && out.size == m * ClosedForm(MuonCount(rs), |CrossingsOf(w, n)|) && out.counts == m * MuonCount(rs)
    {
      hide OrbitRecords, CrossingsOf, MuonCount, EncodeAll, FindTrailer, Records;
      ghost var w := input.Words();
      ghost var n := FindTrailer(w, 0).value;
      ghost var d := OrbitWords(|CrossingsOf(w, n)|);
      ghost var muons := MuonCount(OrbitRecords(w, n));
      ghost var c := ClosedForm(muons, |CrossingsOf(w, n)|);
      var p, q, counts := 0, 0, 0;
      ghost var m := 0;
      while true
        invariant p <= input.size && q == m * c && counts == m * muons && 16 * q <= 17 * p
        invariant input.Words() == w && out.size == old(out.size) && out.counts == old(out.counts)
        invariant PassCount(w, d, 0) == match PassCount(w, d, p) case None => None case Some(k) => Some(k + m)
        decreases input.size - p
      {
        var crossings, muons' := Pass(input, out, n);
        p := p + HEADER + crossings * BLOCK + TRAILER;
        q := q + 3 * muons' + 3 * crossings;
        counts := counts + muons';
        OneMoreTime(m, c);
        OneMoreTime(m, muons);
        m := m + 1;
        if p >= input.size {
          return NeverReturns;
        }
        if input.data[p] == DEADBEEF {
          assert w[p] == DEADBEEF;
          out.size, out.counts := q, counts;
          return Reformatted;
        }
      }
    }

    lemma OneMoreTime(m: nat, c: nat)
      ensures (m + 1) * c == m * c + c
    {}

    /** The pipeline stage: a fresh output slice is filled and, if `process` comes back at all, the
        input slice goes back to the pool. */
    method Operator(input: Slice, pool: SlicePool) returns (out: Slice, outcome: Outcome)
      requires input.Valid() && input.size <= maxSize
      requires AllFree(pool.free) && forall s :: s in pool.free ==> s != input && s.data != input.data
      modifies this`nbPackets, pool, input`size
      ensures fresh(out) && fresh(out.data) && out.Valid() && out.data.Length == 2 * maxSize
      ensures AllFree(pool.free)
      ensures pool.free == old(pool.free) + if outcome == NoTrailer || outcome == NeverReturns then [] else [input]
      ensures processorType == PASS_THROUGH ==> outcome == PassedThrough && out.Words() == old(input.Words())
      ensures processorType == GMT ==> outcome == Expected(old(input.Words()))
      ensures !outcome.PassedThrough? && !outcome.Reformatted? ==> out.Words() == []
      ensures forall n :: processorType == GMT && nOrbits == 1 && SingleOrbit(old(input.Words()), n, doZS) ==>
                var w := old(input.Words());
                outcome == Reformatted && out.Words() == EncodeAll(Records(w, 0, n, CrossingsOf(w, n), 0, doZS))
    {
      hide EncodeAll, Records, CrossingsOf, Expected, OrbitRecords;
      ghost var w := input.Words();
      out := new Slice.Allocate(2 * maxSize);
      outcome := Process(input, out);
      forall n | processorType == GMT && nOrbits == 1 && SingleOrbit(w, n, doZS)
        ensures outcome == Reformatted && out.Words() == EncodeAll(Records(w, 0, n, CrossingsOf(w, n), 0, doZS))
      {
        SingleOrbitOutcome(w, n);
        HoldsAll(out, EncodeAll(OrbitRecords(w, n)));
      }
      if outcome != NoTrailer && outcome != NeverReturns {
        pool.GiveAllocated(input);
      }
    }

    /** A packet of several well-formed orbits passes the frame-size test; the call returns exactly when
        the length of the first orbit divides the length of all, and then wrote the first orbit only. */
    lemma MultiOrbitOutcome(w: seq<Word>, orbits: seq<seq<Word>>, ns: seq<nat>)
      requires nOrbits == |orbits| && 4 * |w| < 0x1_0000_0000
      requires MultiOrbit(w, orbits, ns, doZS) && NoStrayMarker(w, OrbitWords(ns[0]))
      ensures Expected(w) == if |Flatten(orbits)| % OrbitWords(ns[0]) == 0 then Reformatted else NeverReturns
      ensures ReadsOrbit(w, orbits[0], ns[0], doZS)
    {
      hide MultiOrbit, NoStrayMarker, FrameIsMultiple, PassCount, Records, Crossings, Decode, EncodeAll, Meaning,
           FindTrailer, Flatten;
      MultiOrbitHaltsExactlyWhen(w, orbits, ns, doZS);
      MultiOrbitPassesFrameTest(w, orbits, ns, doZS);
    }

    lemma SingleOrbitOutcome(w: seq<Word>, n: nat)
      requires nOrbits == 1 && SingleOrbit(w, n, doZS)
      ensures Expected(w) == Reformatted && FindTrailer(w, 0) == Some(n)
      ensures PassCount(w, OrbitWords(|CrossingsOf(w, n)|), 0) == Some(1)
      ensures OrbitRecords(w, n) == Records(w, 0, n, CrossingsOf(w, n), 0, doZS)
      ensures |EncodeAll(OrbitRecords(w, n))| == 1 * ClosedForm(MuonCount(OrbitRecords(w, n)), |CrossingsOf(w, n)|)
    {
      SingleOrbitPassesFrameTest(w, n, doZS);
      SingleOrbitMeaning(w, n, doZS);
    }
  }

  lemma SliceOfPrefix(s: seq<Word>, n: nat, lo: nat, hi: nat)
    requires lo <= hi <= n <= |s|
    ensures s[..n][lo..hi] == s[lo..hi]
  {}

  lemma HoldsAll(out: Slice, ws: seq<Word>)
    requires out.Valid() && Holds(out.data, 0, ws) && out.size == |ws|
    ensures out.Words() == ws
  {}
}
