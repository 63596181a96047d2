/** The names format_run_file_stem prints, and how long a prefix may be before two files share one. */
module FileNames {
  import opened Basics

  const RUNS := 0x1_0000_0000
  const INDICES := 0x8000_0000

  function Digit(d: nat): char
    requires d < 10
  {
    '0' + d as char
  }

  function Digits(n: nat): string {
    if n < 10 then [Digit(n)] else Digits(n / 10) + [Digit(n % 10)]
  }

  function Pad(s: string, width: nat): string
    decreases width - |s|
  {
    if |s| >= width then s else Pad("0" + s, width)
  }

  /** The conversion `%06d`: the width is a minimum and counts the sign. */
  function D06(x: int): string {
    if x >= 0 then Pad(Digits(x), 6) else "-" + Pad(Digits(-x), 5)
  }

  /** `%d` reads the 32 bits of an unsigned argument as a signed number. */
  function Signed32(u: nat): int { if u < 0x8000_0000 then u else u - 0x1_0000_0000 }

  /** snprintf into a buffer of PATH_MAX bytes keeps one byte for the terminator. */
  function Truncated(s: string): string { if |s| <= PATH_MAX - 1 then s else s[..PATH_MAX - 1] }

  function Stem(prefix: string, run: nat, index: nat): string {
    Truncated(prefix + "_" + D06(Signed32(run)) + "_" + D06(index) + ".dat")
  }

  // ---- A parser for such names ------------------------------------------------------------------

  predicate AllDigits(s: string) { forall k :: 0 <= k < |s| ==> '0' <= s[k] <= '9' }

  function Value(s: string): nat {
    if s == "" then 0
    else
      var c := s[|s| - 1];
      Value(s[..|s| - 1]) * 10 + (if '0' <= c <= '9' then (c - '0') as nat else 0)
  }

  function Number(s: string): int { if s != "" && s[0] == '-' then 0 - Value(s[1..]) else Value(s) }

  /** The part of `s` before the first `c`, or all of it. */
  function Upto(s: string, c: char): string {
    if s == "" || s[0] == c then "" else [s[0]] + Upto(s[1..], c)
  }

  /** Run and index of a name whose prefix has the given length. */
  function Parse(name: string, prefixLength: nat): (int, int)
    requires prefixLength < |name|
  {
    var body := name[prefixLength + 1..];
    var run := Upto(body, '_');
    var rest := if |run| < |body| then body[|run| + 1..] else "";
    (Number(run) % RUNS, Number(Upto(rest, '.')))
  }

  // ---- Round trip -------------------------------------------------------------------------------

  function Pow10(k: nat): nat { if k == 0 then 1 else 10 * Pow10(k - 1) }

  lemma {:induction false} DigitsProps(n: nat, k: nat)
    requires 1 <= k && n < Pow10(k)
    ensures AllDigits(Digits(n)) && Value(Digits(n)) == n && 1 <= |Digits(n)| <= k
    decreases n
  {
    if n >= 10 {
      DigitsProps(n / 10, k - 1);
      assert Digits(n)[..|Digits(n)| - 1] == Digits(n / 10);
    } else {
      assert Digits(n)[..0] == "";
    }
  }

  lemma {:induction false} LeadingZero(s: string)
    ensures Value("0" + s) == Value(s)
    decreases |s|
  {
    if s == "" {
      assert ("0" + s)[..0] == "";
    } else {
      LeadingZero(s[..|s| - 1]);
      assert ("0" + s)[..|s|] == "0" + s[..|s| - 1];
    }
  }

  lemma {:induction false} PadProps(s: string, width: nat)
    requires AllDigits(s) && s != ""
    ensures AllDigits(Pad(s, width)) && Value(Pad(s, width)) == Value(s)
    ensures |Pad(s, width)| == if |s| < width then width else |s|
    decreases width - |s|
  {
    if |s| >= width {
    } else {
      LeadingZero(s);
      PadProps("0" + s, width);
    }
  }

  lemma Pow10Ten()
    ensures Pow10(10) == 10_000_000_000
  {
    assert Pow10(4) == 10_000;
    assert Pow10(8) == 100_000_000;
  }

  predicate Plain(s: string) { forall k :: 0 <= k < |s| ==> s[k] != '_' && s[k] != '.' }

  lemma D06Props(x: int)
    requires -0x8000_0000 <= x < 0x8000_0000
    ensures Number(D06(x)) == x && Plain(D06(x)) && |D06(x)| <= 11 && (x >= 0 ==> |D06(x)| <= 10)
  {
    Pow10Ten();
    var n := if x >= 0 then x else -x;
    DigitsProps(n, 10);
    PadProps(Digits(n), if x >= 0 then 6 else 5);
    if x < 0 {
      assert D06(x)[1..] == Pad(Digits(n), 5);
    }
  }

  function Zeros(n: nat): string { seq(n, _ => '0') }

  /** Padding puts zeros in front until the width is reached, and cuts nothing off. */
  lemma {:induction false} PadIs(s: string, width: nat)
    ensures Pad(s, width) == Zeros(if |s| < width then width - |s| else 0) + s
    decreases width - |s|
  {
    if |s| >= width {
      assert Zeros(0) + s == s;
    } else {
      PadIs("0" + s, width);
      assert Zeros(width - |s|) + s == Zeros(width - |s| - 1) + ("0" + s);
    }
  }

  lemma {:induction false} NoLeadingZero(n: nat)
    requires n > 0
    ensures Digits(n)[0] != '0'
    decreases n
  {
    if n < 10 {
    } else {
      NoLeadingZero(n / 10);
    }
  }

  lemma {:induction false} AtLeastDigits(n: nat, k: nat)
    requires n >= Pow10(k)
    ensures |Digits(n)| > k
    decreases k
  {
    if k == 0 {
    } else {
      AtLeastDigits(n / 10, k - 1);
    }
  }

  lemma Million()
    ensures Pow10(6) == 1_000_000
  {
    assert Pow10(3) == 1000;
  }

  /** `%06d` prints at least six characters: exactly six for numbers below a million, zeros standing before
      the digits, and for others the digits alone, without a zero in front; the sign takes a place. */
  lemma PaddedToSix(x: int)
    ensures |D06(x)| >= 6
    ensures 0 <= x < 1_000_000 ==>
              |D06(x)| == 6 && |Digits(x)| <= 6 && D06(x) == Zeros(6 - |Digits(x)|) + Digits(x)
    ensures x >= 1_000_000 ==> D06(x) == Digits(x) && D06(x)[0] != '0'
    ensures x < 0 ==> D06(x)[0] == '-' && |D06(x)| == 1 + (if |Digits(-x)| < 5 then 5 else |Digits(-x)|)
  {
    Million();
    hide Digits, Pow10, Pad;
    if x >= 0 {
      PadIs(Digits(x), 6);
      if x < 1_000_000 {
        DigitsProps(x, 6);
      } else {
        AtLeastDigits(x, 6);
        NoLeadingZero(x);
        assert Zeros(0) + Digits(x) == Digits(x);
      }
    } else {
      PadIs(Digits(-x), 5);
    }
  }

  lemma {:induction false} UptoFinds(s: string, c: char, rest: string)
    requires forall k :: 0 <= k < |s| ==> s[k] != c
    requires rest == "" || rest[0] == c
    ensures Upto(s + rest, c) == s
    decreases |s|
  {
    if s == "" {
      assert s + rest == rest;
    } else {
      assert (s + rest)[1..] == s[1..] + rest;
      UptoFinds(s[1..], c, rest);
    }
  }

  lemma ParseBody(name: string, prefixLength: nat, run: string, index: string, rest: string)
    requires prefixLength < |name| && name[prefixLength + 1..] == run + "_" + index + rest
    requires Plain(run) && Plain(index) && (rest == "" || rest[0] == '.')
    ensures Parse(name, prefixLength) == (Number(run) % RUNS, Number(index))
  {
    var body := name[prefixLength + 1..];
    assert body == run + ("_" + index + rest);
    UptoFinds(run, '_', "_" + index + rest);
    assert body[|run| + 1..] == index + rest;
    UptoFinds(index, '.', rest);
  }

  lemma TruncationSparesDigits(prefix: string, r: string, i: string)
    requires |prefix| + 1 + |r| + 1 + |i| <= PATH_MAX - 1
    ensures var name := Truncated(prefix + "_" + r + "_" + i + ".dat");
            var kept := |name| - (|prefix| + 1 + |r| + 1 + |i|);
            |prefix| < |name| && 0 <= kept <= 4 && name[|prefix| + 1..] == r + "_" + i + ".dat"[..kept]
  {
    var head := prefix + "_" + r + "_" + i;
    var name := Truncated(head + ".dat");
    var kept := |name| - |head|;
    assert name == head + ".dat"[..kept];
    assert head[|prefix| + 1..] == r + "_" + i;
    assert name[|prefix| + 1..] == head[|prefix| + 1..] + ".dat"[..kept];
  }

  lemma ParseTruncated(prefix: string, r: string, i: string)
    requires Plain(r) && Plain(i) && |prefix| + 1 + |r| + 1 + |i| <= PATH_MAX - 1
    ensures var name := Truncated(prefix + "_" + r + "_" + i + ".dat");
            |prefix| < |name| && Parse(name, |prefix|) == (Number(r) % RUNS, Number(i))
  {
    TruncationSparesDigits(prefix, r, i);
    var name := Truncated(prefix + "_" + r + "_" + i + ".dat");
    ParseBody(name, |prefix|, r, i, ".dat"[..|name| - (|prefix| + 1 + |r| + 1 + |i|)]);
  }

  lemma SignedBack(run: nat)
    requires run < RUNS
    ensures Signed32(run) % RUNS == run && -0x8000_0000 <= Signed32(run) < 0x8000_0000
  {}

  /** A name tells its run and index as long as truncation stays clear of the digits. */
  lemma ParseInvertsStem(prefix: string, run: nat, index: nat)
    requires run < RUNS && index < INDICES && |prefix| + 23 <= PATH_MAX - 1
    ensures |prefix| < |Stem(prefix, run, index)|
    ensures Parse(Stem(prefix, run, index), |prefix|) == (run, index)
  {
    SignedBack(run);
    D06Props(Signed32(run));
    D06Props(index);
    ParseTruncated(prefix, D06(Signed32(run)), D06(index));
  }

  lemma Truncates(s: string)
    requires |s| <= PATH_MAX - 1
    ensures Truncated(s) == s
  {}

  /** A name with six-digit numbers and room for them: prefix, run and index in six places each, and
      the extension. */
  lemma StemInPlaces(prefix: string, run: nat, index: nat)
    requires run < 1_000_000 && index < 1_000_000 && |prefix| + 18 <= PATH_MAX - 1
    ensures var name, n := Stem(prefix, run, index), |prefix|;
      && |name| == n + 18 && name[..n] == prefix && name[n] == '_' && name[n + 7] == '_'
      && name[n + 1..n + 7] == D06(run) && name[n + 8..n + 14] == D06(index) && name[n + 14..] == ".dat"
  {
    PaddedToSix(run);
    PaddedToSix(index);
    assert Signed32(run) == run;
    hide D06;
    var r, i := D06(run), D06(index);
    assert |prefix + "_" + r + "_" + i + ".dat"| == |prefix| + 18;
    Truncates(prefix + "_" + r + "_" + i + ".dat");
  }

  lemma StemOfFirstRun()
    ensures Stem("scout", 1, 0) == "scout_000001_000000.dat"
  {
    assert D06(1) == "000001" by {
      PaddedToSix(1);
      assert Digits(1) == "1" && Zeros(5) == "00000";
    }
    assert D06(0) == "000000" by {
      PaddedToSix(0);
      assert Digits(0) == "0" && Zeros(5) == "00000";
    }
    assert Signed32(1) == 1;
    hide D06;
    Truncates("scout" + "_" + D06(1) + "_" + D06(0) + ".dat");
  }

  /** What lies beyond the cut does not show. */
  lemma CutEqual(head: string, tail: string, tail': string)
    requires |head| >= PATH_MAX - 1 && |tail| == |tail'|
    ensures Truncated(head + tail) == Truncated(head + tail')
  {
    assert forall t: string :: (head + t)[..PATH_MAX - 1] == head[..PATH_MAX - 1];
  }

  lemma LastDigitCut(prefix: string, r: string, common: string, x: char, y: char)
    requires |prefix| + 1 + |r| + 1 + |common| >= PATH_MAX - 1
    ensures Truncated(prefix + "_" + r + "_" + (common + [x]) + ".dat") ==
            Truncated(prefix + "_" + r + "_" + (common + [y]) + ".dat")
  {
    var head := prefix + "_" + r + "_" + common;
    CutEqual(head, [x] + ".dat", [y] + ".dat");
    assert prefix + "_" + r + "_" + (common + [x]) + ".dat" == head + ([x] + ".dat");
    assert prefix + "_" + r + "_" + (common + [y]) + ".dat" == head + ([y] + ".dat");
  }

  lemma LongPrefixCollides(prefix: string)
    requires |prefix| + 23 > PATH_MAX - 1
    ensures Stem(prefix, 0x8000_0000, 2147483646) == Stem(prefix, 0x8000_0000, 2147483647)
  {
    hide *;
    NineDigits();
    TenDigits();
    StemOf(prefix, 2147483646);
    StemOf(prefix, 2147483647);
    LastDigitCut(prefix, D06(-2147483648), Digits(214748364), '6', '7');
  }

  lemma StemOf(prefix: string, index: nat)
    ensures Stem(prefix, 0x8000_0000, index) ==
            Truncated(prefix + "_" + D06(-2147483648) + "_" + D06(index) + ".dat")
  {
    hide D06, Truncated;
  }

  lemma NineDigits()
    ensures |Digits(214748364)| == 9
    ensures D06(2147483646) == Digits(214748364) + ['6'] && D06(2147483647) == Digits(214748364) + ['7']
  {
    assert |Digits(2147)| == 4;
    assert |Digits(2147483)| == 7;
  }

  lemma TenDigits()
    ensures |D06(-2147483648)| == 11
  {
    NineDigits();
    assert Digits(2147483648) == Digits(214748364) + [Digit(8)];
  }

  /** Distinct (run, index) pairs get distinct names exactly when the prefix has at most 4072 characters. */
  lemma NamesDistinctExactlyWhen(prefix: string)
    ensures (forall run: nat, index: nat, run': nat, index': nat ::
               (run < RUNS && index < INDICES && run' < RUNS && index' < INDICES &&
                Stem(prefix, run, index) == Stem(prefix, run', index')) ==> run == run' && index == index')
       <==> |prefix| <= 4072
  {
    if |prefix| + 23 <= PATH_MAX - 1 {
      forall run: nat, index: nat, run': nat, index': nat
        | run < RUNS && index < INDICES && run' < RUNS && index' < INDICES &&
          Stem(prefix, run, index) == Stem(prefix, run', index')
        ensures run == run' && index == index'
      {
        ParseInvertsStem(prefix, run, index);
        ParseInvertsStem(prefix, run', index');
      }
    } else {
      LongPrefixCollides(prefix);
    }
  }
}
