/** Version comparison (src/boot/vercmp.rs): the segment scanner, the comparison loop, and the
    order they amount to. */
module Vercmp {
  import opened Arith
  import opened Common
  import opened Text

  datatype Ordering = Less | Equal | Greater

  function Flip(o: Ordering): Ordering {
    match o
    case Less => Greater
    case Equal => Equal
    case Greater => Less
  }

  datatype Seg = Num(text: string) | Alpha(text: string)

  // ---- Segments ----

  /** Length of the run of digits, or of letters, that starts `s`. */
  function RunLen(s: string, digits: bool): (n: nat)
    ensures n <= |s|
    ensures forall i :: 0 <= i < n ==> if digits then IsDigit(s[i]) else IsAlpha(s[i])
  {
    if s != [] && (if digits then IsDigit(s[0]) else IsAlpha(s[0])) then 1 + RunLen(s[1..], digits) else 0
  }

  function Segments(s: string): (segs: seq<Seg>)
    ensures forall i :: 0 <= i < |segs| ==> segs[i].text != [] && (segs[i].Num? ==> AllDigits(segs[i].text))
    decreases |s|
  {
    if s == [] then []
    else if IsDigit(s[0]) then
      var n := RunLen(s, true);
      [Num(s[..n])] + Segments(s[n..])
    else if IsAlpha(s[0]) then
      var n := RunLen(s, false);
      [Alpha(s[..n])] + Segments(s[n..])
    else Segments(s[1..])
  }

  /** The scanner's inner loop: the end of the run that contains position `start`. */
  method ScanRun(s: string, start: nat, digits: bool) returns (i: nat)
    requires start <= |s|
    ensures i == start + RunLen(s[start..], digits)
  {
    i := start;
    while i < |s| && (if digits then IsDigit(s[i]) else IsAlpha(s[i]))
      invariant start <= i <= |s|
      invariant i + RunLen(s[i..], digits) == start + RunLen(s[start..], digits)
    {
      assert s[i..][1..] == s[i + 1..];
      i := i + 1;
    }
  }

  lemma NextSegment(s: string, start: nat, i: nat)
    requires start < |s| && (IsDigit(s[start]) || IsAlpha(s[start]))
    requires i == start + RunLen(s[start..], IsDigit(s[start]))
    ensures start < i <= |s|
    ensures Segments(s[start..]) ==
            [if IsDigit(s[start]) then Num(s[start..i]) else Alpha(s[start..i])] + Segments(s[i..])
  {
    var rest := s[start..];
    assert rest[..i - start] == s[start..i] && rest[i - start..] == s[i..];
  }

  method Scan(s: string) returns (segs: seq<Seg>)
    ensures segs == Segments(s)
  {
    hide RunLen;
    segs := [];
    var i := 0;
    assert s[0..] == s;
    while i < |s|
      invariant i <= |s|
      invariant segs + Segments(s[i..]) == Segments(s)
    {
      ghost var rest := s[i..];
      if IsDigit(s[i]) || IsAlpha(s[i]) {
        var start, digits := i, IsDigit(s[i]);
        i := ScanRun(s, start, digits);
        var seg := if digits then Num(s[start..i]) else Alpha(s[start..i]);
        NextSegment(s, start, i);
        assert segs + ([seg] + Segments(s[i..])) == (segs + [seg]) + Segments(s[i..]);
        segs := segs + [seg];
      } else {
        assert rest[1..] == s[i + 1..];
        i := i + 1;
      }
    }
    assert s[i..] == [] && segs + [] == segs;
  }

  lemma {:induction false} RunIsWhole(run: string, rest: string, digits: bool)
    requires forall i :: 0 <= i < |run| ==> if digits then IsDigit(run[i]) else IsAlpha(run[i])
    requires rest != [] ==> if digits then !IsDigit(rest[0]) else !IsAlpha(rest[0])
    ensures RunLen(run + rest, digits) == |run|
  {
    if run == [] {
      assert run + rest == rest;
    } else {
      assert (run + rest)[1..] == run[1..] + rest;
      RunIsWhole(run[1..], rest, digits);
    }
  }

  /** Segments are whole runs: digits up to the first character that is none, letters likewise; a
      character that is neither separates and is left out. */
  lemma SegmentsAreWholeRuns(run: string, rest: string)
    requires run != []
    ensures AllDigits(run) && (rest != [] ==> !IsDigit(rest[0])) ==> Segments(run + rest) == [Num(run)] + Segments(rest)
    ensures (forall i :: 0 <= i < |run| ==> IsAlpha(run[i])) && (rest != [] ==> !IsAlpha(rest[0])) ==>
              Segments(run + rest) == [Alpha(run)] + Segments(rest)
    ensures |run| == 1 && !IsDigit(run[0]) && !IsAlpha(run[0]) ==> Segments(run + rest) == Segments(rest)
    ensures Segments([]) == []
  {
    hide RunLen;
    var s := run + rest;
    assert s[|run|..] == rest && s[..|run|] == run && s[0] == run[0];
    if AllDigits(run) && (rest != [] ==> !IsDigit(rest[0])) {
      RunIsWhole(run, rest, true);
    }
    if (forall i :: 0 <= i < |run| ==> IsAlpha(run[i])) && (rest != [] ==> !IsAlpha(rest[0])) {
      RunIsWhole(run, rest, false);
    }
  }

  function Texts(segs: seq<Seg>): string {
    if segs == [] then [] else segs[0].text + Texts(segs[1..])
  }

  function Alphanumerics(s: string): string {
    if s == [] then []
    else (if IsDigit(s[0]) || IsAlpha(s[0]) then [s[0]] else []) + Alphanumerics(s[1..])
  }

  lemma {:induction false} AlphanumericsOfRun(run: string, rest: string)
    requires forall i :: 0 <= i < |run| ==> IsDigit(run[i]) || IsAlpha(run[i])
    ensures Alphanumerics(run + rest) == run + Alphanumerics(rest)
  {
    if run == [] {
      assert run + rest == rest;
    } else {
      assert (run + rest)[1..] == run[1..] + rest;
      AlphanumericsOfRun(run[1..], rest);
    }
  }

  /** Segmenting drops the separators and nothing else. */
  lemma {:induction false} SegmentsKeepEverything(s: string)
    ensures Texts(Segments(s)) == Alphanumerics(s)
    decreases |s|
  {
    if s != [] {
      if IsDigit(s[0]) || IsAlpha(s[0]) {
        var n := RunLen(s, IsDigit(s[0]));
        AlphanumericsOfRun(s[..n], s[n..]);
        SegmentsKeepEverything(s[n..]);
        assert s == s[..n] + s[n..];
        assert Segments(s)[1..] == Segments(s[n..]);
      } else {
        SegmentsKeepEverything(s[1..]);
      }
    }
  }

  // ---- Comparison ----

  function CmpNat(a: nat, b: nat): Ordering {
    if a < b then Less else if a == b then Equal else Greater
  }

  /** `str::cmp`. */
  function CmpText(a: string, b: string): Ordering {
    if a == [] then (if b == [] then Equal else Less)
    else if b == [] then Greater
    else if a[0] != b[0] then (if a[0] < b[0] then Less else Greater)
    else CmpText(a[1..], b[1..])
  }

  function TrimZeros(s: string): (t: string)
    ensures |t| <= |s| && t == s[|s| - |t|..] && (t != [] ==> t[0] != '0')
  {
    if s != [] && s[0] == '0' then TrimZeros(s[1..]) else s
  }

  function CmpNumeric(a: string, b: string): Ordering {
    var x, y := TrimZeros(a), TrimZeros(b);
    if |x| != |y| then CmpNat(|x|, |y|) else CmpText(x, y)
  }

  function CmpSeg(x: Seg, y: Seg): Ordering {
    match (x, y)
    case (Num(a), Num(b)) => CmpNumeric(a, b)
    case (Alpha(a), Alpha(b)) => CmpText(a, b)
    case (Num(_), Alpha(_)) => Greater
    case (Alpha(_), Num(_)) => Less
  }

  function CmpSegs(a: seq<Seg>, b: seq<Seg>): Ordering {
    if a == [] || b == [] then CmpNat(|a|, |b|)
    else if CmpSeg(a[0], b[0]) != Equal then CmpSeg(a[0], b[0])
    else CmpSegs(a[1..], b[1..])
  }

  function Compare(a: string, b: string): Ordering {
    CmpSegs(Segments(a), Segments(b))
  }

  /** `vercmp`. */
  method Vercmp(a: string, b: string) returns (o: Ordering)
    ensures o == Compare(a, b)
  {
    hide CmpSeg, Segments;
    var sa := Scan(a);
    var sb := Scan(b);
    var i := 0;
    assert sa[0..] == sa && sb[0..] == sb;
    while i < |sa| && i < |sb|
      invariant i <= |sa| && i <= |sb|
      invariant CmpSegs(sa[i..], sb[i..]) == Compare(a, b)
    {
      o := CmpSeg(sa[i], sb[i]);
      if o != Equal {
        return;
      }
      assert sa[i..][1..] == sa[i + 1..] && sb[i..][1..] == sb[i + 1..];
      i := i + 1;
    }
    return CmpNat(|sa|, |sb|);
  }

  // ---- Digit segments compare by value ----

  function Pow10(n: nat): (p: nat)
    ensures p > 0
  {
    if n == 0 then 1 else 10 * Pow10(n - 1)
  }

  lemma TenTimes(a: nat, p: nat)
    ensures Mul(a, 10 * p) == 10 * Mul(a, p)
  {
  }

  lemma MulByOne(a: nat)
    ensures Mul(a, 1) == a
  {
  }

  lemma SmallFactors(d: nat, p: nat)
    ensures Mul(0, p) == 0 && Mul(1, p) == p && (d >= 1 ==> Mul(d, p) >= p)
  {
    assert d >= 1 ==> (d - 1) * p >= 0;
  }

  lemma {:induction false} ValueSplits(a: string, b: string)
    requires AllDigits(a + b) && AllDigits(a) && AllDigits(b)
    ensures DecValue(a + b) == Mul(DecValue(a), Pow10(|b|)) + DecValue(b)
  {
    hide Mul;
    if b == [] {
      MulByOne(DecValue(a));
      assert a + b == a;
    } else {
      var init := b[..|b| - 1];
      assert (a + b)[..|a + b| - 1] == a + init;
      ValueSplits(a, init);
      TenTimes(DecValue(a), Pow10(|init|));
    }
  }

  lemma {:induction false} ValueBound(s: string)
    requires AllDigits(s)
    ensures DecValue(s) < Pow10(|s|)
  {
    if s != [] {
      ValueBound(s[..|s| - 1]);
    }
  }

  lemma HeadValue(s: string)
    requires AllDigits(s) && s != []
    ensures DecValue(s) == Mul(Digit(s[0]), Pow10(|s| - 1)) + DecValue(s[1..])
    ensures DecValue(s[1..]) < Pow10(|s| - 1)
  {
    hide Mul;
    assert s == s[..1] + s[1..];
    ValueSplits(s[..1], s[1..]);
    assert DecValue(s[..1]) == Digit(s[0]) by {
      assert s[..1][..0] == [];
    }
    ValueBound(s[1..]);
  }

  lemma DigitGap(d: nat, e: nat, p: nat, u: nat, v: nat)
    requires d < e && u < p
    ensures Mul(d, p) + u < Mul(e, p) + v
  {
    SplitBound(d, p, u, e);
  }

  /** Digit texts of equal length compare like the numbers they spell. */
  lemma {:induction false} SameLengthByValue(a: string, b: string)
    requires AllDigits(a) && AllDigits(b) && |a| == |b|
    ensures CmpText(a, b) == CmpNat(DecValue(a), DecValue(b))
  {
    hide Mul, DecValue;
    if a != [] {
      HeadValue(a);
      HeadValue(b);
      if a[0] == b[0] {
        SameLengthByValue(a[1..], b[1..]);
      } else if a[0] < b[0] {
        DigitGap(Digit(a[0]), Digit(b[0]), Pow10(|a| - 1), DecValue(a[1..]), DecValue(b[1..]));
      } else {
        DigitGap(Digit(b[0]), Digit(a[0]), Pow10(|a| - 1), DecValue(b[1..]), DecValue(a[1..]));
      }
    }
  }

  lemma {:induction false} Pow10Mono(a: nat, b: nat)
    requires a <= b
    ensures Pow10(a) <= Pow10(b)
  {
    if a < b {
      Pow10Mono(a, b - 1);
    }
  }

  /** Without leading zeros, more digits spell a larger number. */
  lemma ShorterIsSmaller(a: string, b: string)
    requires AllDigits(a) && AllDigits(b) && |a| < |b| && b[0] != '0'
    ensures DecValue(a) < DecValue(b)
  {
    hide Mul, DecValue, Pow10;
    ValueBound(a);
    HeadValue(b);
    Pow10Mono(|a|, |b| - 1);
    SmallFactors(Digit(b[0]), Pow10(|b| - 1));
  }

  lemma {:induction false} ZerosDoNotCount(s: string)
    requires AllDigits(s)
    ensures AllDigits(TrimZeros(s)) && DecValue(TrimZeros(s)) == DecValue(s)
  {
    hide Mul, DecValue, Pow10;
    if s != [] && s[0] == '0' {
      HeadValue(s);
      SmallFactors(0, Pow10(|s| - 1));
      ZerosDoNotCount(s[1..]);
    }
  }

  /** Digit segments of any length compare as their numeric values. */
  lemma NumericByValue(a: string, b: string)
    requires AllDigits(a) && AllDigits(b)
    ensures CmpNumeric(a, b) == CmpNat(DecValue(a), DecValue(b))
  {
    var x, y := TrimZeros(a), TrimZeros(b);
    ZerosDoNotCount(a);
    ZerosDoNotCount(b);
    if |x| < |y| {
      ShorterIsSmaller(x, y);
    } else if |x| > |y| {
      ShorterIsSmaller(y, x);
    } else {
      SameLengthByValue(x, y);
    }
  }

  // ---- The order ----

  /** What a segment means: a number, or letters, which rank below every number. */
  datatype Key = Letters(text: string) | Number(value: nat)

  function KeyOf(s: Seg): Key
    requires s.Num? ==> AllDigits(s.text)
  {
    if s.Num? then Number(DecValue(s.text)) else Letters(s.text)
  }

  function Keys(s: string): (keys: seq<Key>)
    ensures |keys| == |Segments(s)|
  {
    var segs := Segments(s);
    seq(|segs|, i requires 0 <= i < |segs| => KeyOf(segs[i]))
  }

  function CmpKey(x: Key, y: Key): Ordering {
    match (x, y)
    case (Number(a), Number(b)) => CmpNat(a, b)
    case (Letters(a), Letters(b)) => CmpText(a, b)
    case (Number(_), Letters(_)) => Greater
    case (Letters(_), Number(_)) => Less
  }

  /** Lexicographic order of key lists. */
  function CmpKeys(a: seq<Key>, b: seq<Key>): Ordering {
    if a == [] then (if b == [] then Equal else Less)
    else if b == [] then Greater
    else if CmpKey(a[0], b[0]) != Equal then CmpKey(a[0], b[0])
    else CmpKeys(a[1..], b[1..])
  }

  lemma SegCompareByKey(x: Seg, y: Seg)
    requires (x.Num? ==> AllDigits(x.text)) && (y.Num? ==> AllDigits(y.text))
    ensures CmpSeg(x, y) == CmpKey(KeyOf(x), KeyOf(y))
  {
    hide CmpNumeric, CmpText, DecValue;
    if x.Num? && y.Num? {
      NumericByValue(x.text, y.text);
    }
  }

  lemma {:induction false} SegsCompareByKey(a: seq<Seg>, b: seq<Seg>, ka: seq<Key>, kb: seq<Key>)
    requires |ka| == |a| && |kb| == |b|
    requires forall i :: 0 <= i < |a| ==> (a[i].Num? ==> AllDigits(a[i].text)) && ka[i] == KeyOf(a[i])
    requires forall i :: 0 <= i < |b| ==> (b[i].Num? ==> AllDigits(b[i].text)) && kb[i] == KeyOf(b[i])
    ensures CmpSegs(a, b) == CmpKeys(ka, kb)
  {
    hide CmpSeg, CmpKey, KeyOf, AllDigits;
    if a != [] && b != [] {
      SegCompareByKey(a[0], b[0]);
      SegsCompareByKey(a[1..], b[1..], ka[1..], kb[1..]);
    }
  }

  /** `vercmp` is the lexicographic order of the versions' key lists. */
  lemma CompareIsByKeys(a: string, b: string)
    ensures Compare(a, b) == CmpKeys(Keys(a), Keys(b))
  {
    SegsCompareByKey(Segments(a), Segments(b), Keys(a), Keys(b));
  }

  lemma {:induction false} TextOrder(a: string, b: string, c: string)
    ensures CmpText(a, b) == Flip(CmpText(b, a))
    ensures CmpText(a, b) == Equal <==> a == b
    ensures CmpText(a, b) == Less && CmpText(b, c) == Less ==> CmpText(a, c) == Less
  {
    if a != [] && b != [] {
      TextOrder(a[1..], b[1..], if c == [] then [] else c[1..]);
      if a[0] == b[0] && a[1..] == b[1..] {
        assert a == [a[0]] + a[1..] && b == [b[0]] + b[1..];
      }
    }
  }

  lemma KeyOrder(a: Key, b: Key, c: Key)
    ensures CmpKey(a, b) == Flip(CmpKey(b, a))
    ensures CmpKey(a, b) == Equal <==> a == b
    ensures CmpKey(a, b) == Less && CmpKey(b, c) == Less ==> CmpKey(a, c) == Less
  {
    if a.Letters? && b.Letters? {
      TextOrder(a.text, b.text, if c.Letters? then c.text else []);
    }
  }

  lemma {:induction false} KeysOrder(a: seq<Key>, b: seq<Key>, c: seq<Key>)
    ensures CmpKeys(a, b) == Flip(CmpKeys(b, a))
    ensures CmpKeys(a, b) == Equal <==> a == b
    ensures CmpKeys(a, b) == Less && CmpKeys(b, c) == Less ==> CmpKeys(a, c) == Less
  {
    if a != [] && b != [] {
      KeyOrder(a[0], b[0], if c == [] then a[0] else c[0]);
      KeyOrder(b[0], if c == [] then a[0] else c[0], a[0]);
      KeysOrder(a[1..], b[1..], if c == [] then [] else c[1..]);
      if a[0] == b[0] && a[1..] == b[1..] {
        assert a == [a[0]] + a[1..] && b == [b[0]] + b[1..];
      }
    }
  }

  /** `vercmp` is a total preorder on all strings: reversing the arguments reverses the answer, the
      order is transitive, and equal versions compare alike with everything. */
  lemma CompareIsTotalPreorder(a: string, b: string, c: string)
    ensures Compare(a, b) == Flip(Compare(b, a))
    ensures Compare(a, b) != Greater && Compare(b, c) != Greater ==> Compare(a, c) != Greater
    ensures Compare(a, b) == Less && Compare(b, c) != Greater ==> Compare(a, c) == Less
    ensures Compare(a, b) == Equal ==> Compare(a, c) == Compare(b, c)
  {
    CompareIsByKeys(a, b);
    CompareIsByKeys(b, a);
    CompareIsByKeys(b, c);
    CompareIsByKeys(a, c);
    KeysOrder(Keys(a), Keys(b), Keys(c));
    KeysOrder(Keys(b), Keys(c), Keys(a));
  }

  function WithoutZeros(s: Seg): Seg {
    if s.Num? then Num(TrimZeros(s.text)) else s
  }

  /** Two versions are equal exactly when their segments agree up to leading zeros. */
  lemma EqualIffSameSegments(a: string, b: string)
    ensures Compare(a, b) == Equal <==>
            && |Segments(a)| == |Segments(b)|
            && forall i :: 0 <= i < |Segments(a)| ==> WithoutZeros(Segments(a)[i]) == WithoutZeros(Segments(b)[i])
  {
    SegsEqual(Segments(a), Segments(b));
  }

  lemma SegEqual(x: Seg, y: Seg)
    ensures CmpSeg(x, y) == Equal <==> WithoutZeros(x) == WithoutZeros(y)
  {
    hide CmpText, TrimZeros;
    TextOrder(TrimZeros(x.text), TrimZeros(y.text), []);
    TextOrder(x.text, y.text, []);
  }

  lemma {:induction false} SegsEqual(a: seq<Seg>, b: seq<Seg>)
    ensures CmpSegs(a, b) == Equal <==>
            |a| == |b| && forall i :: 0 <= i < |a| ==> WithoutZeros(a[i]) == WithoutZeros(b[i])
  {
    hide CmpSeg, WithoutZeros;
    if a != [] && b != [] {
      SegEqual(a[0], b[0]);
      SegsEqual(a[1..], b[1..]);
      assert forall i :: 0 < i < |a| ==> a[i] == a[1..][i - 1];
      assert forall i :: 0 < i < |b| ==> b[i] == b[1..][i - 1];
    }
  }

  // ---- The order, read off the keys ----

  /** `a` comes before `b` as in a dictionary: it is a proper beginning of it, or the first character
      that differs is smaller. */
  ghost predicate TextBefore(a: string, b: string) {
    exists n: nat :: n <= |a| && n <= |b| && a[..n] == b[..n] && FirstIsLess(a, b, n)
  }

  predicate FirstIsLess(a: string, b: string, n: nat)
    requires n <= |a| && n <= |b|
  {
    n < |b| && (n == |a| || a[n] < b[n])
  }

  lemma {:induction false} TextBeforeIff(a: string, b: string)
    ensures CmpText(a, b) == Less <==> TextBefore(a, b)
  {
    if a == [] || b == [] {
      if b != [] {
        assert a[..0] == b[..0] && FirstIsLess(a, b, 0);
      }
    } else if a[0] == b[0] {
      TextBeforeIff(a[1..], b[1..]);
      if TextBefore(a[1..], b[1..]) {
        var n: nat :| n <= |a[1..]| && n <= |b[1..]| && a[1..][..n] == b[1..][..n] && FirstIsLess(a[1..], b[1..], n);
        assert a[..n + 1] == [a[0]] + a[1..][..n] && b[..n + 1] == [b[0]] + b[1..][..n];
        assert FirstIsLess(a, b, n + 1);
      }
      if TextBefore(a, b) {
        var n: nat :| n <= |a| && n <= |b| && a[..n] == b[..n] && FirstIsLess(a, b, n);
        assert n > 0;
        assert a[1..][..n - 1] == a[..n][1..] && b[1..][..n - 1] == b[..n][1..];
        assert FirstIsLess(a[1..], b[1..], n - 1);
      }
    } else {
      assert a[..0] == b[..0];
      assert FirstIsLess(a, b, 0) <==> a[0] < b[0];
      assert forall n: nat :: 0 < n <= |a| && n <= |b| ==> a[..n][0] != b[..n][0];
    }
  }

  /** Numbers by value, letters as in a dictionary, letters before numbers. */
  ghost predicate KeyBefore(x: Key, y: Key) {
    match (x, y)
    case (Number(a), Number(b)) => a < b
    case (Letters(a), Letters(b)) => TextBefore(a, b)
    case (Letters(_), Number(_)) => true
    case (Number(_), Letters(_)) => false
  }

  ghost predicate KeysBefore(a: seq<Key>, b: seq<Key>) {
    exists n: nat :: n <= |a| && n <= |b| && a[..n] == b[..n] && FirstKeyBefore(a, b, n)
  }

  ghost predicate FirstKeyBefore(a: seq<Key>, b: seq<Key>, n: nat)
    requires n <= |a| && n <= |b|
  {
    n < |b| && (n == |a| || KeyBefore(a[n], b[n]))
  }

  lemma KeyBeforeIff(x: Key, y: Key)
    ensures CmpKey(x, y) == Less <==> KeyBefore(x, y)
    ensures KeyBefore(x, y) ==> x != y
    ensures CmpKey(x, y) == Equal <==> x == y
  {
    hide CmpText, TextBefore;
    if x.Letters? && y.Letters? {
      TextBeforeIff(x.text, y.text);
    }
    KeyOrder(x, y, x);
  }

  lemma {:induction false} KeysBeforeIff(a: seq<Key>, b: seq<Key>)
    ensures CmpKeys(a, b) == Less <==> KeysBefore(a, b)
  {
    hide CmpKey, KeyBefore;
    if a == [] || b == [] {
      if b != [] {
        assert a[..0] == b[..0] && FirstKeyBefore(a, b, 0);
      }
    } else {
      KeyBeforeIff(a[0], b[0]);
      if a[0] == b[0] {
        KeysBeforeIff(a[1..], b[1..]);
        if KeysBefore(a[1..], b[1..]) {
          var n: nat :| n <= |a[1..]| && n <= |b[1..]| && a[1..][..n] == b[1..][..n] && FirstKeyBefore(a[1..], b[1..], n);
          assert a[..n + 1] == [a[0]] + a[1..][..n] && b[..n + 1] == [b[0]] + b[1..][..n];
          assert FirstKeyBefore(a, b, n + 1);
        }
        if KeysBefore(a, b) {
          var n: nat :| n <= |a| && n <= |b| && a[..n] == b[..n] && FirstKeyBefore(a, b, n);
          assert n > 0;
          assert a[1..][..n - 1] == a[..n][1..] && b[1..][..n - 1] == b[..n][1..];
          assert FirstKeyBefore(a[1..], b[1..], n - 1);
        }
      } else {
        assert a[..0] == b[..0];
        assert FirstKeyBefore(a, b, 0) <==> KeyBefore(a[0], b[0]);
        assert forall n: nat :: 0 < n <= |a| && n <= |b| ==> a[..n][0] != b[..n][0];
      }
    }
  }

  /** A version is older exactly when, at the first run where the two differ, it has ended, or has the
      smaller number, the earlier letters, or letters against a number. */
  lemma OlderIff(a: string, b: string)
    ensures Compare(a, b) == Less <==> KeysBefore(Keys(a), Keys(b))
  {
    CompareIsByKeys(a, b);
    KeysBeforeIff(Keys(a), Keys(b));
  }

  lemma SixTenSegments()
    ensures Segments("6.9") == [Num("6"), Num("9")] && Segments("6.10") == [Num("6"), Num("10")]
  {
    hide Segments;
    assert "6.9" == "6" + ".9" && ".9" == "." + "9" && "9" == "9" + "";
    assert "6.10" == "6" + ".10" && ".10" == "." + "10" && "10" == "10" + "";
    SegmentsAreWholeRuns("6", ".9");
    SegmentsAreWholeRuns(".", "9");
    SegmentsAreWholeRuns("9", "");
    SegmentsAreWholeRuns("6", ".10");
    SegmentsAreWholeRuns(".", "10");
    SegmentsAreWholeRuns("10", "");
  }

  lemma NoLeadingZero(s: string)
    requires s != [] && s[0] != '0'
    ensures TrimZeros(s) == s
  {
  }

  lemma SameNumber(a: string)
    ensures CmpNumeric(a, a) == Equal
  {
    hide CmpText, TrimZeros;
    TextOrder(TrimZeros(a), TrimZeros(a), "");
  }

  lemma FewerDigits(a: string, b: string)
    requires a != [] && b != [] && a[0] != '0' && b[0] != '0' && |a| < |b|
    ensures CmpNumeric(a, b) == Less
  {
    hide CmpText, TrimZeros;
    NoLeadingZero(a);
    NoLeadingZero(b);
  }

  /** Ten is more than nine. */
  lemma TenIsNewerThanNine()
    ensures Compare("6.9", "6.10") == Less
  {
    hide Segments, CmpNumeric;
    SixTenSegments();
    SameNumber("6");
    FewerDigits("9", "10");
    var a, b := [Num("6"), Num("9")], [Num("6"), Num("10")];
    assert a[1..] == [Num("9")] && b[1..] == [Num("10")];
    assert CmpSegs(a[1..], b[1..]) == Less;
  }
}
