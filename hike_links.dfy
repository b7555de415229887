/**
 * The three link patterns of the scraper, hand-coded. Each one is anchored
 * at the start of the href and every token in it (`.`, `\d`, the literals)
 * stops at a line break, so a match lies wholly in the href's first line:
 * the scans below take that line. Greedy `.*` makes the regex engine try
 * the LAST candidate position first and lazy `.??` the shorter choice
 * first; each scan tries positions in that same order and returns the
 * groups of the first attempt that succeeds.
 */
module HikeLinks {
  import opened Wrappers
  import opened PyStrings

  /** Hrefs that `MAPS_REGEX` (searched, not anchored) accepts contain this. */
  const MapsHost := "google.com/maps"
  /** Hrefs that `TRIMBLE_REGEX` accepts contain this. */
  const TrimbleHost := "trimbleoutdoors.com"

  const MapsPath := "/maps"
  const QueryKey := "q="
  const PlacePath := "/maps/place/"
  const TripTag := "tripId="
  const TripPath := "ViewTrip/"

  /**
   * BeautifulSoup's `find(href=...)` over the block's hrefs in document
   * order: the first one containing `host`.
   */
  function FirstWith(hrefs: seq<string>, host: string): (r: Option<string>)
    ensures r.Some? ==> exists i :: 0 <= i < |hrefs| && hrefs[i] == r.value && Contains(hrefs[i], host)
                                    && forall j :: 0 <= j < i ==> !Contains(hrefs[j], host)
    ensures r.None? ==> forall i :: 0 <= i < |hrefs| ==> !Contains(hrefs[i], host)
  {
    if hrefs == [] then None
    else if Contains(hrefs[0], host) then Some(hrefs[0])
    else
      var r := FirstWith(hrefs[1..], host);
      assert forall i :: 1 <= i < |hrefs| ==> hrefs[i] == hrefs[1..][i - 1];
      r
  }

  // ---------------------------------------------------------------------
  // r'.*/maps.*q=.??(-?\d+\.\d+)\+(-?\d+\.\d+).*'
  // ---------------------------------------------------------------------

  /** The whole of `t` matches `-?\d+\.\d+`. */
  ghost predicate IsDecimal(t: string) {
    var j := if t != [] && t[0] == '-' then 1 else 0;
    exists k :: j < k < |t| - 1 && t[k] == '.' && forall n :: j <= n < |t| && n != k ==> IsDigit(t[n])
  }

  /**
   * `-?\d+\.\d+` tried at `i`. Both digit runs are greedy and what follows
   * each one in the pattern is not a digit, so only the longest runs can
   * succeed; an optional `-` that leads to failure leaves `\d+` facing a
   * `-`, which fails too.
   */
  function DecimalEnd(s: string, i: nat): Option<nat>
    requires i <= |s|
  {
    var j := if i < |s| && s[i] == '-' then i + 1 else i;
    var p := DigitsEnd(s, j);
    if p == j || p == |s| || s[p] != '.' then None
    else
      var q := DigitsEnd(s, p + 1);
      if q == p + 1 then None
      else Some(q)
  }

  /** A decimal found at `i` is the whole of `s[i..e]`, and no digit follows it. */
  lemma DecimalEndShape(s: string, i: nat)
    requires i <= |s|
    ensures var r := DecimalEnd(s, i);
      r.Some? ==> i < r.value <= |s| && IsDecimal(s[i..r.value]) && (r.value == |s| || !IsDigit(s[r.value]))
  {
    var j := if i < |s| && s[i] == '-' then i + 1 else i;
    var p := DigitsEnd(s, j);
    if DecimalEnd(s, i).Some? {
      DigitsEndShape(s, j);
      DigitsEndShape(s, p + 1);
      var q := DigitsEnd(s, p + 1);
      assert DecimalEnd(s, i) == Some(q);
      DigitRunsDecimal(s, i, j, p, q);
    }
  }

  /** Digits from `j` to `p`, a `.` at `p` and digits up to `q` make `s[i..q]` a decimal, `i` being `j` or a `-` before it. */
  lemma DigitRunsDecimal(s: string, i: nat, j: nat, p: nat, q: nat)
    requires i <= j < p < q - 1 && q <= |s| && s[p] == '.'
    requires j == i + 1 <==> s[i] == '-'
    requires j <= i + 1
    requires AllDigits(s[j..p]) && AllDigits(s[p + 1..q])
    ensures IsDecimal(s[i..q])
  {
    var t := s[i..q];
    var k := p - i;
    forall n | j - i <= n < |t| && n != k
      ensures IsDigit(t[n])
    {
      if n < k {
        assert t[n] == s[j..p][n - (j - i)];
      } else {
        assert t[n] == s[p + 1..q][n - k - 1];
      }
    }
    assert t[k] == '.';
  }

  /** A whole decimal at `i` that no digit follows is exactly what `DecimalEnd` finds. */
  lemma DecimalEndAt(s: string, i: nat, k: nat)
    requires i <= k <= |s| && IsDecimal(s[i..k]) && (k == |s| || !IsDigit(s[k]))
    ensures DecimalEnd(s, i) == Some(k)
  {
    var j, p := DecimalRuns(s, i, k);
    DigitsEndAt(s, j, p);
    DigitsEndAt(s, p + 1, k);
  }

  /** The runs of a decimal at `i`: an optional `-`, digits from `j` to the `.` at `p`, and digits from there to `k`. */
  lemma DecimalRuns(s: string, i: nat, k: nat) returns (j: nat, p: nat)
    requires i <= k <= |s| && IsDecimal(s[i..k])
    ensures j == (if i < |s| && s[i] == '-' then i + 1 else i)
    ensures j < p && p + 1 < k && s[p] == '.'
    ensures AllDigits(s[j..p]) && AllDigits(s[p + 1..k])
  {
    j, p := DecimalPoint(s, i, k);
    DigitsSlice(s, j, p);
    DigitsSlice(s, p + 1, k);
  }

  /** Where the `.` of a decimal at `i` sits, with digits everywhere else past the sign. */
  lemma DecimalPoint(s: string, i: nat, k: nat) returns (j: nat, p: nat)
    requires i <= k <= |s| && IsDecimal(s[i..k])
    ensures j == (if i < |s| && s[i] == '-' then i + 1 else i)
    ensures j < p && p + 1 < k && s[p] == '.'
    ensures forall n :: j <= n < k && n != p ==> IsDigit(s[n])
  {
    var t := s[i..k];
    var j0 := if t != [] && t[0] == '-' then 1 else 0;
    var d :| j0 < d < |t| - 1 && t[d] == '.' && forall n :: j0 <= n < |t| && n != d ==> IsDigit(t[n]);
    j, p := i + j0, i + d;
    assert t[0] == s[i] && t[d] == s[p];
    forall n | j <= n < k && n != p
      ensures IsDigit(s[n])
    {
      assert s[n] == t[n - i];
    }
  }

  /** A stretch of digits of `s` is a digit string. */
  lemma DigitsSlice(s: string, a: nat, b: nat)
    requires a <= b <= |s| && forall n :: a <= n < b ==> IsDigit(s[n])
    ensures AllDigits(s[a..b])
  {
    var u := s[a..b];
    forall n | 0 <= n < |u|
      ensures IsDigit(u[n])
    {
      assert u[n] == s[a + n];
    }
  }

  /** Whenever a decimal starts at `i`, `DecimalEnd` finds one there: it fails only when none does. */
  lemma DecimalEndComplete(s: string, i: nat, k: nat)
    requires i <= k <= |s| && IsDecimal(s[i..k])
    ensures DecimalEnd(s, i).Some?
  {
    var e := DigitsEnd(s, k);
    DigitsEndShape(s, k);
    var t, u := s[i..k], s[i..e];
    var j0 := if t != [] && t[0] == '-' then 1 else 0;
    var d :| j0 < d < |t| - 1 && t[d] == '.' && forall n :: j0 <= n < |t| && n != d ==> IsDigit(t[n]);
    forall n | j0 <= n < |u| && n != d
      ensures IsDigit(u[n])
    {
      if n < |t| {
        assert u[n] == t[n];
      } else {
        assert u[n] == s[k..e][n - |t|];
      }
    }
    assert u[0] == t[0] && u[d] == t[d];
    assert IsDecimal(u);
    DecimalEndAt(s, i, e);
  }

  /** `(-?\d+\.\d+)\+(-?\d+\.\d+)` tried at `c`: the two groups. */
  function PairAt(s: string, c: nat): Option<(string, string)>
    requires c <= |s|
  {
    match DecimalEnd(s, c)
    case None => None
    case Some(e1) =>
      if e1 < |s| && s[e1] == '+' then
        match DecimalEnd(s, e1 + 1)
        case None => None
        case Some(e2) => Some((s[c..e1], s[e1 + 1..e2]))
      else None
  }

  /** A pair found at `c` is two decimals. */
  lemma PairAtDecimals(s: string, c: nat)
    requires c <= |s|
    ensures var r := PairAt(s, c);
      r.Some? ==> IsDecimal(r.value.0) && IsDecimal(r.value.1)
  {
    DecimalEndShape(s, c);
    match DecimalEnd(s, c)
    case None =>
    case Some(e1) =>
      if e1 < |s| && s[e1] == '+' {
        DecimalEndShape(s, e1 + 1);
      }
  }

  /** The text at `c` is the first number of a found pair, a `+`, then the second. */
  lemma PairAtText(s: string, c: nat)
    requires c <= |s|
    ensures var r := PairAt(s, c);
      r.Some? ==> OccursAt(s, r.value.0 + "+" + r.value.1, c)
  {
    match DecimalEnd(s, c)
    case None =>
    case Some(e1) =>
      if e1 < |s| && s[e1] == '+' {
        match DecimalEnd(s, e1 + 1)
        case None =>
        case Some(e2) =>
          DecimalEndShape(s, e1 + 1);
          PlusBetween(s, c, e1, e2);
      }
  }

  /** A `+` at `j` puts the text before it, a `+` and the text after it at `i`. */
  lemma PlusBetween(s: string, i: nat, j: nat, k: nat)
    requires i <= j < k <= |s| && s[j] == '+'
    ensures OccursAt(s, s[i..j] + "+" + s[j + 1..k], i)
  {
    var w := s[i..j] + "+" + s[j + 1..k];
    assert |w| == k - i;
    assert s[i..k] == w;
  }

  /**
   * `x` and `y` read as `(-?\d+\.\d+)\+(-?\d+\.\d+)` at `c`: two decimals
   * joined by `+`, the second taken as far as its digits go (its `\d+` is
   * greedy and the `.*` after it accepts anything).
   */
  ghost predicate PairText(s: string, c: int, x: string, y: string) {
    && IsDecimal(x) && IsDecimal(y)
    && OccursAt(s, x + "+" + y, c)
    && (c + |x| + 1 + |y| == |s| || !IsDigit(s[c + |x| + 1 + |y|]))
  }

  /** Some pair can be read at `c`. */
  ghost predicate HasPair(s: string, c: int) {
    exists x, y :: PairText(s, c, x, y)
  }

  /** A pair found at `c` is read there as the pattern reads it. */
  lemma PairAtReads(s: string, c: nat)
    requires c <= |s|
    ensures var r := PairAt(s, c);
      r.Some? ==> PairText(s, c, r.value.0, r.value.1)
  {
    PairAtDecimals(s, c);
    PairAtText(s, c);
    PairAtMaximal(s, c);
  }

  /** No digit follows the second number of a pair found at `c`. */
  lemma PairAtMaximal(s: string, c: nat)
    requires c <= |s|
    ensures var r := PairAt(s, c);
      r.Some? ==> var e := c + |r.value.0| + 1 + |r.value.1|; e <= |s| && (e == |s| || !IsDigit(s[e]))
  {
    if PairAt(s, c).Some? {
      var e1 := DecimalEnd(s, c).value;
      DecimalEndShape(s, c);
      DecimalEndShape(s, e1 + 1);
    }
  }

  /** Any pair the pattern can read at `c` is the one `PairAt` returns. */
  lemma PairAtComplete(s: string, c: nat, x: string, y: string)
    requires PairText(s, c, x, y)
    ensures PairAt(s, c) == Some((x, y))
  {
    PairTextFirst(s, c, x, y);
    PairTextSecond(s, c, x, y);
    PairTextParts(s, c, x, y);
    PairAtEnds(s, c, c + |x|, c + |x| + 1 + |y|);
  }

  /** The first number of a pair read at `c` is the decimal `DecimalEnd` finds there. */
  lemma PairTextFirst(s: string, c: nat, x: string, y: string)
    requires PairText(s, c, x, y)
    ensures DecimalEnd(s, c) == Some(c + |x|)
  {
    PairTextParts(s, c, x, y);
    DecimalEndAt(s, c, c + |x|);
  }

  /** The second number of a pair read at `c` is the decimal `DecimalEnd` finds after the `+`. */
  lemma PairTextSecond(s: string, c: nat, x: string, y: string)
    requires PairText(s, c, x, y)
    ensures DecimalEnd(s, c + |x| + 1) == Some(c + |x| + 1 + |y|)
  {
    PairTextParts(s, c, x, y);
    DecimalEndAt(s, c + |x| + 1, c + |x| + 1 + |y|);
  }

  /** Decimals ending at `e1` and `e2` around a `+` at `e1` are the pair `PairAt` returns. */
  lemma PairAtEnds(s: string, c: nat, e1: nat, e2: nat)
    requires c <= e1 < e2 <= |s| && s[e1] == '+'
    requires DecimalEnd(s, c) == Some(e1) && DecimalEnd(s, e1 + 1) == Some(e2)
    ensures PairAt(s, c) == Some((s[c..e1], s[e1 + 1..e2]))
  {
  }

  /** Where `x + "+" + y` occurs at `c`, `x`, the `+` and `y` sit at their places. */
  lemma PairTextParts(s: string, c: nat, x: string, y: string)
    requires OccursAt(s, x + "+" + y, c)
    ensures s[c..c + |x|] == x && s[c + |x|] == '+' && s[c + |x| + 1..c + |x| + 1 + |y|] == y
  {
    var w := x + "+" + y;
    assert s[c..c + |w|] == w;
    assert s[c..c + |x|] == w[..|x|];
    assert s[c + |x|] == w[|x|];
    assert s[c + |x| + 1..c + |w|] == w[|x| + 1..];
  }

  /** `PairAt` succeeds exactly where the pattern can read a pair. */
  lemma PairAtIff(s: string, c: nat)
    requires c <= |s|
    ensures PairAt(s, c).Some? <==> HasPair(s, c)
  {
    if PairAt(s, c).Some? {
      PairAtReads(s, c);
    } else if HasPair(s, c) {
      var x, y :| PairText(s, c, x, y);
      PairAtComplete(s, c, x, y);
    }
  }

  /** What follows a `q=` at `b`: `.??` matches no character first, then one. */
  function AfterQuery(s: string, b: nat): Option<(string, string)>
    requires OccursAt(s, QueryKey, b)
  {
    var lazy := PairAt(s, b + 2);
    if lazy.Some? then lazy
    else if b + 3 <= |s| then PairAt(s, b + 3)
    else None
  }

  /** A pair found after the `q=` at `b` starts one or two characters past `b`, as `.??` allows. */
  lemma AfterQueryShape(s: string, b: nat)
    requires OccursAt(s, QueryKey, b)
    ensures var r := AfterQuery(s, b);
      r.Some? ==> exists c :: b + 2 <= c <= b + 3 && c <= |s| && PairAt(s, c) == r
                             && IsDecimal(r.value.0) && IsDecimal(r.value.1)
                             && OccursAt(s, r.value.0 + "+" + r.value.1, c)
    ensures PairAt(s, b + 2).Some? ==> AfterQuery(s, b) == PairAt(s, b + 2)
    ensures AfterQuery(s, b).None? ==> PairAt(s, b + 2).None? && (b + 3 <= |s| ==> PairAt(s, b + 3).None?)
  {
    PairAtDecimals(s, b + 2);
    PairAtText(s, b + 2);
    if PairAt(s, b + 2).None? && b + 3 <= |s| {
      PairAtDecimals(s, b + 3);
      PairAtText(s, b + 3);
    }
  }

  /**
   * After the `q=` at `b`, the pair is read right after it when one can be,
   * and one character later only when it cannot; no pair at either place
   * means nothing is found.
   */
  lemma AfterQueryReads(s: string, b: nat)
    requires OccursAt(s, QueryKey, b)
    ensures var r := AfterQuery(s, b);
      r.Some? ==> exists c :: b + 2 <= c <= b + 3 && PairText(s, c, r.value.0, r.value.1)
                             && (c == b + 3 ==> !HasPair(s, b + 2))
    ensures AfterQuery(s, b).None? ==> !HasPair(s, b + 2) && !HasPair(s, b + 3)
  {
    PairAtIff(s, b + 2);
    PairAtReads(s, b + 2);
    if b + 3 <= |s| {
      PairAtIff(s, b + 3);
      PairAtReads(s, b + 3);
    }
  }

  /** `.*q=` after `/maps`: the candidate `q=` positions from `b` down to `lo`. */
  function QueryScan(s: string, lo: nat, b: nat): Option<(string, string)>
    requires lo <= b <= |s|
    decreases b
  {
    var here := if OccursAt(s, QueryKey, b) then AfterQuery(s, b) else None;
    if here.Some? || b == lo then here else QueryScan(s, lo, b - 1)
  }

  /** No `q=` after `p` and at or before `b` is followed by a pair. */
  ghost predicate NoLaterQuery(s: string, p: int, b: int) {
    forall p' :: p < p' <= b && OccursAt(s, QueryKey, p') ==> AfterQuery(s, p').None?
  }

  /** A query scan that succeeds returns what follows the last `q=` in its range that a pair follows. */
  lemma {:induction false} QueryScanFinds(s: string, lo: nat, b: nat)
    requires lo <= b <= |s| && QueryScan(s, lo, b).Some?
    ensures exists p :: && lo <= p <= b && OccursAt(s, QueryKey, p) && AfterQuery(s, p) == QueryScan(s, lo, b)
                        && NoLaterQuery(s, p, b)
    decreases b
  {
    var here := if OccursAt(s, QueryKey, b) then AfterQuery(s, b) else None;
    if here.Some? {
      assert lo <= b <= b && OccursAt(s, QueryKey, b) && AfterQuery(s, b) == QueryScan(s, lo, b) && NoLaterQuery(s, b, b);
    } else {
      QueryScanFinds(s, lo, b - 1);
      var p :| && lo <= p <= b - 1 && OccursAt(s, QueryKey, p) && AfterQuery(s, p) == QueryScan(s, lo, b - 1)
               && NoLaterQuery(s, p, b - 1);
      NoLaterQueryStep(s, p, b);
    }
  }

  /** A `q=` at `b` that no pair follows extends a run of such `q=` up to `b - 1`. */
  lemma NoLaterQueryStep(s: string, p: int, b: int)
    requires NoLaterQuery(s, p, b - 1) && (OccursAt(s, QueryKey, b) ==> AfterQuery(s, b).None?)
    ensures NoLaterQuery(s, p, b)
  {
    forall p' | p < p' <= b && OccursAt(s, QueryKey, p')
      ensures AfterQuery(s, p').None?
    {
      if p' < b {
        assert p' <= b - 1;
      }
    }
  }

  /** A query scan that fails saw no `q=` in its range followed by a pair. */
  lemma {:induction false} QueryScanMisses(s: string, lo: nat, b: nat)
    requires lo <= b <= |s| && QueryScan(s, lo, b).None?
    ensures forall p :: lo <= p <= b && OccursAt(s, QueryKey, p) ==> AfterQuery(s, p).None?
    decreases b
  {
    if b != lo {
      QueryScanMisses(s, lo, b - 1);
      NoLaterQueryStep(s, lo - 1, b);
    }
  }

  /** A `/maps` at `m` and a later `q=` at `p`: where the pattern can place its first two literals. */
  ghost predicate CoordinateSite(s: string, m: int, p: int) {
    OccursAt(s, MapsPath, m) && m + |MapsPath| <= p && OccursAt(s, QueryKey, p)
  }

  /** The leading `.*` and `/maps`: the candidate `/maps` positions from `a` down to 0. */
  function MapsScan(s: string, a: nat): Option<(string, string)>
    requires a <= |s|
    decreases a
  {
    var here := if OccursAt(s, MapsPath, a) then QueryScan(s, a + |MapsPath|, |s|) else None;
    if here.Some? then here
    else if a == 0 then None
    else MapsScan(s, a - 1)
  }

  /** No `q=` after the one at `p` and after the `/maps` at `m` is followed by a pair. */
  ghost predicate LastQueryAfter(s: string, m: int, p: int) {
    forall p' :: p < p' && CoordinateSite(s, m, p') ==> AfterQuery(s, p').None?
  }

  /** No `/maps` after `m` and at or before `a` has a later `q=` followed by a pair. */
  ghost predicate NoLaterMaps(s: string, m: int, a: int) {
    forall m', p' :: m < m' <= a && CoordinateSite(s, m', p') ==> AfterQuery(s, p').None?
  }

  /**
   * A maps scan that succeeds returns what follows a `q=` after a `/maps` at
   * or before `a`: the last `/maps` with a `q=` after it that a pair follows,
   * and the last such `q=` after that `/maps`.
   */
  lemma {:induction false} MapsScanFinds(s: string, a: nat)
    requires a <= |s| && MapsScan(s, a).Some?
    ensures exists m, p :: && m <= a && CoordinateSite(s, m, p) && AfterQuery(s, p) == MapsScan(s, a)
                           && LastQueryAfter(s, m, p) && NoLaterMaps(s, m, a)
    decreases a
  {
    if OccursAt(s, MapsPath, a) && QueryScan(s, a + |MapsPath|, |s|).Some? {
      MapsScanFindsHere(s, a);
    } else {
      assert MapsScan(s, a) == MapsScan(s, a - 1);
      MapsScanFinds(s, a - 1);
      var m, p :| && m <= a - 1 && CoordinateSite(s, m, p) && AfterQuery(s, p) == MapsScan(s, a - 1)
                  && LastQueryAfter(s, m, p) && NoLaterMaps(s, m, a - 1);
      NoLaterMapsPast(s, m, a);
      assert m <= a && CoordinateSite(s, m, p) && AfterQuery(s, p) == MapsScan(s, a);
    }
  }

  /** A maps scan that succeeds at the `/maps` at `a` itself returns what follows the last `q=` after it that a pair follows. */
  lemma MapsScanFindsHere(s: string, a: nat)
    requires a <= |s| && OccursAt(s, MapsPath, a) && QueryScan(s, a + |MapsPath|, |s|).Some?
    ensures exists p :: && CoordinateSite(s, a, p) && AfterQuery(s, p) == MapsScan(s, a)
                        && LastQueryAfter(s, a, p) && NoLaterMaps(s, a, a)
  {
    QueryScanFinds(s, a + |MapsPath|, |s|);
    var p :| && a + |MapsPath| <= p <= |s| && OccursAt(s, QueryKey, p) && AfterQuery(s, p) == QueryScan(s, a + |MapsPath|, |s|)
             && NoLaterQuery(s, p, |s|);
    LastQueryOfScan(s, a, p);
    assert CoordinateSite(s, a, p) && NoLaterMaps(s, a, a);
  }

  /** The last `q=` of the query scan after the `/maps` at `m` is the last one after `m` that a pair follows. */
  lemma LastQueryOfScan(s: string, m: int, p: int)
    requires NoLaterQuery(s, p, |s|)
    ensures LastQueryAfter(s, m, p)
  {
    forall p' | p < p' && CoordinateSite(s, m, p')
      ensures AfterQuery(s, p').None?
    {
      assert p' <= |s|;
    }
  }

  /** A `/maps` at `a` where the query scan fails extends a run of `/maps` with no pair after them. */
  lemma NoLaterMapsPast(s: string, m: int, a: nat)
    requires a <= |s| && NoLaterMaps(s, m, a - 1)
    requires !(OccursAt(s, MapsPath, a) && QueryScan(s, a + |MapsPath|, |s|).Some?)
    ensures NoLaterMaps(s, m, a)
  {
    if OccursAt(s, MapsPath, a) {
      QueryScanMisses(s, a + |MapsPath|, |s|);
    }
    NoLaterMapsStep(s, m, a);
  }

  /** A `/maps` at `a` with no `q=` after it followed by a pair extends a run of such `/maps` up to `a - 1`. */
  lemma NoLaterMapsStep(s: string, m: int, a: int)
    requires NoLaterMaps(s, m, a - 1)
    requires forall p' :: a + |MapsPath| <= p' <= |s| && OccursAt(s, QueryKey, p') && OccursAt(s, MapsPath, a) ==> AfterQuery(s, p').None?
    ensures NoLaterMaps(s, m, a)
  {
    forall m', p' | m < m' <= a && CoordinateSite(s, m', p')
      ensures AfterQuery(s, p').None?
    {
      if m' == a {
        assert a + |MapsPath| <= p' <= |s|;
      } else {
        assert m' <= a - 1;
      }
    }
  }

  /** A maps scan that fails saw no `/maps` at or before `a` with a later `q=` followed by a pair. */
  lemma {:induction false} MapsScanMisses(s: string, a: nat)
    requires a <= |s| && MapsScan(s, a).None?
    ensures forall m, p :: m <= a && CoordinateSite(s, m, p) ==> AfterQuery(s, p).None?
    decreases a
  {
    if OccursAt(s, MapsPath, a) {
      QueryScanMisses(s, a + |MapsPath|, |s|);
    }
    if a != 0 {
      MapsScanMisses(s, a - 1);
    }
    forall m, p | m <= a && CoordinateSite(s, m, p)
      ensures AfterQuery(s, p).None?
    {
      if m == a {
        assert a + |MapsPath| <= p <= |s|;
      } else {
        assert m <= a - 1;
      }
    }
  }

  /**
   * A way the coordinate pattern can match: a `/maps` at `m`, a later `q=`
   * at `p`, and a pair read at `c`, after the one character `.??` may skip.
   */
  ghost predicate PairSite(s: string, m: int, p: int, c: int) {
    CoordinateSite(s, m, p) && p + 2 <= c <= p + 3 && HasPair(s, c)
  }

  /**
   * The match the backtracking takes: the last `/maps` that has one, then
   * the last `q=` after it that has one, then the pair right after that
   * `q=` unless none can be read there.
   */
  ghost predicate FirstPairSite(s: string, m: int, p: int, c: int) {
    && PairSite(s, m, p, c)
    && (forall m', p', c' :: m < m' ==> !PairSite(s, m', p', c'))
    && (forall p', c' :: p < p' ==> !PairSite(s, m, p', c'))
    && (c == p + 3 ==> !HasPair(s, p + 2))
  }

  /**
   * The coordinate pattern on the first line of an href: the two decimal
   * strings, kept as text, or None when the pattern does not match.
   */
  function CoordinateMatch(line: string): (r: Option<(string, string)>)
    ensures r.Some? ==> IsDecimal(r.value.0) && IsDecimal(r.value.1)
    ensures r.Some? <==> exists m, p, c :: PairSite(line, m, p, c)
    ensures r.Some? ==> exists m, p, c :: FirstPairSite(line, m, p, c) && PairText(line, c, r.value.0, r.value.1)
  {
    var r := MapsScan(line, |line|);
    if r.Some? then CoordinateShape(line); r
    else CoordinateNone(line); r
  }

  /** A pair found by the maps scan is the one read at the site the backtracking takes. */
  lemma CoordinateShape(line: string)
    requires MapsScan(line, |line|).Some?
    ensures var r := MapsScan(line, |line|).value;
      exists m, p, c :: FirstPairSite(line, m, p, c) && PairText(line, c, r.0, r.1)
  {
    var m, p := FoundQuery(line);
    var c := FoundPair(line, p);
    LaterMapsHaveNoPair(line, m);
    LaterQueriesHaveNoPair(line, m, p);
    assert FirstPairSite(line, m, p, c);
  }

  /** The `/maps` and `q=` whose pair the maps scan returns. */
  lemma FoundQuery(line: string) returns (m: int, p: int)
    requires MapsScan(line, |line|).Some?
    ensures CoordinateSite(line, m, p) && AfterQuery(line, p) == MapsScan(line, |line|)
    ensures LastQueryAfter(line, m, p) && NoLaterMaps(line, m, |line|)
  {
    MapsScanFinds(line, |line|);
    m, p :| && m <= |line| && CoordinateSite(line, m, p) && AfterQuery(line, p) == MapsScan(line, |line|)
           && LastQueryAfter(line, m, p) && NoLaterMaps(line, m, |line|);
  }

  /** Where the pair found after the `q=` at `p` is read. */
  lemma FoundPair(s: string, p: int) returns (c: int)
    requires OccursAt(s, QueryKey, p) && AfterQuery(s, p).Some?
    ensures var r := AfterQuery(s, p).value;
      && p + 2 <= c <= p + 3 && PairText(s, c, r.0, r.1) && (c == p + 3 ==> !HasPair(s, p + 2))
  {
    AfterQueryReads(s, p);
    var r := AfterQuery(s, p).value;
    c :| p + 2 <= c <= p + 3 && PairText(s, c, r.0, r.1) && (c == p + 3 ==> !HasPair(s, p + 2));
  }

  /** When the maps scan fails, the pattern can be matched nowhere. */
  lemma CoordinateNone(line: string)
    requires MapsScan(line, |line|).None?
    ensures forall m, p, c :: !PairSite(line, m, p, c)
  {
    MapsScanMisses(line, |line|);
    forall m, p, c | PairSite(line, m, p, c)
      ensures false
    {
      NoPairAfterMiss(line, p);
    }
  }

  /** A `q=` with nothing found after it can be read with no pair one or two characters later. */
  lemma NoPairAfterMiss(s: string, p: int)
    requires OccursAt(s, QueryKey, p) && AfterQuery(s, p).None?
    ensures forall c :: p + 2 <= c <= p + 3 ==> !HasPair(s, c)
  {
    AfterQueryReads(s, p);
  }

  /** No `/maps` after `m` has a match. */
  lemma LaterMapsHaveNoPair(s: string, m: int)
    requires NoLaterMaps(s, m, |s|)
    ensures forall m', p', c' :: m < m' ==> !PairSite(s, m', p', c')
  {
    forall m', p', c' | m < m' && PairSite(s, m', p', c')
      ensures false
    {
      assert m' <= |s|;
      NoPairAfterMiss(s, p');
    }
  }

  /** No `q=` after `p` and after the `/maps` at `m` has a match. */
  lemma LaterQueriesHaveNoPair(s: string, m: int, p: int)
    requires LastQueryAfter(s, m, p)
    ensures forall p', c' :: p < p' ==> !PairSite(s, m, p', c')
  {
    forall p', c' | p < p' && PairSite(s, m, p', c')
      ensures false
    {
      NoPairAfterMiss(s, p');
    }
  }

  /** The backtracking order leaves one site: two sites it would take are the same. */
  lemma FirstPairSiteUnique(s: string, m: int, p: int, c: int, m2: int, p2: int, c2: int)
    requires FirstPairSite(s, m, p, c) && FirstPairSite(s, m2, p2, c2)
    ensures m == m2 && p == p2 && c == c2
  {
    assert !(m < m2) && !(m2 < m);
    assert !(p < p2) && !(p2 < p);
  }

  /** Any pair read at the site the backtracking takes is what the coordinate pattern returns. */
  lemma CoordinateMatchIs(line: string, m: int, p: int, c: int, x: string, y: string)
    requires FirstPairSite(line, m, p, c) && PairText(line, c, x, y)
    ensures CoordinateMatch(line) == Some((x, y))
  {
    var r := CoordinateMatch(line);
    var m2, p2, c2 :| FirstPairSite(line, m2, p2, c2) && PairText(line, c2, r.value.0, r.value.1);
    FirstPairSiteUnique(line, m, p, c, m2, p2, c2);
    PairAtComplete(line, c, x, y);
    PairAtComplete(line, c, r.value.0, r.value.1);
  }

  /** The link a coordinate pair is usually shared as: `q=` right after `/maps?`. */
  const CoordinateLinkPrefix := "https://www.google.com/maps?q="

  /** A decimal holds digits, a `-` and a `.` only. */
  lemma DecimalChars(t: string)
    requires IsDecimal(t)
    ensures forall k :: 0 <= k < |t| ==> IsDigit(t[k]) || t[k] == '-' || t[k] == '.'
  {
    var j := if t != [] && t[0] == '-' then 1 else 0;
    var d :| j < d < |t| - 1 && t[d] == '.' && forall n :: j <= n < |t| && n != d ==> IsDigit(t[n]);
  }

  /** A coordinate link is one line; past its `/maps` it has no `/`, and past its `q=` no `q`. */
  lemma CoordinateLinkChars(lat: string, lon: string)
    requires IsDecimal(lat) && IsDecimal(lon)
    ensures var s := CoordinateLinkPrefix + lat + "+" + lon;
      && (forall k :: 0 <= k < |s| ==> s[k] != '\n')
      && (forall k :: 22 < k < |s| ==> s[k] != '/')
      && (forall k :: 28 < k < |s| ==> s[k] != 'q')
  {
    var s := CoordinateLinkPrefix + lat + "+" + lon;
    var pair := lat + "+" + lon;
    assert s == CoordinateLinkPrefix + pair;
    DecimalChars(lat);
    DecimalChars(lon);
    forall k | 30 <= k < |s|
      ensures s[k] != '/' && s[k] != 'q' && s[k] != '\n'
    {
      assert s[k] == pair[k - 30];
      if k - 30 > |lat| {
        assert pair[k - 30] == lon[k - 31 - |lat|];
      }
    }
  }

  /** A coordinate link has no `/maps` past its own, and no `q=` past its own. */
  lemma CoordinateLinkSites(lat: string, lon: string)
    requires IsDecimal(lat) && IsDecimal(lon)
    ensures var s := CoordinateLinkPrefix + lat + "+" + lon;
      && (forall m :: 22 < m ==> !OccursAt(s, MapsPath, m))
      && (forall p :: 28 < p ==> !OccursAt(s, QueryKey, p))
  {
    var s := CoordinateLinkPrefix + lat + "+" + lon;
    CoordinateLinkChars(lat, lon);
    forall m | 22 < m
      ensures !OccursAt(s, MapsPath, m)
    {
      OccursAtChar(s, MapsPath, m, 0);
    }
    forall p | 28 < p
      ensures !OccursAt(s, QueryKey, p)
    {
      OccursAtChar(s, QueryKey, p, 0);
    }
  }

  /** A coordinate link reads back as its own pair. */
  lemma CoordinateLinkMatch(lat: string, lon: string)
    requires IsDecimal(lat) && IsDecimal(lon)
    ensures CoordinateMatch(CoordinateLinkPrefix + lat + "+" + lon) == Some((lat, lon))
  {
    var s := CoordinateLinkPrefix + lat + "+" + lon;
    CoordinateLinkPair(lat, lon);
    CoordinateLinkSites(lat, lon);
    assert FirstPairSite(s, 22, 28, 30);
    CoordinateMatchIs(s, 22, 28, 30, lat, lon);
  }

  /** A coordinate link has its `/maps` at 22, its `q=` at 28 and its pair at 30. */
  lemma CoordinateLinkPair(lat: string, lon: string)
    requires IsDecimal(lat) && IsDecimal(lon)
    ensures var s := CoordinateLinkPrefix + lat + "+" + lon;
      CoordinateSite(s, 22, 28) && PairText(s, 30, lat, lon)
  {
    var s := CoordinateLinkPrefix + lat + "+" + lon;
    var pair := lat + "+" + lon;
    assert |CoordinateLinkPrefix| == 30;
    assert s == CoordinateLinkPrefix + pair;
    assert s[30..] == pair;
    assert s[22..27] == MapsPath && s[28..30] == QueryKey;
  }

  // ---------------------------------------------------------------------
  // r'.*/maps/place/(.*)'
  // ---------------------------------------------------------------------

  /** The candidate `/maps/place/` positions from `a` down to 0; the group is the rest of the line. */
  function PlaceScan(s: string, a: nat): (r: Option<string>)
    requires a <= |s|
    ensures r.Some? ==> exists m :: 0 <= m <= a && OccursAt(s, PlacePath, m) && r.value == s[m + |PlacePath|..]
                                    && forall m' :: m < m' <= a ==> !OccursAt(s, PlacePath, m')
    ensures r.None? ==> forall m :: 0 <= m <= a ==> !OccursAt(s, PlacePath, m)
    decreases a
  {
    if OccursAt(s, PlacePath, a) then Some(s[a + |PlacePath|..])
    else if a == 0 then None
    else PlaceScan(s, a - 1)
  }

  /**
   * `' '.join(name.split('+'))`: a `+` in the captured text becomes a
   * space. Nothing else changes; in particular no percent-decoding is done.
   */
  function PlaceName(captured: string): (r: string)
    ensures |r| == |captured|
    ensures '+' !in r
    ensures forall i :: 0 <= i < |r| ==> r[i] == (if captured[i] == '+' then ' ' else captured[i])
  {
    JoinSplitReplaces(captured, '+', ' ');
    Join(Split(captured, '+'), " ")
  }

  // ---------------------------------------------------------------------
  // r'.*(?:/.*tripId=|ViewTrip/)(\d+).*'
  // ---------------------------------------------------------------------

  /** `(\d+)` at `p`, greedy: the longest run of digits there, if any. */
  function DigitRunAt(s: string, p: nat): Option<string>
    requires p <= |s|
  {
    var e := DigitsEnd(s, p);
    if e == p then None else Some(s[p..e])
  }

  /** The run found is the non-empty, maximal run of digits at `p`; there is none exactly when no digit is at `p`. */
  lemma DigitRunShape(s: string, p: nat)
    requires p <= |s|
    ensures var r := DigitRunAt(s, p);
      && (r.Some? ==> r.value != [] && AllDigits(r.value) && OccursAt(s, r.value, p))
      && (r.Some? ==> p + |r.value| == |s| || !IsDigit(s[p + |r.value|]))
      && (r.None? <==> p == |s| || !IsDigit(s[p]))
  {
    DigitsEndShape(s, p);
  }

  /** The `.*tripId=` of the first alternative: candidate positions from `c` down to `lo`. */
  function TagScan(s: string, lo: nat, c: nat): Option<string>
    requires lo <= c <= |s|
    decreases c
  {
    var here := if OccursAt(s, TripTag, c) then DigitRunAt(s, c + |TripTag|) else None;
    if here.Some? || c == lo then here else TagScan(s, lo, c - 1)
  }

  /** No `tripId=` after `q` and at or before `c` is followed by digits. */
  ghost predicate NoLaterTag(s: string, q: int, c: int) {
    forall q' :: q < q' <= c && OccursAt(s, TripTag, q') ==> DigitRunAt(s, q' + |TripTag|).None?
  }

  /** A tag scan that succeeds returns the digits after the last `tripId=` in its range that digits follow. */
  lemma {:induction false} TagScanFinds(s: string, lo: nat, c: nat)
    requires lo <= c <= |s| && TagScan(s, lo, c).Some?
    ensures exists q :: && lo <= q <= c && OccursAt(s, TripTag, q) && DigitRunAt(s, q + |TripTag|) == TagScan(s, lo, c)
                        && NoLaterTag(s, q, c)
    decreases c
  {
    var here := if OccursAt(s, TripTag, c) then DigitRunAt(s, c + |TripTag|) else None;
    if here.Some? {
      assert lo <= c <= c && OccursAt(s, TripTag, c) && DigitRunAt(s, c + |TripTag|) == TagScan(s, lo, c) && NoLaterTag(s, c, c);
    } else {
      TagScanFinds(s, lo, c - 1);
      var q :| && lo <= q <= c - 1 && OccursAt(s, TripTag, q) && DigitRunAt(s, q + |TripTag|) == TagScan(s, lo, c - 1)
               && NoLaterTag(s, q, c - 1);
      NoLaterTagStep(s, q, c);
    }
  }

  /** A `tripId=` at `c` that no digits follow extends a run of such `tripId=` up to `c - 1`. */
  lemma NoLaterTagStep(s: string, q: int, c: int)
    requires NoLaterTag(s, q, c - 1) && (OccursAt(s, TripTag, c) ==> DigitRunAt(s, c + |TripTag|).None?)
    ensures NoLaterTag(s, q, c)
  {
    forall q' | q < q' <= c && OccursAt(s, TripTag, q')
      ensures DigitRunAt(s, q' + |TripTag|).None?
    {
      if q' < c {
        assert q' <= c - 1;
      }
    }
  }

  /** A tag scan that fails saw no `tripId=` followed by digits in its range. */
  lemma {:induction false} TagScanMisses(s: string, lo: nat, c: nat)
    requires lo <= c <= |s| && TagScan(s, lo, c).None?
    ensures forall q :: lo <= q <= c && OccursAt(s, TripTag, q) ==> DigitRunAt(s, q + |TripTag|).None?
    decreases c
  {
    if c != lo {
      TagScanMisses(s, lo, c - 1);
      NoLaterTagStep(s, lo - 1, c);
    }
  }

  /** A `/` at `m` followed, further on, by `tripId=` at `q`. */
  ghost predicate TagSite(s: string, m: int, q: int) {
    0 <= m < q && OccursAt(s, TripTag, q) && s[m] == '/'
  }

  /** No `tripId=` after the one at `q` and after the `/` at `m` is followed by digits. */
  ghost predicate LastTagAfter(s: string, m: int, q: int) {
    forall q' :: q < q' && TagSite(s, m, q') ==> DigitRunAt(s, q' + |TripTag|).None?
  }

  /** The first alternative, `/.*tripId=`, with the leading `.*` ending at `a`. */
  function TagAlternative(s: string, a: nat): Option<string>
    requires a <= |s|
  {
    if a < |s| && s[a] == '/' then TagScan(s, a + 1, |s|) else None
  }

  /**
   * The first alternative succeeds exactly when a `tripId=` followed by
   * digits comes after the `/` at `a`, and then takes the digits after the
   * last such `tripId=`.
   */
  lemma TagAlternativeFinds(s: string, a: nat)
    requires a <= |s|
    ensures var r := TagAlternative(s, a);
      && (r.Some? ==> exists q :: TagSite(s, a, q) && DigitRunAt(s, q + |TripTag|) == r && LastTagAfter(s, a, q))
      && (r.None? ==> forall q :: TagSite(s, a, q) ==> DigitRunAt(s, q + |TripTag|).None?)
  {
    if a < |s| && s[a] == '/' {
      var r := TagScan(s, a + 1, |s|);
      if r.None? {
        TagScanMisses(s, a + 1, |s|);
      } else {
        TagScanFinds(s, a + 1, |s|);
        var q :| && a + 1 <= q <= |s| && OccursAt(s, TripTag, q) && DigitRunAt(s, q + |TripTag|) == r
                 && NoLaterTag(s, q, |s|);
        LastTagOfScan(s, a, q);
        assert TagSite(s, a, q);
      }
    }
  }

  /** The last `tripId=` of the tag scan after the `/` at `m` is the last one after `m` that digits follow. */
  lemma LastTagOfScan(s: string, m: int, q: int)
    requires NoLaterTag(s, q, |s|)
    ensures LastTagAfter(s, m, q)
  {
    forall q' | q < q' && TagSite(s, m, q')
      ensures DigitRunAt(s, q' + |TripTag|).None?
    {
      assert q' <= |s|;
    }
  }

  /**
   * The leading `.*`: candidate positions from `a` down to 0, each trying
   * the `/.*tripId=` alternative before `ViewTrip/`.
   */
  function TripScan(s: string, a: nat): Option<string>
    requires a <= |s|
    decreases a
  {
    var viaTag := TagAlternative(s, a);
    var viaPath := if OccursAt(s, TripPath, a) then DigitRunAt(s, a + |TripPath|) else None;
    if viaTag.Some? then viaTag
    else if viaPath.Some? then viaPath
    else if a == 0 then None
    else TripScan(s, a - 1)
  }

  /** No `tripId=` after the `/` at `m` is followed by digits. */
  ghost predicate NoTagAfter(s: string, m: int) {
    forall q :: TagSite(s, m, q) ==> DigitRunAt(s, q + |TripTag|).None?
  }

  /** No site of either kind that starts after `m` and at or before `a` is followed by digits. */
  ghost predicate NoLaterTrip(s: string, m: int, a: int) {
    && (forall m', q :: m < m' <= a && TagSite(s, m', q) ==> DigitRunAt(s, q + |TripTag|).None?)
    && (forall m' :: m < m' <= a && OccursAt(s, TripPath, m') ==> DigitRunAt(s, m' + |TripPath|).None?)
  }

  /**
   * The site the backtracking from `a` takes through `/.*tripId=`: the last
   * start with digits after it is the `/` at `m`, and `q` is the last
   * `tripId=` after that `/` that digits follow.
   */
  ghost predicate TagTaken(s: string, m: int, q: int, a: int) {
    && m <= a && TagSite(s, m, q) && DigitRunAt(s, q + |TripTag|).Some?
    && LastTagAfter(s, m, q) && NoLaterTrip(s, m, a)
  }

  /**
   * The site the backtracking from `a` takes through `ViewTrip/`: the last
   * start with digits after it is `m`, and no `tripId=` after `m` has digits,
   * so the first alternative fails there.
   */
  ghost predicate PathTaken(s: string, m: int, a: int) {
    && 0 <= m <= a && OccursAt(s, TripPath, m) && DigitRunAt(s, m + |TripPath|).Some?
    && NoTagAfter(s, m) && NoLaterTrip(s, m, a)
  }

  /** A found id is the run of digits at the site the backtracking from `a` takes. */
  lemma {:induction false} TripScanFinds(s: string, a: nat)
    requires a <= |s| && TripScan(s, a).Some?
    ensures TripScan(s, a).value != [] && AllDigits(TripScan(s, a).value)
    ensures var r := TripScan(s, a);
      || (exists m, q :: TagTaken(s, m, q, a) && DigitRunAt(s, q + |TripTag|) == r)
      || (exists m :: PathTaken(s, m, a) && DigitRunAt(s, m + |TripPath|) == r)
    decreases a
  {
    TagAlternativeFinds(s, a);
    var viaPath := if OccursAt(s, TripPath, a) then DigitRunAt(s, a + |TripPath|) else None;
    if TagAlternative(s, a).Some? || viaPath.Some? {
      TripScanFindsHere(s, a);
    } else {
      var r := TripScan(s, a);
      assert r == TripScan(s, a - 1);
      TripScanFinds(s, a - 1);
      TripScanPast(s, a - 1, a, r);
    }
  }

  /** A scan that finds a site at `a` itself takes that site. */
  lemma TripScanFindsHere(s: string, a: nat)
    requires a <= |s|
    requires TagAlternative(s, a).Some? || (OccursAt(s, TripPath, a) && DigitRunAt(s, a + |TripPath|).Some?)
    ensures TripScan(s, a).Some? && TripScan(s, a).value != [] && AllDigits(TripScan(s, a).value)
    ensures var r := TripScan(s, a);
      || (exists q :: TagTaken(s, a, q, a) && DigitRunAt(s, q + |TripTag|) == r)
      || (PathTaken(s, a, a) && DigitRunAt(s, a + |TripPath|) == r)
  {
    TagAlternativeFinds(s, a);
    var viaTag := TagAlternative(s, a);
    if viaTag.Some? {
      var q :| TagSite(s, a, q) && DigitRunAt(s, q + |TripTag|) == viaTag && LastTagAfter(s, a, q);
      DigitRunShape(s, q + |TripTag|);
      assert TagTaken(s, a, q, a);
    } else {
      DigitRunShape(s, a + |TripPath|);
      assert PathTaken(s, a, a);
    }
  }

  /** A start `a` with no site carries the site taken from `b`, just before it, over to `a`. */
  lemma TripScanPast(s: string, b: nat, a: nat, r: Option<string>)
    requires a == b + 1 <= |s|
    requires forall q :: TagSite(s, a, q) ==> DigitRunAt(s, q + |TripTag|).None?
    requires OccursAt(s, TripPath, a) ==> DigitRunAt(s, a + |TripPath|).None?
    requires || (exists m, q :: TagTaken(s, m, q, b) && DigitRunAt(s, q + |TripTag|) == r)
             || (exists m :: PathTaken(s, m, b) && DigitRunAt(s, m + |TripPath|) == r)
    ensures || (exists m, q :: TagTaken(s, m, q, a) && DigitRunAt(s, q + |TripTag|) == r)
            || (exists m :: PathTaken(s, m, a) && DigitRunAt(s, m + |TripPath|) == r)
  {
    if exists m, q :: TagTaken(s, m, q, b) && DigitRunAt(s, q + |TripTag|) == r {
      var m, q :| TagTaken(s, m, q, b) && DigitRunAt(s, q + |TripTag|) == r;
      NoLaterTripStep(s, m, a);
      assert TagTaken(s, m, q, a);
    } else {
      var m :| PathTaken(s, m, b) && DigitRunAt(s, m + |TripPath|) == r;
      NoLaterTripStep(s, m, a);
      assert PathTaken(s, m, a);
    }
  }

  /** A start `a` with no site extends a run of starts without sites up to `a - 1`. */
  lemma NoLaterTripStep(s: string, m: int, a: int)
    requires NoLaterTrip(s, m, a - 1)
    requires forall q :: TagSite(s, a, q) ==> DigitRunAt(s, q + |TripTag|).None?
    requires 0 <= a && (OccursAt(s, TripPath, a) ==> DigitRunAt(s, a + |TripPath|).None?)
    ensures NoLaterTrip(s, m, a)
  {
    forall m', q | m < m' <= a && TagSite(s, m', q)
      ensures DigitRunAt(s, q + |TripTag|).None?
    {
      if m' < a {
        assert m' <= a - 1;
      }
    }
    forall m' | m < m' <= a && OccursAt(s, TripPath, m')
      ensures DigitRunAt(s, m' + |TripPath|).None?
    {
      if m' < a {
        assert m' <= a - 1;
      }
    }
  }

  /** When the scan finds nothing, no site of either kind at or before `a` is followed by digits. */
  lemma {:induction false} TripScanMisses(s: string, a: nat)
    requires a <= |s| && TripScan(s, a).None?
    ensures forall m, q :: m <= a && TagSite(s, m, q) ==> DigitRunAt(s, q + |TripTag|).None?
    ensures forall m :: 0 <= m <= a && OccursAt(s, TripPath, m) ==> DigitRunAt(s, m + |TripPath|).None?
    decreases a
  {
    TagAlternativeFinds(s, a);
    if a != 0 {
      TripScanMisses(s, a - 1);
      forall m, q | m <= a && TagSite(s, m, q)
        ensures DigitRunAt(s, q + |TripTag|).None?
      {
        if m == a {
          assert TagSite(s, a, q);
        } else {
          assert m <= a - 1;
        }
      }
    }
  }

  /**
   * The trip-id pattern on the first line of an href: the digit group, or
   * None. It matches exactly when some site of either kind is followed by
   * digits, and then returns the digits at the site the backtracking takes.
   */
  function TripIdMatch(line: string): (r: Option<string>)
    ensures r.Some? ==> r.value != [] && AllDigits(r.value)
    ensures r.Some? <==> || (exists m, q :: TagSite(line, m, q) && DigitRunAt(line, q + |TripTag|).Some?)
                         || (exists m :: OccursAt(line, TripPath, m) && DigitRunAt(line, m + |TripPath|).Some?)
    ensures r.Some? ==> || (exists m, q :: TagTaken(line, m, q, |line|) && DigitRunAt(line, q + |TripTag|) == r)
                        || (exists m :: PathTaken(line, m, |line|) && DigitRunAt(line, m + |TripPath|) == r)
  {
    var r := TripScan(line, |line|);
    if r.Some? then TripScanFinds(line, |line|); r
    else TripScanMisses(line, |line|); r
  }

  /** The backtracking takes at most one site: one `/` and `tripId=`, or one `ViewTrip/`, never both. */
  lemma TakenSiteUnique(s: string, a: int, m: int, q: int, m': int, q': int)
    ensures TagTaken(s, m, q, a) && TagTaken(s, m', q', a) ==> m == m' && q == q'
    ensures PathTaken(s, m, a) && PathTaken(s, m', a) ==> m == m'
    ensures !(TagTaken(s, m, q, a) && PathTaken(s, m', a))
  {
  }

  /** When the backtracking takes a `/…tripId=` site, the trip-id pattern returns the digits after its `tripId=`. */
  lemma TripIdMatchAtTag(s: string, m: int, q: int)
    requires TagTaken(s, m, q, |s|)
    ensures TripIdMatch(s) == DigitRunAt(s, q + |TripTag|)
  {
    var r := TripIdMatch(s);
    assert TagSite(s, m, q) && DigitRunAt(s, q + |TripTag|).Some?;
    if exists m', q' :: TagTaken(s, m', q', |s|) && DigitRunAt(s, q' + |TripTag|) == r {
      var m', q' :| TagTaken(s, m', q', |s|) && DigitRunAt(s, q' + |TripTag|) == r;
      TakenSiteUnique(s, |s|, m, q, m', q');
    } else {
      var m' :| PathTaken(s, m', |s|) && DigitRunAt(s, m' + |TripPath|) == r;
      TakenSiteUnique(s, |s|, m, q, m', 0);
    }
  }

  /** When the backtracking takes a `ViewTrip/` site, the trip-id pattern returns the digits after it. */
  lemma TripIdMatchAtPath(s: string, m: int)
    requires PathTaken(s, m, |s|)
    ensures TripIdMatch(s) == DigitRunAt(s, m + |TripPath|)
  {
    var r := TripIdMatch(s);
    assert OccursAt(s, TripPath, m) && DigitRunAt(s, m + |TripPath|).Some?;
    if exists m', q' :: TagTaken(s, m', q', |s|) && DigitRunAt(s, q' + |TripTag|) == r {
      var m', q' :| TagTaken(s, m', q', |s|) && DigitRunAt(s, q' + |TripTag|) == r;
      TakenSiteUnique(s, |s|, m', q', m, 0);
    } else {
      var m' :| PathTaken(s, m', |s|) && DigitRunAt(s, m' + |TripPath|) == r;
      TakenSiteUnique(s, |s|, m, 0, m', 0);
    }
  }

  /**
   * A link that ends in `ViewTrip/` and digits gives those digits whatever
   * comes before, a `/…tripId=` with digits included: the backtracking
   * reaches the last site first.
   */
  lemma TripIdOfTrailingPath(before: string, id: string)
    requires id != [] && AllDigits(id)
    ensures TripIdMatch(before + TripPath + id) == Some(id)
  {
    var s := before + TripPath + id;
    var m := |before|;
    var tail := TripPath[1..] + id;
    assert s == before + [TripPath[0]] + tail;
    assert s[m..m + |TripPath|] == TripPath && s[m + |TripPath|..] == id;
    assert 't' !in TripPath[1..] && 'V' !in TripPath[1..];
    assert 't' !in id && 'V' !in id by {
      forall k | 0 <= k < |id|
        ensures id[k] != 't' && id[k] != 'V'
      {
        assert IsDigit(id[k]);
      }
    }
    forall q | m < q
      ensures !OccursAt(s, TripTag, q)
    {
      OccursAtChar(s, TripTag, q, 0);
      if q < |s| {
        assert s[q] == tail[q - m - 1];
      }
    }
    forall m' | m < m'
      ensures !OccursAt(s, TripPath, m')
    {
      OccursAtChar(s, TripPath, m', 0);
      if m' < |s| {
        assert s[m'] == tail[m' - m - 1];
      }
    }
    DigitRunToEnd(s, m + |TripPath|);
    assert PathTaken(s, m, |s|);
    TripIdMatchAtPath(s, m);
  }

  /** A `tripId=` earlier in the link loses to a trailing `ViewTrip/`: the later site's digits are taken. */
  lemma TripIdPrefersLastSite()
    ensures TripIdMatch("http://www.trimbleoutdoors.com/tripId=111/ViewTrip/222") == Some("222")
  {
    var before := "http://www.trimbleoutdoors.com/tripId=111/";
    assert before + TripPath + "222" == "http://www.trimbleoutdoors.com/tripId=111/ViewTrip/222";
    TripIdOfTrailingPath(before, "222");
  }

  /** From an index where digits run to the end of the line, `(\d+)` takes all of them. */
  lemma DigitRunToEnd(s: string, p: nat)
    requires p < |s| && AllDigits(s[p..])
    ensures DigitRunAt(s, p) == Some(s[p..])
  {
    assert IsDigit(s[p..][0]);
    DigitRunShape(s, p);
    var r := DigitRunAt(s, p);
    assert r.Some?;
    assert s[p..p + |r.value|] == s[p..];
  }

  /** On a line with no `tripId=` and a single `ViewTrip/` followed by digits to the end, the id is those digits. */
  lemma TripIdViaPath(s: string, m: nat)
    requires OccursAt(s, TripPath, m) && m + |TripPath| < |s| && AllDigits(s[m + |TripPath|..])
    requires forall q :: !OccursAt(s, TripTag, q)
    requires forall m' :: OccursAt(s, TripPath, m') ==> m' == m
    ensures TripIdMatch(s) == Some(s[m + |TripPath|..])
  {
    DigitRunToEnd(s, m + |TripPath|);
    ScanFindsOnlyPath(s, |s|, m);
    TripIdMatchIsScan(s);
  }

  /** With no `tripId=` and a single `ViewTrip/`, at `m` and within reach, the scan takes the digits after it. */
  lemma {:induction false} ScanFindsOnlyPath(s: string, a: nat, m: nat)
    requires m <= a <= |s| && OccursAt(s, TripPath, m) && DigitRunAt(s, m + |TripPath|).Some?
    requires forall q :: !OccursAt(s, TripTag, q)
    requires forall m' :: OccursAt(s, TripPath, m') ==> m' == m
    ensures TripScan(s, a) == DigitRunAt(s, m + |TripPath|)
    decreases a
  {
    TagAlternativeFinds(s, a);
    if a != m {
      assert !OccursAt(s, TripPath, a);
      ScanFindsOnlyPath(s, a - 1, m);
    }
  }

  /** The trip-id pattern is the scan started at the end of the line. */
  lemma TripIdMatchIsScan(s: string)
    ensures TripIdMatch(s) == TripScan(s, |s|)
  {
  }

  /**
   * One step of the scan on a line with a single `tripId=`, at `q`, and no
   * `ViewTrip/`: a `/` before `q` takes the digits after `q`; any other
   * position moves one to the left.
   */
  lemma ScanStepOnlyTag(s: string, a: nat, q: nat)
    requires a <= |s| && OccursAt(s, TripTag, q) && DigitRunAt(s, q + |TripTag|).Some?
    requires forall q' :: OccursAt(s, TripTag, q') ==> q' == q
    requires forall m :: !OccursAt(s, TripPath, m)
    ensures TripScan(s, a) ==
      if a < q && s[a] == '/' then DigitRunAt(s, q + |TripTag|)
      else if a == 0 then None
      else TripScan(s, a - 1)
  {
    TagAlternativeFinds(s, a);
    var viaTag := TagAlternative(s, a);
    if a < q && s[a] == '/' {
      assert TagSite(s, a, q);
      var q' :| TagSite(s, a, q') && DigitRunAt(s, q' + |TripTag|) == viaTag;
    }
    assert !OccursAt(s, TripPath, a);
  }

  /** With a single `tripId=`, after a `/` within reach, and no `ViewTrip/`, the scan takes the digits after that `tripId=`. */
  lemma {:induction false} ScanFindsOnlyTag(s: string, a: nat, slash: nat, q: nat)
    requires slash <= a <= |s| && TagSite(s, slash, q) && DigitRunAt(s, q + |TripTag|).Some?
    requires forall q' :: OccursAt(s, TripTag, q') ==> q' == q
    requires forall m :: !OccursAt(s, TripPath, m)
    ensures TripScan(s, a) == DigitRunAt(s, q + |TripTag|)
    decreases a
  {
    ScanStepOnlyTag(s, a, q);
    if a != slash && !(a < q && s[a] == '/') {
      ScanFindsOnlyTag(s, a - 1, slash, q);
    }
  }

  /** On a line whose single `tripId=` follows a `/` and is followed by digits to the end, the id is those digits. */
  lemma TripIdViaTag(s: string, slash: nat, q: nat)
    requires TagSite(s, slash, q) && q + |TripTag| < |s| && AllDigits(s[q + |TripTag|..])
    requires forall q' :: OccursAt(s, TripTag, q') ==> q' == q
    requires forall m :: !OccursAt(s, TripPath, m)
    ensures TripIdMatch(s) == Some(s[q + |TripTag|..])
  {
    DigitRunToEnd(s, q + |TripTag|);
    ScanFindsOnlyTag(s, |s|, slash, q);
    TripIdMatchIsScan(s);
  }

  /** The two numbers must be separated by a literal `+`: a line without one (a comma-separated pair, say) gives no pair. */
  lemma PairNeedsPlus(line: string)
    ensures CoordinateMatch(line).Some? ==> '+' in line
  {
    var r := CoordinateMatch(line);
    if r.Some? {
      var x, y := r.value.0, r.value.1;
      var m, p, c :| FirstPairSite(line, m, p, c) && PairText(line, c, x, y);
      PairTextParts(line, c, x, y);
    }
  }
}
