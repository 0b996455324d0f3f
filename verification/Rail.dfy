/** The overview rail: `OverviewRailModel`.

  `M` rows of the proxy are painted into `N` buckets.  The live proxy is a parameter: for
  each row the level and the anchor slot of the source row, or that there is none. */
module Rail {
  import opened Basics

  const LEVELS: nat := 7
  const SLOTS: nat := 8

  type Level = l: int | 0 <= l < LEVELS
  type Slot = s: int | 0 <= s < SLOTS

  datatype ProxyRow = Unreachable | Reached(level: Level, anchored: bool, slot: Slot)

  /** One counter per level. */
  type Counts = c: seq<nat> | |c| == LEVELS witness [0, 0, 0, 0, 0, 0, 0]

  datatype Bucket = Bucket(levels: Counts, matchCount: nat, slots: set<Slot>)

  const BLANK: Bucket := Bucket([0, 0, 0, 0, 0, 0, 0], 0, {})

  // ----- Which rows a bucket holds -----

  /** `BucketForProxyRow`. */
  function BucketForProxyRow(row: int, M: nat, N: nat): int {
    if N == 0 || row < 0 || row >= M then -1 else Min(row * N / M, N - 1)
  }

  /** ceil(b * M / N): where the rows of bucket `b` begin. */
  function Begin(b: nat, M: nat, N: nat): nat
    requires N > 0
  {
    (b * M + (N - 1)) / N
  }

  /** `FirstProxyRowInBucket`. */
  function FirstProxyRowInBucket(b: nat, M: nat, N: nat): int {
    if M == 0 || b >= N then -1 else Min(Begin(b, M, N), M - 1)
  }

  lemma MulLe(a: int, b: int, m: nat)
    requires a <= b
    ensures a * m <= b * m
  {
  }

  lemma DivAtLeast(a: nat, m: nat, b: nat)
    requires m > 0
    ensures a / m >= b <==> a >= b * m
  {
    var q := a / m;
    assert a == q * m + a % m;
    if q >= b {
      MulLe(b, q, m);
    } else {
      MulLe(q + 1, b, m);
      assert (q + 1) * m == q * m + m;
    }
  }

  lemma BeginAtMost(b: nat, M: nat, N: nat, row: nat)
    requires N > 0
    ensures row >= Begin(b, M, N) <==> row * N >= b * M
  {
    DivAtLeast(b * M + (N - 1), N, row + 1);
    assert (row + 1) * N == row * N + N;
  }

  lemma BucketAtLeast(row: nat, M: nat, N: nat, b: nat)
    requires row < M && N > 0 && b < N
    ensures 0 <= BucketForProxyRow(row, M, N) < N
    ensures BucketForProxyRow(row, M, N) == row * N / M
    ensures BucketForProxyRow(row, M, N) >= b <==> row >= Begin(b, M, N)
  {
    DivAtLeast(row * N, M, b);
    DivAtLeast(row * N, M, N);
    MulLe(row + 1, M, N);
    assert (row + 1) * N == row * N + N && N * M == M * N;
    BeginAtMost(b, M, N, row);
  }

  lemma BeginEnds(M: nat, N: nat)
    requires N > 0
    ensures Begin(0, M, N) == 0 && Begin(N, M, N) == M
  {
    BeginAtMost(0, M, N, 0);
    BeginAtMost(N, M, N, M);
    if M > 0 {
      BeginAtMost(N, M, N, M - 1);
      assert (M - 1) * N == M * N - N && N * M == M * N;
    }
  }

  /** The rows of bucket `b` are one run: from `Begin(b)` up to `Begin(b + 1)`. */
  lemma BucketIsRun(row: nat, M: nat, N: nat, b: nat)
    requires row < M && N > 0 && b < N
    ensures BucketForProxyRow(row, M, N) == b <==> Begin(b, M, N) <= row < Begin(b + 1, M, N)
  {
    BucketAtLeast(row, M, N, b);
    if b + 1 < N {
      BucketAtLeast(row, M, N, b + 1);
    } else {
      BeginEnds(M, N);
    }
  }

  lemma BeginUpper(b: nat, M: nat, N: nat, c: nat)
    requires N > 0 && c * N >= M
    ensures Begin(b + 1, M, N) <= Begin(b, M, N) + c
  {
    var lo := Begin(b, M, N);
    BeginAtMost(b, M, N, lo);
    assert (lo + c) * N == lo * N + c * N && (b + 1) * M == b * M + M;
    BeginAtMost(b + 1, M, N, lo + c);
  }

  lemma BeginLower(b: nat, M: nat, N: nat, q: nat)
    requires N > 0 && q * N <= M
    ensures Begin(b, M, N) + q <= Begin(b + 1, M, N)
  {
    var lo := Begin(b, M, N);
    if lo > 0 {
      BeginAtMost(b, M, N, lo - 1);
      assert (lo - 1) * N < b * M;
    }
    if lo + q > 0 {
      assert (lo + q - 1) * N == (lo - 1) * N + q * N && (b + 1) * M == b * M + M;
      assert (lo - 1) * N < b * M by {
        if lo == 0 {
          MulLe(0, b, M);
        }
      }
      BeginAtMost(b + 1, M, N, lo + q - 1);
    }
  }

  /** The runs follow each other without a gap, and any two differ in length by at most one:
      each holds `M / N` rows, rounded down or up. */
  lemma RunsAreEven(M: nat, N: nat, b: nat)
    requires N > 0 && b < N
    ensures M / N <= Begin(b + 1, M, N) - Begin(b, M, N) <= M / N + if M % N == 0 then 0 else 1
    ensures Begin(b + 1, M, N) <= M
  {
    var q := M / N;
    assert M == q * N + M % N && (q + 1) * N == q * N + N;
    BeginLower(b, M, N, q);
    BeginUpper(b, M, N, if M % N == 0 then q else q + 1);
    BeginInside(M, N, b);
  }

  lemma BeginInside(M: nat, N: nat, b: nat)
    requires N > 0 && b < N
    ensures Begin(b + 1, M, N) <= M
  {
    MulLe(b + 1, N, M);
    assert N * M == M * N;
    BeginAtMost(b + 1, M, N, M);
  }

  /** `FirstProxyRowInBucket` gives the least row of the bucket exactly when the bucket has
      a row.  For a bucket without rows it does not give -1, but the first row of a later
      bucket, or the last row of all when no later bucket has one. */
  lemma FirstRowIffNonEmpty(M: nat, N: nat, b: nat)
    requires M > 0 && b < N
    ensures var first := FirstProxyRowInBucket(b, M, N);
            && 0 <= first < M
            && (BucketForProxyRow(first, M, N) == b <==> exists row :: BucketForProxyRow(row, M, N) == b)
            && (BucketForProxyRow(first, M, N) == b ==>
                  forall row :: 0 <= row < first ==> BucketForProxyRow(row, M, N) != b)
            && (BucketForProxyRow(first, M, N) != b ==>
                  BucketForProxyRow(first, M, N) > b
                  || (first == M - 1 && forall row :: 0 <= row < M ==> BucketForProxyRow(row, M, N) < b))
  {
    var first := FirstProxyRowInBucket(b, M, N);
    forall row | 0 <= row < M
      ensures BucketForProxyRow(row, M, N) >= b <==> row >= Begin(b, M, N)
    {
      BucketAtLeast(row, M, N, b);
    }
    if row :| BucketForProxyRow(row, M, N) == b {
      assert 0 <= row < M;
      RowsAscend(first, row, M, N);
    }
  }

  lemma RowsAscend(a: nat, b: nat, M: nat, N: nat)
    requires b < M && N > 0
    ensures a <= b ==> BucketForProxyRow(a, M, N) <= BucketForProxyRow(b, M, N)
  {
    if a <= b {
      BucketAtLeast(a, M, N, 0);
      BucketAtLeast(b, M, N, 0);
      MulLe(a, b, N);
      DivAtLeast(a * N, M, a * N / M);
      DivAtLeast(b * N, M, a * N / M);
    }
  }

  /** A bucket is empty only when there are fewer rows than buckets. */
  lemma ManyRowsFillBuckets(M: nat, N: nat, b: nat)
    requires b < N <= M
    ensures BucketForProxyRow(FirstProxyRowInBucket(b, M, N), M, N) == b
  {
    RunsAreEven(M, N, b);
    DivAtLeast(M, N, 1);
    BucketIsRun(Begin(b, M, N), M, N, b);
  }

  /** Rows and buckets that do not exist. */
  lemma OutsideIsAbsent(row: int, b: nat, M: nat, N: nat)
    ensures N == 0 || row < 0 || row >= M <==> BucketForProxyRow(row, M, N) == -1
    ensures M == 0 || b >= N <==> FirstProxyRowInBucket(b, M, N) == -1
  {
    if N > 0 && 0 <= row < M {
      BucketAtLeast(row, M, N, 0);
    }
  }

  // ----- Pixels -----

  /** `ProxyRowForYPixel`. */
  function ProxyRowForYPixel(y: int, height: int, M: nat): int {
    if M == 0 then -1
    else if height <= 0 then 0
    else
      var clampedY: nat := if y < 0 then 0 else if y >= height then height - 1 else y;
      Min(clampedY * M / height, M - 1)
  }

  /** On a rail of one pixel per bucket, a click leads into the bucket painted at the pixel
      exactly when the bucket begins at a whole row; otherwise it leads one row above it. */
  lemma PixelHitsItsBucket(y: nat, N: nat, M: nat)
    requires M > 0 && y < N
    ensures var row := ProxyRowForYPixel(y, N, M);
            && (BucketForProxyRow(row, M, N) == y <==> y * M % N == 0)
            && (y * M % N != 0 ==> row == Begin(y, M, N) - 1)
  {
    hide BucketForProxyRow, Begin;
    var p, row := y * M, y * M / N;
    RowBelow(y, N, M);
    BucketAtLeast(row, M, N, y);
    BeginAtMost(y, M, N, row);
    BeginAtMost(y, M, N, row + 1);
    Quotient(p, N);
    if p % N == 0 {
      ExactQuotient(y, M);
    }
  }

  lemma Quotient(p: nat, N: nat)
    requires N > 0
    ensures p / N * N == p - p % N && (p / N + 1) * N == p - p % N + N
  {
  }

  lemma ExactQuotient(y: nat, M: nat)
    requires M > 0
    ensures y * M / M == y
  {
    DivAtLeast(y * M, M, y);
    DivAtLeast(y * M, M, y + 1);
    assert (y + 1) * M == y * M + M;
  }

  lemma RowBelow(y: nat, N: nat, M: nat)
    requires M > 0 && y < N
    ensures y * M / N < M
  {
    MulLe(y + 1, N, M);
    assert (y + 1) * M == y * M + M && N * M == M * N;
    DivAtLeast(y * M, N, M);
  }

  /** Every pixel leads to a row; above and below the rail that is the row of its first and of
      its last pixel, and further down is never further up. */
  lemma PixelsAreClamped(y: int, y': int, height: int, M: nat)
    requires M > 0
    ensures 0 <= ProxyRowForYPixel(y, height, M) < M && ProxyRowForYPixel(y, height, 0) == -1
    ensures height <= 0 ==> ProxyRowForYPixel(y, height, M) == 0
    ensures y <= 0 ==> ProxyRowForYPixel(y, height, M) == 0
    ensures y >= height > 0 ==> ProxyRowForYPixel(y, height, M) == ProxyRowForYPixel(height - 1, height, M)
    ensures y <= y' ==> ProxyRowForYPixel(y, height, M) <= ProxyRowForYPixel(y', height, M)
  {
    if height > 0 {
      var c: nat := if y < 0 then 0 else if y >= height then height - 1 else y;
      var c': nat := if y' < 0 then 0 else if y' >= height then height - 1 else y';
      ZeroQuotient(height);
      if y <= y' {
        MulLe(c, c', M);
        QuotientLe(c * M, c' * M, height);
      }
    }
  }

  lemma ZeroQuotient(n: nat)
    requires n > 0
    ensures 0 / n == 0
  {
  }

  lemma QuotientLe(p: nat, q: nat, n: nat)
    requires p <= q && n > 0
    ensures p / n <= q / n
  {
    DivAtLeast(p, n, p / n);
    DivAtLeast(q, n, p / n);
  }

  // ----- What a rebuild computes -----

  function Counted(c: Counts, l: Level): Counts { c[l := c[l] + 1] }

  function AddRow(bs: seq<Bucket>, b: nat, row: ProxyRow): seq<Bucket>
    requires b < |bs|
  {
    if row.Unreachable? then bs
    else bs[b := bs[b].(levels := Counted(bs[b].levels, row.level),
                        slots := if row.anchored then bs[b].slots + {row.slot} else bs[b].slots)]
  }

  function Blanks(N: nat): (bs: seq<Bucket>)
    ensures |bs| == N && forall b :: 0 <= b < N ==> bs[b] == BLANK
  {
    seq(N, _ => BLANK)
  }

  /** The first `n` of `M` rows, put into their buckets. */
  function FoldRows(proxy: seq<ProxyRow>, n: nat, N: nat): (bs: seq<Bucket>)
    requires n <= |proxy| && N > 0
    ensures |bs| == N
  {
    if n == 0 then Blanks(N)
    else
      BucketAtLeast(n - 1, |proxy|, N, 0);
      AddRow(FoldRows(proxy, n - 1, N), BucketForProxyRow(n - 1, |proxy|, N), proxy[n - 1])
  }

  function CountLevel(rows: seq<ProxyRow>, l: Level): nat {
    if rows == [] then 0
    else CountLevel(rows[..|rows| - 1], l) + if rows[|rows| - 1].Reached? && rows[|rows| - 1].level == l then 1 else 0
  }

  function SlotsOf(rows: seq<ProxyRow>): set<Slot> {
    set i | 0 <= i < |rows| && rows[i].Reached? && rows[i].anchored :: rows[i].slot
  }

  function Upto(rows: seq<ProxyRow>, lo: nat, hi: nat, n: nat): seq<ProxyRow>
    requires n <= |rows|
  {
    rows[Min(lo, n)..if hi <= lo then Min(lo, n) else Min(hi, n)]
  }

  lemma SlotsOfStep(rows: seq<ProxyRow>, row: ProxyRow)
    ensures SlotsOf(rows + [row]) == SlotsOf(rows) + if row.Reached? && row.anchored then {row.slot} else {}
  {
    var all := rows + [row];
    forall s | s in SlotsOf(rows) ensures s in SlotsOf(all) {
      var i :| 0 <= i < |rows| && rows[i].Reached? && rows[i].anchored && rows[i].slot == s;
      assert all[i] == rows[i];
    }
    if row.Reached? && row.anchored {
      assert all[|rows|] == row;
    }
  }

  lemma CountLevelStep(rows: seq<ProxyRow>, row: ProxyRow, l: Level)
    ensures CountLevel(rows + [row], l) == CountLevel(rows, l) + if row.Reached? && row.level == l then 1 else 0
  {
    assert (rows + [row])[..|rows|] == rows;
  }

  lemma FoldRowsStep(proxy: seq<ProxyRow>, n: nat, N: nat, b: nat)
    requires n < |proxy| && b < N
    ensures var was, now, row := FoldRows(proxy, n, N)[b], FoldRows(proxy, n + 1, N)[b], proxy[n];
            now == if BucketForProxyRow(n, |proxy|, N) == b then AddRow([was], 0, row)[0] else was
  {
    BucketAtLeast(n, |proxy|, N, 0);
  }

  lemma UptoStep(proxy: seq<ProxyRow>, lo: nat, hi: nat, n: nat)
    requires n < |proxy| && lo <= hi
    ensures Upto(proxy, lo, hi, n + 1) == Upto(proxy, lo, hi, n) + if lo <= n < hi then [proxy[n]] else []
  {
  }

  /** The bucket counts the rows. */
  predicate Tallies(bucket: Bucket, rows: seq<ProxyRow>, l: Level) {
    bucket.levels[l] == CountLevel(rows, l) && bucket.slots == SlotsOf(rows) && bucket.matchCount == 0
  }

  lemma RowTallied(was: Bucket, rows: seq<ProxyRow>, row: ProxyRow, l: Level)
    requires Tallies(was, rows, l)
    ensures Tallies(AddRow([was], 0, row)[0], rows + [row], l)
  {
    hide CountLevel, SlotsOf;
    SlotsOfStep(rows, row);
    CountLevelStep(rows, row, l);
  }

  lemma {:induction false} FoldRowsPrefix(proxy: seq<ProxyRow>, n: nat, N: nat, b: nat, l: Level)
    requires n <= |proxy| && b < N
    ensures Tallies(FoldRows(proxy, n, N)[b], Upto(proxy, Begin(b, |proxy|, N), Begin(b + 1, |proxy|, N), n), l)
  {
    if n > 0 {
      hide Begin, BucketForProxyRow, FoldRows, Upto, Tallies, AddRow;
      var M, row := |proxy|, proxy[n - 1];
      var lo, hi := Begin(b, M, N), Begin(b + 1, M, N);
      FoldRowsPrefix(proxy, n - 1, N, b, l);
      FoldRowsStep(proxy, n - 1, N, b);
      BeginLower(b, M, N, 0);
      BucketIsRun(n - 1, M, N, b);
      UptoStep(proxy, lo, hi, n - 1);
      RowTallied(FoldRows(proxy, n - 1, N)[b], Upto(proxy, lo, hi, n - 1), row, l);
      assert Upto(proxy, lo, hi, n - 1) + [] == Upto(proxy, lo, hi, n - 1);
    }
  }

  /** After a rebuild each bucket shows its run of rows: for every level the number of its
      rows with that level, and the anchor slots found among them. */
  lemma RebuiltShowsRuns(proxy: seq<ProxyRow>, N: nat, b: nat, l: Level)
    requires b < N
    ensures var lo, hi := Begin(b, |proxy|, N), Begin(b + 1, |proxy|, N);
            && lo <= hi <= |proxy|
            && FoldRows(proxy, |proxy|, N)[b].levels[l] == CountLevel(proxy[lo..hi], l)
            && FoldRows(proxy, |proxy|, N)[b].slots == SlotsOf(proxy[lo..hi])
  {
    hide Begin, FoldRows, CountLevel, SlotsOf;
    BeginLower(b, |proxy|, N, 0);
    BeginInside(|proxy|, N, b);
    FoldRowsPrefix(proxy, |proxy|, N, b, l);
  }

  // ----- Totals -----

  function SumCounts(c: seq<nat>): nat {
    if c == [] then 0 else c[0] + SumCounts(c[1..])
  }

  lemma {:induction false} SumCountsUpdate(c: seq<nat>, i: nat, x: nat)
    requires i < |c|
    ensures SumCounts(c[i := x]) == SumCounts(c) - c[i] + x
  {
    if i > 0 {
      SumCountsUpdate(c[1..], i - 1, x);
      assert c[i := x][1..] == c[1..][i - 1 := x];
    }
  }

  /** A bucket's share of a total. */
  datatype Share = LevelShare | MatchShare | SlotShare

  function ShareOf(b: Bucket, s: Share): nat {
    match s
    case LevelShare => SumCounts(b.levels)
    case MatchShare => b.matchCount
    case SlotShare => |b.slots|
  }

  function Total(bs: seq<Bucket>, s: Share): nat {
    if bs == [] then 0 else ShareOf(bs[0], s) + Total(bs[1..], s)
  }

  lemma {:induction false} TotalUpdate(bs: seq<Bucket>, b: nat, x: Bucket, s: Share)
    requires b < |bs|
    ensures Total(bs[b := x], s) == Total(bs, s) - ShareOf(bs[b], s) + ShareOf(x, s)
  {
    if b > 0 {
      TotalUpdate(bs[1..], b - 1, x, s);
      assert bs[b := x][1..] == bs[1..][b - 1 := x];
    }
  }

  lemma {:induction false} TotalBlank(bs: seq<Bucket>, s: Share)
    requires forall b :: 0 <= b < |bs| ==> ShareOf(bs[b], s) == 0
    ensures Total(bs, s) == 0
  {
    if bs != [] {
      TotalBlank(bs[1..], s);
    }
  }

  function ReachedRows(rows: seq<ProxyRow>, n: nat): nat
    requires n <= |rows|
  {
    if n == 0 then 0 else ReachedRows(rows, n - 1) + if rows[n - 1].Reached? then 1 else 0
  }

  lemma BlankTotals(N: nat, s: Share)
    ensures Total(Blanks(N), s) == 0
  {
    assert SumCounts(BLANK.levels) == 0 by {
      AllZero(BLANK.levels);
    }
    TotalBlank(Blanks(N), s);
  }

  lemma {:induction false} AllZero(c: seq<nat>)
    requires forall i :: 0 <= i < |c| ==> c[i] == 0
    ensures SumCounts(c) == 0
  {
    if c != [] {
      AllZero(c[1..]);
    }
  }

  /** The levels of all buckets together count every reachable row once. */
  lemma {:induction false} LevelsCountRows(proxy: seq<ProxyRow>, n: nat, N: nat)
    requires n <= |proxy| && N > 0
    ensures Total(FoldRows(proxy, n, N), LevelShare) == ReachedRows(proxy, n)
  {
    if n == 0 {
      BlankTotals(N, LevelShare);
    } else {
      LevelsCountRows(proxy, n - 1, N);
      var bs, row := FoldRows(proxy, n - 1, N), proxy[n - 1];
      BucketAtLeast(n - 1, |proxy|, N, 0);
      var b: nat := BucketForProxyRow(n - 1, |proxy|, N);
      if row.Reached? {
        SumCountsUpdate(bs[b].levels, row.level, bs[b].levels[row.level] + 1);
        TotalUpdate(bs, b, AddRow(bs, b, row)[b], LevelShare);
      }
    }
  }

  // ----- Matches -----

  function AddMatch(bs: seq<Bucket>, b: nat): seq<Bucket>
    requires b < |bs|
  {
    bs[b := bs[b].(matchCount := bs[b].matchCount + 1)]
  }

  predicate InRange(row: int, M: nat) { 0 <= row < M }

  function FoldMatches(bs: seq<Bucket>, rows: seq<int>, M: nat): (r: seq<Bucket>)
    requires bs != []
    ensures |r| == |bs|
  {
    if rows == [] then bs
    else
      var init, row := FoldMatches(bs, rows[..|rows| - 1], M), rows[|rows| - 1];
      if !InRange(row, M) then init
      else
        BucketAtLeast(row, M, |bs|, 0);
        AddMatch(init, BucketForProxyRow(row, M, |bs|))
  }

  /** The distinct rows of a list that a bucket holds. */
  function Hits(rows: seq<int>, M: nat, N: nat, b: nat): set<int> {
    set i | 0 <= i < |rows| && BucketForProxyRow(rows[i], M, N) == b :: rows[i]
  }

  predicate Increasing(rows: seq<int>) { forall i, j :: 0 <= i < j < |rows| ==> rows[i] < rows[j] }

  lemma MatchesStep(bs: seq<Bucket>, init: seq<int>, row: int, M: nat, b: nat)
    requires b < |bs|
    ensures var was, now := FoldMatches(bs, init, M), FoldMatches(bs, init + [row], M);
            now[b] == was[b].(matchCount := was[b].matchCount + if BucketForProxyRow(row, M, |bs|) == b then 1 else 0)
  {
    var rows := init + [row];
    assert rows[..|rows| - 1] == init && rows[|rows| - 1] == row;
    if InRange(row, M) {
      BucketAtLeast(row, M, |bs|, 0);
    }
  }

  /** Of a list without duplicates each bucket counts the rows that it holds. */
  lemma {:induction false} MatchesCountHits(bs: seq<Bucket>, rows: seq<int>, M: nat, b: nat)
    requires b < |bs| && Increasing(rows)
    ensures FoldMatches(bs, rows, M)[b] == bs[b].(matchCount := bs[b].matchCount + |Hits(rows, M, |bs|, b)|)
  {
    if rows == [] {
      assert Hits(rows, M, |bs|, b) == {};
    } else {
      var init, row := rows[..|rows| - 1], rows[|rows| - 1];
      assert rows == init + [row];
      MatchesCountHits(bs, init, M, b);
      MatchesStep(bs, init, row, M, b);
      HitsStep(init, row, M, |bs|, b);
      assert row !in Hits(init, M, |bs|, b);
    }
  }

  lemma HitsStep(init: seq<int>, row: int, M: nat, N: nat, b: nat)
    ensures Hits(init + [row], M, N, b) == Hits(init, M, N, b) + if BucketForProxyRow(row, M, N) == b then {row} else {}
  {
    var rows := init + [row];
    forall x | x in Hits(init, M, N, b) ensures x in Hits(rows, M, N, b) {
      var i :| 0 <= i < |init| && BucketForProxyRow(init[i], M, N) == b && init[i] == x;
      assert rows[i] == init[i];
    }
    if BucketForProxyRow(row, M, N) == b {
      assert rows[|init|] == row;
    }
  }

  function CountInRange(rows: seq<int>, M: nat): nat {
    if rows == [] then 0 else CountInRange(rows[..|rows| - 1], M) + if InRange(rows[|rows| - 1], M) then 1 else 0
  }

  lemma {:induction false} MatchTotal(bs: seq<Bucket>, rows: seq<int>, M: nat)
    requires bs != []
    ensures var r := FoldMatches(bs, rows, M);
            && Total(r, MatchShare) == Total(bs, MatchShare) + CountInRange(rows, M)
            && Total(r, SlotShare) == Total(bs, SlotShare)
  {
    if rows != [] {
      var init, row := rows[..|rows| - 1], rows[|rows| - 1];
      MatchTotal(bs, init, M);
      if InRange(row, M) {
        BucketAtLeast(row, M, |bs|, 0);
        var r := FoldMatches(bs, init, M);
        var b: nat := BucketForProxyRow(row, M, |bs|);
        TotalUpdate(r, b, AddMatch(r, b)[b], MatchShare);
        TotalUpdate(r, b, AddMatch(r, b)[b], SlotShare);
      }
    }
  }

  /** The match counts replaced by given ones. */
  function WithMatches(bs: seq<Bucket>, counts: seq<nat>): (r: seq<Bucket>)
    requires |counts| == |bs|
    ensures |r| == |bs| && forall b :: 0 <= b < |bs| ==> r[b] == bs[b].(matchCount := counts[b])
  {
    seq(|bs|, b requires 0 <= b < |bs| => bs[b].(matchCount := counts[b]))
  }

  function Cleared(bs: seq<Bucket>): (r: seq<Bucket>)
    ensures |r| == |bs| && forall b :: 0 <= b < |bs| ==> r[b] == bs[b].(matchCount := 0)
  {
    seq(|bs|, b requires 0 <= b < |bs| => bs[b].(matchCount := 0))
  }

  lemma {:induction false} WithMatchesTotals(bs: seq<Bucket>, counts: seq<nat>)
    requires |counts| == |bs|
    ensures Total(WithMatches(bs, counts), MatchShare) == SumCounts(counts)
    ensures Total(WithMatches(bs, counts), SlotShare) == Total(bs, SlotShare)
  {
    if bs != [] {
      WithMatchesTotals(bs[1..], counts[1..]);
      assert WithMatches(bs, counts)[1..] == WithMatches(bs[1..], counts[1..]);
    }
  }

  lemma {:induction false} ClearedTotals(bs: seq<Bucket>)
    ensures Total(Cleared(bs), MatchShare) == 0 && Total(Cleared(bs), SlotShare) == Total(bs, SlotShare)
  {
    if bs != [] {
      ClearedTotals(bs[1..]);
      assert Cleared(bs)[1..] == Cleared(bs[1..]);
    }
  }

  /** What the match sources make of freshly counted buckets: the row list is folded in, or
      the stored counts are put back when their number still fits. */
  function Marked(bs: seq<Bucket>, M: nat, matchRows: seq<int>, stored: seq<nat>): seq<Bucket>
    requires bs != []
  {
    if matchRows == [] && |stored| == |bs| then WithMatches(bs, stored) else FoldMatches(bs, matchRows, M)
  }

  /** A bucket that shows its run of rows and its matches: the counts that were handed in, as
      long as their number fits, or else the rows of the list that it holds. */
  ghost predicate ShowsRun(bucket: Bucket, b: nat, proxy: seq<ProxyRow>, N: nat, matchRows: seq<int>, stored: seq<nat>)
    requires b < N
  {
    var lo, hi := Begin(b, |proxy|, N), Begin(b + 1, |proxy|, N);
    && lo <= hi <= |proxy|
    && (forall l: Level :: bucket.levels[l] == CountLevel(proxy[lo..hi], l))
    && bucket.slots == SlotsOf(proxy[lo..hi])
    && bucket.matchCount == (if matchRows == [] && |stored| == N then stored[b]
                             else |Hits(matchRows, |proxy|, N, b)|)
  }

  lemma RunIsInside(M: nat, N: nat, b: nat)
    requires b < N
    ensures Begin(b, M, N) <= Begin(b + 1, M, N) <= M
  {
    BeginLower(b, M, N, 0);
    BeginInside(M, N, b);
  }

  lemma MarkedShows(proxy: seq<ProxyRow>, N: nat, matchRows: seq<int>, stored: seq<nat>, b: nat)
    requires b < N && Increasing(matchRows)
    ensures ShowsRun(Marked(FoldRows(proxy, |proxy|, N), |proxy|, matchRows, stored)[b], b, proxy, N, matchRows, stored)
  {
    hide FoldRows, CountLevel, SlotsOf, Begin, FoldMatches, Hits;
    var bs := FoldRows(proxy, |proxy|, N);
    RunIsInside(|proxy|, N, b);
    forall l: Level ensures bs[b].levels[l] == CountLevel(proxy[Begin(b, |proxy|, N)..Begin(b + 1, |proxy|, N)], l) {
      RebuiltShowsRuns(proxy, N, b, l);
    }
    RebuiltShowsRuns(proxy, N, b, 0);
    NoMatchesYet(proxy, N, b);
    MatchesCountHits(bs, matchRows, |proxy|, b);
  }

  lemma NoMatchesYet(proxy: seq<ProxyRow>, N: nat, b: nat)
    requires b < N
    ensures FoldRows(proxy, |proxy|, N)[b].matchCount == 0
  {
    FoldRowsPrefix(proxy, |proxy|, N, b, 0);
  }

  // ----- When the masks change -----

  function Masks(bs: seq<Bucket>): (r: seq<set<Slot>>)
    ensures |r| == |bs| && forall b :: 0 <= b < |bs| ==> r[b] == bs[b].slots
  {
    seq(|bs|, b requires 0 <= b < |bs| => bs[b].slots)
  }

  lemma {:induction false} MasksTotal(was: seq<Bucket>, now: seq<Bucket>)
    requires Masks(was) == Masks(now)
    ensures Total(was, SlotShare) == Total(now, SlotShare)
  {
    assert |was| == |Masks(was)| == |now|;
    if was != [] {
      assert Masks(was)[0] == Masks(now)[0];
      assert Masks(was[1..]) == Masks(was)[1..] == Masks(now)[1..] == Masks(now[1..]);
      MasksTotal(was[1..], now[1..]);
    }
  }

  /** A signal that follows the number of set bits announces a change of the masks exactly
      when there is none or the numbers differ. */
  lemma AnnouncedIff(was: seq<Bucket>, now: seq<Bucket>)
    ensures (Total(was, SlotShare) != Total(now, SlotShare) <==> Masks(was) != Masks(now)) <==>
            (Masks(was) == Masks(now) || Total(was, SlotShare) != Total(now, SlotShare))
  {
    if Masks(was) == Masks(now) {
      MasksTotal(was, now);
    }
  }

  predicate Grown(was: seq<Bucket>, now: seq<Bucket>) {
    |was| == |now| && forall b :: 0 <= b < |was| ==> was[b].slots <= now[b].slots
  }

  lemma {:induction false} GrownMasks(was: seq<Bucket>, now: seq<Bucket>)
    requires Grown(was, now)
    ensures Total(was, SlotShare) <= Total(now, SlotShare)
    ensures Total(was, SlotShare) == Total(now, SlotShare) ==> Masks(was) == Masks(now)
  {
    if was != [] {
      assert forall b :: 0 <= b < |was| - 1 ==> was[1..][b].slots <= now[1..][b].slots;
      GrownMasks(was[1..], now[1..]);
      SubsetSize(was[0].slots, now[0].slots);
      if Total(was, SlotShare) == Total(now, SlotShare) {
        forall b | 0 <= b < |was| ensures Masks(was)[b] == Masks(now)[b] {
          if b > 0 {
            assert Masks(was[1..])[b - 1] == Masks(now[1..])[b - 1];
          }
        }
      }
    }
  }

  lemma SubsetSize(a: set<Slot>, b: set<Slot>)
    requires a <= b
    ensures |a| <= |b| && (|a| == |b| ==> a == b)
  {
    assert b == a + (b - a);
  }

  /** Every anchor of the first proxy is an anchor of the second. */
  predicate OnlyAdded(was: seq<ProxyRow>, now: seq<ProxyRow>) {
    && |was| == |now|
    && forall i :: 0 <= i < |was| && was[i].Reached? && was[i].anchored ==>
         now[i].Reached? && now[i].anchored && now[i].slot == was[i].slot
  }

  lemma AddedSlots(was: seq<ProxyRow>, now: seq<ProxyRow>, lo: nat, hi: nat)
    requires OnlyAdded(was, now) && lo <= hi <= |was|
    ensures SlotsOf(was[lo..hi]) <= SlotsOf(now[lo..hi])
  {
    forall s | s in SlotsOf(was[lo..hi]) ensures s in SlotsOf(now[lo..hi]) {
      var i :| 0 <= i < hi - lo && was[lo..hi][i].Reached? && was[lo..hi][i].anchored && was[lo..hi][i].slot == s;
      assert now[lo..hi][i] == now[lo + i] && was[lo..hi][i] == was[lo + i];
    }
  }

  lemma AddedMasks(was: seq<ProxyRow>, now: seq<ProxyRow>, N: nat)
    requires OnlyAdded(was, now) && N > 0
    ensures Grown(FoldRows(was, |was|, N), FoldRows(now, |now|, N))
  {
    hide SlotsOf, CountLevel, FoldRows, Begin;
    forall b: nat | b < N
      ensures FoldRows(was, |was|, N)[b].slots <= FoldRows(now, |now|, N)[b].slots
    {
      RebuiltShowsRuns(was, N, b, 0);
      RebuiltShowsRuns(now, N, b, 0);
      AddedSlots(was, now, Begin(b, |was|, N), Begin(b + 1, |was|, N));
    }
  }

  lemma MarkedMasks(bs: seq<Bucket>, M: nat, matchRows: seq<int>, stored: seq<nat>)
    requires bs != []
    ensures Masks(Marked(bs, M, matchRows, stored)) == Masks(bs)
  {
    if !(matchRows == [] && |stored| == |bs|) {
      FoldMatchesMasks(bs, matchRows, M);
    }
  }

  lemma {:induction false} FoldMatchesMasks(bs: seq<Bucket>, rows: seq<int>, M: nat)
    requires bs != []
    ensures Masks(FoldMatches(bs, rows, M)) == Masks(bs)
  {
    if rows != [] {
      var init, row := rows[..|rows| - 1], rows[|rows| - 1];
      FoldMatchesMasks(bs, init, M);
      assert rows == init + [row];
      forall b | 0 <= b < |bs| ensures Masks(FoldMatches(bs, rows, M))[b] == Masks(bs)[b] {
        MatchesStep(bs, init, row, M, b);
        assert Masks(FoldMatches(bs, init, M))[b] == Masks(bs)[b];
      }
    }
  }

  lemma GrownIsAnnounced(w: seq<Bucket>, n: seq<Bucket>, w': seq<Bucket>, n': seq<Bucket>)
    requires Grown(w, n) || Grown(n, w)
    requires Masks(w') == Masks(w) && Masks(n') == Masks(n)
    ensures Total(w', SlotShare) != Total(n', SlotShare) <==> Masks(w') != Masks(n')
  {
    hide Total, Masks;
    MasksTotal(w, w');
    MasksTotal(n, n');
    if Grown(w, n) {
      GrownMasks(w, n);
    } else {
      GrownMasks(n, w);
    }
    if Masks(w) == Masks(n) {
      MasksTotal(w, n);
    }
  }

  /** Anchors that are only added, or only removed, between two rebuilds over the same rows
      are announced exactly when they change a mask, whatever the matches. */
  lemma AddedOrRemovedIsAnnounced(was: seq<ProxyRow>, now: seq<ProxyRow>, N: nat, rows: seq<int>, stored: seq<nat>,
                                  rows': seq<int>, stored': seq<nat>)
    requires N > 0 && (OnlyAdded(was, now) || OnlyAdded(now, was))
    ensures var w := Marked(FoldRows(was, |was|, N), |was|, rows, stored);
            var n := Marked(FoldRows(now, |now|, N), |now|, rows', stored');
            Total(w, SlotShare) != Total(n, SlotShare) <==> Masks(w) != Masks(n)
  {
    hide Marked, FoldRows, OnlyAdded, Total, Masks, Grown;
    var w, n := FoldRows(was, |was|, N), FoldRows(now, |now|, N);
    MarkedMasks(w, |was|, rows, stored);
    MarkedMasks(n, |now|, rows', stored');
    if OnlyAdded(was, now) {
      AddedMasks(was, now, N);
    } else {
      AddedMasks(now, was, N);
    }
    GrownIsAnnounced(w, n, Marked(w, |was|, rows, stored), Marked(n, |now|, rows', stored'));
  }

  // ----- The class -----

  class OverviewRailModel {
    var buckets: seq<Bucket>
    var matchRows: seq<int>
    /** `mMatchBucketCounts` and `mMatchBucketTotal`. */
    var stored: seq<nat>
    var storedTotal: nat
    var rowCount: nat
    /** The running totals. */
    var anchorBits: nat
    var bucketedMatches: nat

    /** The running totals equal the sums over the buckets, the match total unless stored
        counts came with a total of their own. */
    ghost predicate Valid()
      reads this
    {
      && Sources()
      && anchorBits == Total(buckets, SlotShare)
      && (bucketedMatches == Total(buckets, MatchShare) || ForeignTotal())
    }

    /** Matches come from a list of rows or from stored counts, never from both. */
    ghost predicate Sources()
      reads this
    {
      (matchRows != [] ==> stored == []) && Increasing(matchRows)
    }

    /** The stored counts are in the buckets, but the stored total is not their sum. */
    ghost predicate ForeignTotal()
      reads this
    {
      stored != [] && |stored| == |buckets| && bucketedMatches == storedTotal != SumCounts(stored)
    }

    constructor ()
      ensures Valid() && buckets == [] && matchRows == [] && stored == []
    {
      buckets, matchRows, stored, storedTotal, rowCount, anchorBits, bucketedMatches := [], [], [], 0, 0, 0, 0;
    }

    /** `RebuildInternal` over the rows of the live proxy; `none` when a model is gone.  The
        result says whether `anchorBucketsChanged` is emitted: it compares the number of set
        bits with the one kept from before. */
    method RebuildInternal(proxy: seq<ProxyRow>, none: bool) returns (emitted: bool)
      requires Sources()
      modifies this`buckets, this`rowCount, this`anchorBits, this`bucketedMatches
      ensures Valid() && rowCount == (if none then 0 else |proxy|)
      ensures buckets == if |old(buckets)| == 0 || rowCount == 0 then Blanks(|old(buckets)|)
                         else Marked(FoldRows(proxy, |proxy|, |old(buckets)|), |proxy|, matchRows, stored)
      ensures |buckets| == |old(buckets)| && ShowsRows(proxy)
      ensures buckets != [] && rowCount > 0 && matchRows == [] && |stored| == |buckets| ==>
                bucketedMatches == storedTotal
      ensures emitted <==> Total(buckets, SlotShare) != old(anchorBits)
    {
      var previousBitsSet := anchorBits;
      buckets := Blanks(|buckets|);
      BlankTotals(|buckets|, SlotShare);
      BlankTotals(|buckets|, MatchShare);
      anchorBits, bucketedMatches := 0, 0;
      rowCount := if none then 0 else |proxy|;
      if buckets == [] || rowCount == 0 {
        return previousBitsSet != anchorBits;
      }
      WalkRows(proxy);
      FoldMatchTicks();
      if matchRows == [] {
        ApplyStored();
      }
      forall b | 0 <= b < |buckets| ensures ShowsRun(buckets[b], b, proxy, |buckets|, matchRows, stored) {
        MarkedShows(proxy, |buckets|, matchRows, stored, b);
      }
      return previousBitsSet != anchorBits;
    }

    /** The walk over the proxy. */
    method WalkRows(proxy: seq<ProxyRow>)
      requires buckets != [] && rowCount == |proxy| && buckets == Blanks(|buckets|)
      requires anchorBits == 0 && bucketedMatches == 0
      modifies this`buckets, this`anchorBits
      ensures buckets == FoldRows(proxy, |proxy|, |old(buckets)|)
      ensures anchorBits == Total(buckets, SlotShare) && Total(buckets, MatchShare) == 0
    {
      var N := |buckets|;
      BlankTotals(N, SlotShare);
      BlankTotals(N, MatchShare);
      for i := 0 to |proxy|
        invariant buckets == FoldRows(proxy, i, N)
        invariant anchorBits == Total(buckets, SlotShare) && Total(buckets, MatchShare) == 0
      {
        BucketAtLeast(i, |proxy|, N, 0);
        var b := Min(i * N / rowCount, N - 1);
        ghost var before := buckets;
        if proxy[i].Reached? {
          var level := proxy[i].level;
          buckets := buckets[b := buckets[b].(levels := Counted(buckets[b].levels, level))];
          if proxy[i].anchored && proxy[i].slot !in buckets[b].slots {
            buckets := buckets[b := buckets[b].(slots := buckets[b].slots + {proxy[i].slot})];
            anchorBits := anchorBits + 1;
          }
          TotalUpdate(before, b, buckets[b], SlotShare);
          TotalUpdate(before, b, buckets[b], MatchShare);
          assert buckets == before[b := buckets[b]];
          assert proxy[i].anchored ==> buckets[b].slots == before[b].slots + {proxy[i].slot};
        }
      }
    }

    /** `FoldMatchTicksIntoBuckets`. */
    method FoldMatchTicks()
      requires bucketedMatches == Total(buckets, MatchShare)
      modifies this`buckets, this`bucketedMatches
      ensures buckets == if old(buckets) == [] then [] else FoldMatches(old(buckets), matchRows, rowCount)
      ensures bucketedMatches == Total(buckets, MatchShare)
      ensures Total(buckets, SlotShare) == Total(old(buckets), SlotShare)
    {
      if buckets == [] {
        return;
      }
      ghost var was := buckets;
      MatchTotal(was, matchRows, rowCount);
      for i := 0 to |matchRows|
        invariant buckets == FoldMatches(was, matchRows[..i], rowCount)
        invariant bucketedMatches == Total(was, MatchShare) + CountInRange(matchRows[..i], rowCount)
      {
        assert matchRows[..i + 1][..i] == matchRows[..i];
        var row := matchRows[i];
        if 0 <= row < rowCount {
          BucketAtLeast(row, rowCount, |buckets|, 0);
          var b := Min(row * |buckets| / rowCount, |buckets| - 1);
          buckets := buckets[b := buckets[b].(matchCount := buckets[b].matchCount + 1)];
          bucketedMatches := bucketedMatches + 1;
        }
      }
      assert matchRows[..|matchRows|] == matchRows;
    }

    /** `ApplyStoredMatchBucketCounts`: the caller's total is taken as it is. */
    method ApplyStored()
      modifies this`buckets, this`bucketedMatches
      ensures if |stored| != |old(buckets)| || |old(buckets)| == 0
              then buckets == old(buckets) && bucketedMatches == old(bucketedMatches)
              else buckets == WithMatches(old(buckets), stored) && bucketedMatches == storedTotal
                   && (bucketedMatches == Total(buckets, MatchShare) <==> storedTotal == SumCounts(stored))
      ensures |buckets| == |old(buckets)| && Total(buckets, SlotShare) == Total(old(buckets), SlotShare)
    {
      if |stored| != |buckets| || buckets == [] {
        return;
      }
      WithMatchesTotals(buckets, stored);
      bucketedMatches := storedTotal;
      ghost var was := buckets;
      for i := 0 to |buckets|
        invariant |buckets| == |was| && bucketedMatches == storedTotal
        invariant forall b :: 0 <= b < |was| ==>
                    buckets[b] == if b < i then was[b].(matchCount := stored[b]) else was[b]
      {
        buckets := buckets[i := buckets[i].(matchCount := stored[i])];
      }
      assert buckets == WithMatches(was, stored);
    }

    /** `Rebuild` on a rail with right totals: the signal goes out exactly when the number of
        set bits changed, so it announces a change of the masks exactly when there is none
        or the numbers differ. */
    method RebuildNow(proxy: seq<ProxyRow>, none: bool) returns (emitted: bool)
      requires Valid()
      modifies this`buckets, this`rowCount, this`anchorBits, this`bucketedMatches
      ensures Valid() && rowCount == (if none then 0 else |proxy|)
      ensures buckets == if |old(buckets)| == 0 || rowCount == 0 then Blanks(|old(buckets)|)
                         else Marked(FoldRows(proxy, |proxy|, |old(buckets)|), |proxy|, matchRows, stored)
      ensures |buckets| == |old(buckets)| && ShowsRows(proxy)
      ensures emitted <==> Total(buckets, SlotShare) != Total(old(buckets), SlotShare)
      ensures (emitted <==> Masks(buckets) != Masks(old(buckets))) <==>
              (Masks(buckets) == Masks(old(buckets)) || Total(buckets, SlotShare) != Total(old(buckets), SlotShare))
    {
      emitted := RebuildInternal(proxy, none);
      AnnouncedIff(old(buckets), buckets);
    }

    /** The resize leaves the running totals to the rebuild, which compares with the bits of
        the old buckets.  `repaint` says whether `bucketsChanged` is emitted. */
    method SetBucketCount(n: nat, proxy: seq<ProxyRow>, none: bool) returns (emitted: bool, repaint: bool)
      requires Valid()
      modifies this`buckets, this`rowCount, this`anchorBits, this`bucketedMatches
      ensures Valid() && |buckets| == n
      ensures n == |old(buckets)| ==> unchanged(this) && !repaint
      ensures n != |old(buckets)| ==>
                && rowCount == (if none then 0 else |proxy|)
                && ShowsRows(proxy)
                && buckets == if n == 0 || rowCount == 0 then Blanks(n)
                              else Marked(FoldRows(proxy, |proxy|, n), |proxy|, matchRows, stored)
      ensures emitted <==> Total(buckets, SlotShare) != Total(old(buckets), SlotShare)
      ensures (emitted <==> Masks(buckets) != Masks(old(buckets))) <==>
              (Masks(buckets) == Masks(old(buckets)) || Total(buckets, SlotShare) != Total(old(buckets), SlotShare))
      ensures repaint <==> if n == 0 then old(Painted()) else n != |old(buckets)|
    {
      AnnouncedIff(buckets, buckets);
      if |buckets| == n {
        return false, false;
      }
      var hadContent := buckets != [] && (rowCount > 0 || bucketedMatches > 0 || anchorBits > 0);
      buckets := Blanks(n);
      emitted := RebuildInternal(proxy, none);
      AnnouncedIff(old(buckets), buckets);
      return emitted, n != 0 || hadContent;
    }

    /** Every bucket shows its run of the proxy and its matches; without rows all are blank. */
    ghost predicate ShowsRows(proxy: seq<ProxyRow>)
      reads this
    {
      forall b :: 0 <= b < |buckets| ==>
        if rowCount == 0 then buckets[b] == BLANK
        else rowCount == |proxy| && ShowsRun(buckets[b], b, proxy, |buckets|, matchRows, stored)
    }

    /** The rail has buckets and something to show in them. */
    predicate Painted()
      reads this
    {
      buckets != [] && (rowCount > 0 || bucketedMatches > 0 || anchorBits > 0)
    }

    /** Each bucket counts the distinct given rows that it holds of the live proxy's rows,
        and the running total is their sum. */
    method SetMatchProxyRows(rows: seq<int>, liveRows: nat)
      requires Valid()
      modifies this`buckets, this`matchRows, this`stored, this`storedTotal, this`rowCount, this`bucketedMatches
      ensures Valid() && rowCount == liveRows && |buckets| == |old(buckets)| && stored == []
      ensures Increasing(matchRows) && forall r :: r in matchRows <==> r in rows
      ensures forall b :: 0 <= b < |buckets| ==>
                buckets[b] == old(buckets)[b].(matchCount := |Hits(matchRows, liveRows, |buckets|, b)|)
      ensures bucketedMatches == Total(buckets, MatchShare)
    {
      stored, storedTotal := [], 0;
      matchRows := SortUnique(rows);
      rowCount := liveRows;
      bucketedMatches := 0;
      ghost var was := buckets;
      ClearedTotals(buckets);
      buckets := Cleared(buckets);
      if buckets == [] || rowCount == 0 {
        forall b | 0 <= b < |buckets| ensures Hits(matchRows, liveRows, |buckets|, b) == {} {
        }
        return;
      }
      forall b | 0 <= b < |buckets| ensures FoldMatches(buckets, matchRows, liveRows)[b] ==
          was[b].(matchCount := |Hits(matchRows, liveRows, |buckets|, b)|) {
        MatchesCountHits(buckets, matchRows, liveRows, b);
      }
      FoldMatchTicks();
    }

    /** `std::sort` and `std::unique`. */
    static method SortUnique(rows: seq<int>) returns (r: seq<int>)
      ensures Increasing(r) && forall x :: x in r <==> x in rows
    {
      r := [];
      for i := 0 to |rows|
        invariant Increasing(r) && forall x :: x in r <==> x in rows[..i]
      {
        assert rows[..i + 1] == rows[..i] + [rows[i]];
        r := Insert(r, rows[i]);
      }
      assert rows[..|rows|] == rows;
    }

    static method Insert(r: seq<int>, x: int) returns (s: seq<int>)
      requires Increasing(r)
      ensures Increasing(s) && forall y :: y in s <==> y in r || y == x
    {
      var at := 0;
      while at < |r| && r[at] < x
        invariant 0 <= at <= |r| && forall i :: 0 <= i < at ==> r[i] < x
      {
        at := at + 1;
      }
      if at < |r| && r[at] == x {
        return r;
      }
      s := r[..at] + [x] + r[at..];
      assert forall y :: y in r <==> y in r[..at] || y in r[at..];
    }

    /** Counts for another number of buckets are dropped; others replace the match state.
        The running total is then the sum over the buckets exactly when the caller's total
        is the sum of the caller's counts. */
    method SetMatchBucketCounts(counts: seq<nat>, total: nat, liveRows: nat)
      requires Valid()
      modifies this`buckets, this`matchRows, this`stored, this`storedTotal, this`rowCount, this`bucketedMatches
      ensures Valid() && |buckets| == |old(buckets)|
      ensures |counts| != |buckets| ==> unchanged(this)
      ensures |counts| == |buckets| ==>
                matchRows == [] && stored == counts && storedTotal == total && rowCount == liveRows
      ensures |counts| == |buckets| > 0 ==>
                && buckets == WithMatches(old(buckets), counts) && bucketedMatches == total && rowCount == liveRows
                && (bucketedMatches == Total(buckets, MatchShare) <==> total == SumCounts(counts))
    {
      if |counts| != |buckets| {
        return;
      }
      rowCount := liveRows;
      matchRows := [];
      stored, storedTotal := counts, total;
      ApplyStored();
    }

    /** The level with the most rows; of several the most severe; `Unknown` without rows. */
    method DominantLevel(b: nat) returns (best: Level)
      ensures b >= |buckets| ==> best == 0
      ensures b < |buckets| ==>
                var c := buckets[b].levels;
                && (forall l :: 0 <= l < LEVELS ==> c[l] <= c[best])
                && (forall l :: best < l < LEVELS ==> c[l] < c[best] || c[best] == 0)
                && (c[best] == 0 ==> best == 0)
    {
      if b >= |buckets| {
        return 0;
      }
      var counts := buckets[b].levels;
      best := 0;
      var bestCount, bestSeverity := 0, -1;
      for i := 0 to LEVELS
        invariant 0 <= best < LEVELS && 0 <= bestCount <= counts[best]
        invariant bestCount == 0 ==> best == 0 && forall l :: 0 <= l < i ==> counts[l] == 0
        invariant bestCount > 0 ==> best < i && bestCount == counts[best] && bestSeverity == best
        invariant forall l :: 0 <= l < i ==> counts[l] <= bestCount
        invariant bestCount > 0 ==> forall l :: best < l < i ==> counts[l] < bestCount
      {
        var count := counts[i];
        // The severity rank of a level is its index.
        if count != 0 && (count > bestCount || (count == bestCount && i > bestSeverity)) {
          best, bestCount, bestSeverity := i, count, i;
        }
      }
    }
  }

  /** The emit rule looks at the number of set bits: when the only anchor changes its
      colour, a mask changes and `anchorBucketsChanged` is not emitted. */
  lemma RecolourIsNotAnnounced(level: Level, a: Slot, b: Slot)
    requires a != b
    ensures var was, now := FoldRows([Reached(level, true, a)], 1, 1), FoldRows([Reached(level, true, b)], 1, 1);
            was[0].slots != now[0].slots && Total(was, SlotShare) == Total(now, SlotShare)
  {
    RebuiltShowsRuns([Reached(level, true, a)], 1, 0, level);
    RebuiltShowsRuns([Reached(level, true, b)], 1, 0, level);
    var was, now := FoldRows([Reached(level, true, a)], 1, 1), FoldRows([Reached(level, true, b)], 1, 1);
    assert was == AddRow(Blanks(1), 0, Reached(level, true, a));
    assert now == AddRow(Blanks(1), 0, Reached(level, true, b));
    assert was[0].slots == {a} && now[0].slots == {b};
    assert was[1..] == [] && now[1..] == [];
  }
}
