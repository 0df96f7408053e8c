/** `process_log`: read the log, find the candidate frames, classify them as
    the workers finish, count them and write one CSV row per key. */
module Run {
  import opened Text
  import opened Filters
  import opened Classifier
  import opened Discovery
  import opened Ordering
  import opened Aggregation

  /** What opening and reading the log gives: no such file, a read that
      raises, or its text. */
  datatype LogRead = LogMissing | LogUnreadable | LogText(content: string)

  /** One CSV row. */
  datatype Row = Row(date: string, filter: FilterId, number: nat, duration: string,
                     binning: string, gain: string, bortle: string)

  /** How a run ends: the four messages `process_log` can show, with the rows
      and `count_processed` of a saved CSV. */
  datatype Outcome = FileNotFound | LogReadFailed | NoCandidates | WriteFailed
                   | Saved(rows: seq<Row>, processed: nat)

  function RowOf(k: FrameKey, number: nat, bortle: string): Row {
    Row(k.date, k.filter, number, k.exposure, k.binning, k.gain, bortle)
  }

  /** The key a row was written for. */
  function KeyOf(r: Row): FrameKey {
    FrameKey(r.date, r.filter, r.duration, r.binning, r.gain)
  }

  /** The row of every key in `ks`, numbered by its count in `m`. */
  function Rows(ks: seq<FrameKey>, m: multiset<FrameKey>, bortle: string): (rows: seq<Row>)
    ensures |rows| == |ks|
    ensures forall i :: 0 <= i < |ks| ==> rows[i] == RowOf(ks[i], m[ks[i]], bortle)
  {
    seq(|ks|, i requires 0 <= i < |ks| => RowOf(ks[i], m[ks[i]], bortle))
  }

  /** No two keys that `sorted` would fail to compare. */
  predicate AllComparable(ks: seq<FrameKey>) {
    forall a, b :: a in ks && b in ks ==> Comparable(a, b)
  }

  /** The order the workers finish in: every candidate exactly once. */
  ghost predicate Listing(order: seq<string>, paths: set<string>) {
    Distinct(order) && forall p :: p in order <==> p in paths
  }

  /** What a run gives, written as one expression. */
  function Summary(logPath: string, log: LogRead, order: seq<string>, work: string -> Option<FrameKey>,
                   canWrite: bool, bortle: string): Outcome
  {
    if logPath == [] || log.LogMissing? then FileNotFound
    else if log.LogUnreadable? then LogReadFailed
    else if Discover(log.content) == {} then NoCandidates
    else
      var rs := MapSeq(work, order);
      var keys := FirstSeen(rs);
      if !canWrite || !AllComparable(keys) then WriteFailed
      else
        FirstSeenKeys(rs);
        KeyOrder();
        Saved(Rows(Sort(KeyLess, keys), Tally(rs), bortle), Processed(rs))
  }

  // ---------------------------------------------------------------------------
  // The method.
  // ---------------------------------------------------------------------------

  /** `for key in sorted(grouped_data.keys())`: one row per key, numbered by
      its count. */
  method Emit(grouped: map<FrameKey, nat>, sorted: seq<FrameKey>, bortle: string, ghost m: multiset<FrameKey>)
    returns (rows: seq<Row>)
    requires Holds(grouped, m)
    ensures rows == Rows(sorted, m, bortle)
  {
    rows := [];
    var i := 0;
    while i < |sorted|
      invariant 0 <= i <= |sorted|
      invariant rows == Rows(sorted[..i], m, bortle)
    {
      var key := sorted[i];
      rows := rows + [RowOf(key, Get(grouped, key), bortle)];
      i := i + 1;
    }
    assert sorted[..i] == sorted;
  }

  /** `process_log(log_path, bortle_val)`. The log is given as what reading it
      gives, each image file as what reading it gives, the two numeric
      conversions as functions, the order the workers finish in as `order`,
      and whether opening the CSV and writing its header and rows all
      succeed as `canWrite`. */
  method ProcessLog(logPath: string, log: LogRead, order: seq<string>, disk: string -> FileRead,
                    nums: Numerics, canWrite: bool, bortle: string)
    returns (out: Outcome)
    requires log.LogText? ==> Listing(order, Discover(log.content))
    ensures out == Summary(logPath, log, order, Worker(disk, nums), canWrite, bortle)
  {
    if logPath == [] || log.LogMissing? {
      return FileNotFound;
    }
    if log.LogUnreadable? {
      return LogReadFailed;
    }
    var validPaths := Discover(log.content);
    if validPaths == {} {
      return NoCandidates;
    }
    var grouped, keys, processed := Consume(order, Worker(disk, nums));
    if !canWrite || !AllComparable(keys) {
      return WriteFailed;
    }
    FirstSeenKeys(MapSeq(Worker(disk, nums), order));
    KeyOrder();
    var sorted := Sort(KeyLess, keys);
    var rows := Emit(grouped, sorted, bortle, Tally(MapSeq(Worker(disk, nums), order)));
    return Saved(rows, processed);
  }

  // ---------------------------------------------------------------------------
  // What a run promises.
  // ---------------------------------------------------------------------------

  /** A saved run: the rows are those of the sorted keys, which are the keys
      some file was classified as, each once and each comparable with every
      other, and the total is the number of light frames. */
  lemma SavedShape(logPath: string, log: LogRead, order: seq<string>, work: string -> Option<FrameKey>,
                   canWrite: bool, bortle: string, rows: seq<Row>, n: nat)
    requires Summary(logPath, log, order, work, canWrite, bortle) == Saved(rows, n)
    ensures log.LogText? && canWrite
    ensures StrictTotal(KeyLess) && Distinct(FirstSeen(MapSeq(work, order)))
    ensures var rs := MapSeq(work, order);
            var sorted := Sort(KeyLess, FirstSeen(rs));
            && rows == Rows(sorted, Tally(rs), bortle)
            && n == Processed(rs)
            && Ascending(KeyLess, sorted) && Distinct(sorted)
            && (forall k :: k in sorted <==> Some(k) in rs)
            && AllComparable(sorted)
  {
    var rs := MapSeq(work, order);
    FirstSeenKeys(rs);
    KeyOrder();
    SortMembers(KeyLess, FirstSeen(rs));
  }

  /** Every row carries the Bortle value the run was given. */
  lemma SavedBortle(logPath: string, log: LogRead, order: seq<string>, work: string -> Option<FrameKey>,
                    canWrite: bool, bortle: string, rows: seq<Row>, n: nat)
    requires Summary(logPath, log, order, work, canWrite, bortle) == Saved(rows, n)
    ensures forall i :: 0 <= i < |rows| ==> rows[i].bortle == bortle
  {
    SavedShape(logPath, log, order, work, canWrite, bortle, rows, n);
  }

  /** The rows come in the order Python's `sorted` gives, each key strictly
      before the next, and no comparison along the way raises. */
  lemma SavedSorted(logPath: string, log: LogRead, order: seq<string>, work: string -> Option<FrameKey>,
                    canWrite: bool, bortle: string, rows: seq<Row>, n: nat)
    requires Summary(logPath, log, order, work, canWrite, bortle) == Saved(rows, n)
    ensures forall i, j :: 0 <= i < j < |rows| ==> KeyCompare(KeyOf(rows[i]), KeyOf(rows[j])) == Some(true)
  {
    SavedShape(logPath, log, order, work, canWrite, bortle, rows, n);
    var rs := MapSeq(work, order);
    RowsSorted(Sort(KeyLess, FirstSeen(rs)), Tally(rs), bortle);
  }

  lemma RowsSorted(sorted: seq<FrameKey>, m: multiset<FrameKey>, bortle: string)
    requires Ascending(KeyLess, sorted) && AllComparable(sorted)
    ensures var rows := Rows(sorted, m, bortle);
            forall i, j :: 0 <= i < j < |rows| ==> KeyCompare(KeyOf(rows[i]), KeyOf(rows[j])) == Some(true)
  {
    var rows := Rows(sorted, m, bortle);
    forall i, j | 0 <= i < j < |rows| ensures KeyCompare(KeyOf(rows[i]), KeyOf(rows[j])) == Some(true) {
      assert KeyOf(rows[i]) == sorted[i] && KeyOf(rows[j]) == sorted[j];
      CompareAgrees(sorted[i], sorted[j]);
    }
  }

  /** There is a row for a key exactly when some file was classified as that
      key, and its number is how many files were. */
  lemma SavedCounts(logPath: string, log: LogRead, order: seq<string>, work: string -> Option<FrameKey>,
                    canWrite: bool, bortle: string, rows: seq<Row>, n: nat)
    requires Summary(logPath, log, order, work, canWrite, bortle) == Saved(rows, n)
    ensures forall i :: 0 <= i < |rows| ==>
              1 <= rows[i].number == multiset(MapSeq(work, order))[Some(KeyOf(rows[i]))]
    ensures forall k :: (exists i :: 0 <= i < |rows| && KeyOf(rows[i]) == k) <==> Some(k) in MapSeq(work, order)
  {
    SavedShape(logPath, log, order, work, canWrite, bortle, rows, n);
    var rs := MapSeq(work, order);
    RowsCount(rs, Sort(KeyLess, FirstSeen(rs)), bortle);
  }

  lemma RowsCount(rs: seq<Option<FrameKey>>, sorted: seq<FrameKey>, bortle: string)
    requires forall k :: k in sorted <==> Some(k) in rs
    ensures var rows := Rows(sorted, Tally(rs), bortle);
            && (forall i :: 0 <= i < |rows| ==> 1 <= rows[i].number == multiset(rs)[Some(KeyOf(rows[i]))])
            && (forall k :: (exists i :: 0 <= i < |rows| && KeyOf(rows[i]) == k) <==> Some(k) in rs)
  {
    var rows := Rows(sorted, Tally(rs), bortle);
    forall i | 0 <= i < |rows| ensures 1 <= rows[i].number == multiset(rs)[Some(KeyOf(rows[i]))] {
      assert KeyOf(rows[i]) == sorted[i];
      TallyCount(rs, sorted[i]);
    }
    forall k ensures (exists i :: 0 <= i < |rows| && KeyOf(rows[i]) == k) <==> Some(k) in rs {
      if Some(k) in rs {
        var i :| 0 <= i < |sorted| && sorted[i] == k;
        assert KeyOf(rows[i]) == k;
      }
    }
  }

  /** The numbers of the rows add up to `count_processed`, which counts the
      files that were light frames. */
  lemma SavedTotal(logPath: string, log: LogRead, order: seq<string>, work: string -> Option<FrameKey>,
                   canWrite: bool, bortle: string, rows: seq<Row>, n: nat)
    requires Summary(logPath, log, order, work, canWrite, bortle) == Saved(rows, n)
    ensures SumRows(rows) == n
    ensures n == |multiset(MapSeq(work, order))| - multiset(MapSeq(work, order))[None]
  {
    SavedShape(logPath, log, order, work, canWrite, bortle, rows, n);
    var rs := MapSeq(work, order);
    RowsTotal(rs, Sort(KeyLess, FirstSeen(rs)), bortle);
  }

  lemma RowsTotal(rs: seq<Option<FrameKey>>, sorted: seq<FrameKey>, bortle: string)
    requires Distinct(sorted) && forall k :: k in sorted <==> Some(k) in rs
    ensures SumRows(Rows(sorted, Tally(rs), bortle)) == Processed(rs)
    ensures Processed(rs) == |multiset(rs)| - multiset(rs)[None]
  {
    SumOfRows(sorted, Tally(rs), bortle);
    SumIsProcessed(rs, sorted);
    ProcessedCountsFrames(rs);
  }

  function SumRows(rows: seq<Row>): nat {
    if rows == [] then 0 else rows[0].number + SumRows(rows[1..])
  }

  lemma {:induction false} SumOfRows(ks: seq<FrameKey>, m: multiset<FrameKey>, bortle: string)
    ensures SumRows(Rows(ks, m, bortle)) == Sum(m, ks)
  {
    if ks != [] {
      assert Rows(ks, m, bortle)[1..] == Rows(ks[1..], m, bortle);
      SumOfRows(ks[1..], m, bortle);
    }
  }

  /** `count_processed` is the number of results that are not `None`. */
  lemma {:induction false} ProcessedCountsFrames(rs: seq<Option<FrameKey>>)
    ensures Processed(rs) == |multiset(rs)| - multiset(rs)[None]
  {
    if rs != [] {
      var n := |rs| - 1;
      ProcessedCountsFrames(rs[..n]);
      assert rs == rs[..n] + [rs[n]];
      assert multiset(rs) == multiset(rs[..n]) + multiset{rs[n]};
    }
  }

  // ---------------------------------------------------------------------------
  // The completion order does not matter.
  // ---------------------------------------------------------------------------

  lemma {:induction false} DistinctCount<T>(xs: seq<T>, x: T)
    requires Distinct(xs)
    ensures multiset(xs)[x] == if x in xs then 1 else 0
  {
    if xs != [] {
      assert xs == [xs[0]] + xs[1..];
      DistinctCount(xs[1..], x);
    }
  }

  /** Two listings of the same candidates are permutations of each other. */
  lemma ListingsPermute(o1: seq<string>, o2: seq<string>, paths: set<string>)
    requires Listing(o1, paths) && Listing(o2, paths)
    ensures multiset(o1) == multiset(o2)
  {
    forall x ensures multiset(o1)[x] == multiset(o2)[x] {
      DistinctCount(o1, x);
      DistinctCount(o2, x);
    }
  }

  /** Whatever order the workers finish in, the run ends the same way and
      writes the same rows. */
  lemma OrderIndependent(logPath: string, log: LogRead, o1: seq<string>, o2: seq<string>,
                         work: string -> Option<FrameKey>, canWrite: bool, bortle: string)
    requires log.LogText? ==> Listing(o1, Discover(log.content)) && Listing(o2, Discover(log.content))
    ensures Summary(logPath, log, o1, work, canWrite, bortle) == Summary(logPath, log, o2, work, canWrite, bortle)
  {
    if log.LogText? {
      ListingsPermute(o1, o2, Discover(log.content));
      OrderFree(o1, o2, work);
      var r1, r2 := MapSeq(work, o1), MapSeq(work, o2);
      var k1, k2 := FirstSeen(r1), FirstSeen(r2);
      forall k ensures k in k1 <==> k in k2 {
        CountedKeys(r1, k);
        CountedKeys(r2, k);
      }
      assert AllComparable(k1) <==> AllComparable(k2);
      FirstSeenKeys(r1);
      FirstSeenKeys(r2);
      KeyOrder();
      SortSameElements(KeyLess, k1, k2);
    }
  }

  // ---------------------------------------------------------------------------
  // The ways a run can fail.
  // ---------------------------------------------------------------------------

  /** Two files classified as light frames of the same date, one filter mapped
      to an AstroBin id and the other kept as a name: Python's `sorted` cannot
      order their keys. */
  ghost predicate MixedFilters(order: seq<string>, work: string -> Option<FrameKey>) {
    exists p, q :: p in order && q in order && work(p).Some? && work(q).Some?
      && !Comparable(work(p).value, work(q).value)
  }

  /** A readable log with candidates, and a CSV that can be opened and written:
      the write fails exactly when the frames mix numeric and named filters on
      one date. */
  lemma WriteFailsOnMixedFilters(logPath: string, log: LogRead, order: seq<string>,
                                 work: string -> Option<FrameKey>, bortle: string)
    requires logPath != [] && log.LogText? && Discover(log.content) != {}
    ensures Summary(logPath, log, order, work, true, bortle) == WriteFailed <==> MixedFilters(order, work)
  {
    MixedIff(order, work);
  }

  /** The counter's keys hold an incomparable pair exactly when two files do. */
  lemma MixedIff(order: seq<string>, work: string -> Option<FrameKey>)
    ensures !AllComparable(FirstSeen(MapSeq(work, order))) <==> MixedFilters(order, work)
  {
    var rs := MapSeq(work, order);
    FirstSeenKeys(rs);
    var keys := FirstSeen(rs);
    if MixedFilters(order, work) {
      var p, q :| p in order && q in order && work(p).Some? && work(q).Some?
        && !Comparable(work(p).value, work(q).value);
      ResultOf(order, work, p);
      ResultOf(order, work, q);
      assert work(p).value in keys && work(q).value in keys;
    }
    if !AllComparable(keys) {
      var a, b :| a in keys && b in keys && !Comparable(a, b);
      var p := FileOf(order, work, a);
      var q := FileOf(order, work, b);
      assert p in order && q in order && work(p).Some? && work(q).Some?;
    }
  }

  lemma ResultOf(order: seq<string>, work: string -> Option<FrameKey>, p: string)
    requires p in order
    ensures work(p) in MapSeq(work, order)
  {
    var i :| 0 <= i < |order| && order[i] == p;
    assert MapSeq(work, order)[i] == work(p);
  }

  lemma FileOf(order: seq<string>, work: string -> Option<FrameKey>, k: FrameKey) returns (p: string)
    requires Some(k) in MapSeq(work, order)
    ensures p in order && work(p) == Some(k)
  {
    var rs := MapSeq(work, order);
    var i :| 0 <= i < |rs| && rs[i] == Some(k);
    p := order[i];
  }

  /** The run stops before any file is read when the log is missing or
      unreadable, or lists no accepted frame. */
  lemma EarlyStops(logPath: string, log: LogRead, order: seq<string>,
                   work: string -> Option<FrameKey>, canWrite: bool, bortle: string)
    ensures var out := Summary(logPath, log, order, work, canWrite, bortle);
            && (out == FileNotFound <==> logPath == [] || log.LogMissing?)
            && (out == LogReadFailed <==> logPath != [] && log.LogUnreadable?)
            && (out == NoCandidates <==> logPath != [] && log.LogText? && Discover(log.content) == {})
            && (!canWrite && logPath != [] && log.LogText? && Discover(log.content) != {} ==> out == WriteFailed)
  {
  }

  /** A log that accepts no frame ends the run with no CSV. */
  lemma NoAcceptedEntry(logPath: string, content: string, order: seq<string>,
                        work: string -> Option<FrameKey>, canWrite: bool, bortle: string)
    requires logPath != [] && !Contains(content, Marker)
    ensures Summary(logPath, LogText(content), order, work, canWrite, bortle) == NoCandidates
  {
    NoEntries(content);
  }
}
