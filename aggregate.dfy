/** The consumer loop of `process_log`: every completed result is folded into
    the `grouped_data` counter and the `count_processed` total. */
module Aggregation {
  import opened Text
  import opened Classifier
  import opened Ordering

  /** `f` applied to every element, in order. */
  function MapSeq<A, B>(f: A -> B, xs: seq<A>): (ys: seq<B>)
    ensures |ys| == |xs|
    ensures forall i :: 0 <= i < |xs| ==> ys[i] == f(xs[i])
  {
    seq(|xs|, i requires 0 <= i < |xs| => f(xs[i]))
  }

  /** `process_single_file` with the file system and the conversions fixed. */
  function Worker(disk: string -> FileRead, nums: Numerics): string -> Option<FrameKey> {
    p => Classify(p, disk(p), nums)
  }

  /** The counter after a list of results: one more for the key of every
      result that is a frame. */
  function Tally(rs: seq<Option<FrameKey>>): multiset<FrameKey> {
    if rs == [] then multiset{}
    else
      var last := rs[|rs| - 1];
      Tally(rs[..|rs| - 1]) + if last.Some? then multiset{last.value} else multiset{}
  }

  /** `count_processed` after a list of results. */
  function Processed(rs: seq<Option<FrameKey>>): nat {
    if rs == [] then 0
    else Processed(rs[..|rs| - 1]) + if rs[|rs| - 1].Some? then 1 else 0
  }

  /** The counter's keys in the order a dictionary keeps them: the order in
      which each key was first counted. */
  function FirstSeen(rs: seq<Option<FrameKey>>): seq<FrameKey> {
    if rs == [] then []
    else
      var ks := FirstSeen(rs[..|rs| - 1]);
      var last := rs[|rs| - 1];
      if last.Some? && last.value !in ks then ks + [last.value] else ks
  }

  /** Each counted key appears once, in the order of first counting. */
  lemma {:induction false} FirstSeenKeys(rs: seq<Option<FrameKey>>)
    ensures Distinct(FirstSeen(rs))
    ensures forall k :: k in FirstSeen(rs) <==> Some(k) in rs
  {
    if rs != [] {
      var n := |rs| - 1;
      FirstSeenKeys(rs[..n]);
      assert rs == rs[..n] + [rs[n]];
    }
  }

  // ---------------------------------------------------------------------------
  // What the counter holds.
  // ---------------------------------------------------------------------------

  /** The count of a key is the number of results that are that key. */
  lemma {:induction false} TallyCount(rs: seq<Option<FrameKey>>, k: FrameKey)
    ensures Tally(rs)[k] == multiset(rs)[Some(k)]
  {
    if rs != [] {
      TallyCount(rs[..|rs| - 1], k);
      assert rs == rs[..|rs| - 1] + [rs[|rs| - 1]];
    }
  }

  /** Every result that is a frame adds exactly one to the total. */
  lemma {:induction false} ProcessedIsSize(rs: seq<Option<FrameKey>>)
    ensures Processed(rs) == |Tally(rs)|
  {
    if rs != [] {
      ProcessedIsSize(rs[..|rs| - 1]);
    }
  }

  /** Exactly the keys that were counted have a count. */
  lemma CountedKeys(rs: seq<Option<FrameKey>>, k: FrameKey)
    ensures k in FirstSeen(rs) <==> Tally(rs)[k] > 0
  {
    FirstSeenKeys(rs);
    TallyCount(rs, k);
  }

  /** The counter does not depend on the order the results arrive in. */
  lemma TallyOrderFree(rs: seq<Option<FrameKey>>, qs: seq<Option<FrameKey>>)
    requires multiset(rs) == multiset(qs)
    ensures Tally(rs) == Tally(qs)
    ensures Processed(rs) == Processed(qs)
  {
    forall k ensures Tally(rs)[k] == Tally(qs)[k] {
      TallyCount(rs, k);
      TallyCount(qs, k);
    }
    ProcessedIsSize(rs);
    ProcessedIsSize(qs);
  }

  /** Reordering the files reorders their results. */
  lemma {:induction false} MapPerm<A, B>(f: A -> B, xs: seq<A>, ys: seq<A>)
    requires multiset(xs) == multiset(ys)
    ensures multiset(MapSeq(f, xs)) == multiset(MapSeq(f, ys))
    decreases |xs|
  {
    if xs != [] {
      var n := |xs| - 1;
      var x := xs[n];
      assert x in multiset(ys);
      var j :| 0 <= j < |ys| && ys[j] == x;
      var zs := ys[..j] + ys[j + 1..];
      Remove(xs, n);
      Remove(ys, j);
      assert xs[..n] + xs[n + 1..] == xs[..n];
      Cancel(multiset(xs[..n]), multiset(zs), x);
      MapPerm(f, xs[..n], zs);
      MapRemove(f, xs, n);
      MapRemove(f, ys, j);
    }
  }

  lemma Cancel<A>(m: multiset<A>, p: multiset<A>, x: A)
    requires m + multiset{x} == p + multiset{x}
    ensures m == p
  {
    assert m == m + multiset{x} - multiset{x};
  }

  /** A list's multiset is that of the list with one element taken out, plus
      that element. */
  lemma Remove<A>(xs: seq<A>, j: nat)
    requires j < |xs|
    ensures multiset(xs) == multiset(xs[..j] + xs[j + 1..]) + multiset{xs[j]}
  {
    assert xs == xs[..j] + [xs[j]] + xs[j + 1..];
  }

  /** Mapping a list with one element taken out. */
  lemma MapRemove<A, B>(f: A -> B, xs: seq<A>, j: nat)
    requires j < |xs|
    ensures multiset(MapSeq(f, xs)) == multiset(MapSeq(f, xs[..j] + xs[j + 1..])) + multiset{f(xs[j])}
  {
    var ys := MapSeq(f, xs);
    assert MapSeq(f, xs[..j] + xs[j + 1..]) == ys[..j] + ys[j + 1..];
    Remove(ys, j);
  }

  /** Any two completion orders of the same files give the same counter and
      the same total. */
  lemma OrderFree(o1: seq<string>, o2: seq<string>, work: string -> Option<FrameKey>)
    requires multiset(o1) == multiset(o2)
    ensures Tally(MapSeq(work, o1)) == Tally(MapSeq(work, o2))
    ensures Processed(MapSeq(work, o1)) == Processed(MapSeq(work, o2))
  {
    MapPerm(work, o1, o2);
    TallyOrderFree(MapSeq(work, o1), MapSeq(work, o2));
  }

  // ---------------------------------------------------------------------------
  // Sums of counts.
  // ---------------------------------------------------------------------------

  /** The counts of the listed keys, added up. */
  function Sum(m: multiset<FrameKey>, ks: seq<FrameKey>): nat {
    if ks == [] then 0 else m[ks[0]] + Sum(m, ks[1..])
  }

  lemma {:induction false} SumAddOne(m: multiset<FrameKey>, k: FrameKey, ks: seq<FrameKey>)
    requires Distinct(ks)
    ensures Sum(m + multiset{k}, ks) == Sum(m, ks) + if k in ks then 1 else 0
  {
    if ks != [] {
      SumAddOne(m, k, ks[1..]);
      assert k in ks <==> k == ks[0] || k in ks[1..];
    }
  }

  /** Summed over a list that holds every counted key once, the counts add up
      to the total. */
  lemma {:induction false} SumIsProcessed(rs: seq<Option<FrameKey>>, ks: seq<FrameKey>)
    requires Distinct(ks)
    requires forall k :: Some(k) in rs ==> k in ks
    ensures Sum(Tally(rs), ks) == Processed(rs)
  {
    if rs == [] {
      SumEmpty(ks);
    } else {
      var n := |rs| - 1;
      assert rs == rs[..n] + [rs[n]];
      assert forall k :: Some(k) in rs[..n] ==> Some(k) in rs;
      SumIsProcessed(rs[..n], ks);
      if rs[n].Some? {
        SumAddOne(Tally(rs[..n]), rs[n].value, ks);
        assert Tally(rs) == Tally(rs[..n]) + multiset{rs[n].value};
      } else {
        assert Tally(rs) == Tally(rs[..n]);
      }
    }
  }

  lemma {:induction false} SumEmpty(ks: seq<FrameKey>)
    ensures Sum(multiset{}, ks) == 0
  {
    if ks != [] {
      SumEmpty(ks[1..]);
    }
  }

  // ---------------------------------------------------------------------------
  // The loop.
  // ---------------------------------------------------------------------------

  /** A `defaultdict(int)` read: a missing key counts 0. */
  function Get(grouped: map<FrameKey, nat>, key: FrameKey): nat {
    if key in grouped then grouped[key] else 0
  }

  /** The counter as a dictionary holds the multiset `m`: every key reads its
      count, and only keys that were counted are present. */
  ghost predicate Holds(grouped: map<FrameKey, nat>, m: multiset<FrameKey>) {
    && (forall k :: Get(grouped, k) == m[k])
    && (forall k :: k in grouped ==> grouped[k] > 0)
  }

  /** One more result: the three folds each take one step. */
  lemma Step(rs: seq<Option<FrameKey>>, i: nat)
    requires i < |rs|
    ensures Tally(rs[..i + 1]) == Tally(rs[..i]) + if rs[i].Some? then multiset{rs[i].value} else multiset{}
    ensures Processed(rs[..i + 1]) == Processed(rs[..i]) + if rs[i].Some? then 1 else 0
    ensures FirstSeen(rs[..i + 1]) ==
              if rs[i].Some? && rs[i].value !in FirstSeen(rs[..i]) then FirstSeen(rs[..i]) + [rs[i].value]
              else FirstSeen(rs[..i])
  {
    assert rs[..i + 1][..i] == rs[..i];
  }

  /** `grouped_data[key] += 1` keeps the dictionary in step with the multiset
      it counts. */
  lemma HoldsAdd(grouped: map<FrameKey, nat>, m: multiset<FrameKey>, key: FrameKey)
    requires Holds(grouped, m)
    ensures Holds(grouped[key := Get(grouped, key) + 1], m + multiset{key})
  {
    var g := grouped[key := Get(grouped, key) + 1];
    forall k ensures Get(g, k) == (m + multiset{key})[k] {
      if k != key {
        assert Get(g, k) == Get(grouped, k);
      }
    }
  }

  /** A key is new to the dictionary exactly when it was not seen before. */
  lemma SeenStep(grouped: map<FrameKey, nat>, rs: seq<Option<FrameKey>>, i: nat)
    requires i < |rs| && rs[i].Some? && Holds(grouped, Tally(rs[..i]))
    ensures rs[i].value in grouped <==> rs[i].value in FirstSeen(rs[..i])
  {
    CountedKeys(rs[..i], rs[i].value);
    assert Get(grouped, rs[i].value) == Tally(rs[..i])[rs[i].value];
  }

  /** `for future in as_completed(...)`: classify each file as it finishes,
      and count it when it is a light frame. Returns the counter, its keys in
      insertion order and `count_processed`. */
  method Consume(order: seq<string>, work: string -> Option<FrameKey>)
    returns (grouped: map<FrameKey, nat>, keys: seq<FrameKey>, processed: nat)
    ensures Holds(grouped, Tally(MapSeq(work, order)))
    ensures keys == FirstSeen(MapSeq(work, order))
    ensures processed == Processed(MapSeq(work, order))
  {
    ghost var rs := MapSeq(work, order);
    grouped, keys, processed := map[], [], 0;
    var i := 0;
    while i < |order|
      invariant 0 <= i <= |order|
      invariant Holds(grouped, Tally(rs[..i]))
      invariant keys == FirstSeen(rs[..i])
      invariant processed == Processed(rs[..i])
    {
      var result := work(order[i]);
      assert rs[i] == result;
      Step(rs, i);
      if result.Some? {
        var key := result.value;
        SeenStep(grouped, rs, i);
        HoldsAdd(grouped, Tally(rs[..i]), key);
        if key !in grouped {
          keys := keys + [key];
        }
        grouped := grouped[key := Get(grouped, key) + 1];
        processed := processed + 1;
      }
      i := i + 1;
    }
    assert rs[..|order|] == rs;
  }
}
