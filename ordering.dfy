/** The order `sorted` puts frame keys in: Python's tuple comparison over
    (date, filter, exposure, binning, gain). */
module Ordering {
  import opened Text
  import opened Filters
  import opened Classifier

  /** Python's `a < b` on strings: code point by code point, a proper prefix first. */
  predicate StrLess(a: string, b: string)
    decreases |a|
  {
    b != [] && (a == [] || a[0] < b[0] || (a[0] == b[0] && StrLess(a[1..], b[1..])))
  }

  lemma {:induction false} StrLessIrreflexive(a: string)
    ensures !StrLess(a, a)
    decreases |a|
  {
    if a != [] {
      StrLessIrreflexive(a[1..]);
    }
  }

  lemma {:induction false} StrLessTransitive(a: string, b: string, c: string)
    requires StrLess(a, b) && StrLess(b, c)
    ensures StrLess(a, c)
    decreases |a|
  {
    if a != [] && a[0] == b[0] && b[0] == c[0] {
      StrLessTransitive(a[1..], b[1..], c[1..]);
    }
  }

  lemma {:induction false} StrLessTotal(a: string, b: string)
    requires a != b
    ensures StrLess(a, b) || StrLess(b, a)
    decreases |a|
  {
    if a != [] && b != [] && a[0] == b[0] {
      assert a == [a[0]] + a[1..] && b == [b[0]] + b[1..];
      StrLessTotal(a[1..], b[1..]);
    }
  }

  /** Python's `x < y` on filter ids: `None` where it raises `TypeError`
      (an `int` against a `str`). */
  function FilterCompare(x: FilterId, y: FilterId): Option<bool> {
    match (x, y)
    case (Id(m), Id(n)) => Some(m < n)
    case (Raw(a), Raw(b)) => Some(StrLess(a, b))
    case _ => None
  }

  /** Python's `a < b` on two key tuples: the first differing component
      decides; `None` where that comparison raises. */
  function KeyCompare(a: FrameKey, b: FrameKey): Option<bool> {
    if a.date != b.date then Some(StrLess(a.date, b.date))
    else if a.filter != b.filter then FilterCompare(a.filter, b.filter)
    else if a.exposure != b.exposure then Some(StrLess(a.exposure, b.exposure))
    else if a.binning != b.binning then Some(StrLess(a.binning, b.binning))
    else Some(StrLess(a.gain, b.gain))
  }

  /** Two keys `sorted` can compare without raising. */
  predicate Comparable(a: FrameKey, b: FrameKey) {
    a.date == b.date ==> a.filter.Id? == b.filter.Id?
  }

  /** A total order on filter ids that agrees with Python's wherever Python's
      is defined (numeric ids before raw names only to make it total). */
  predicate FilterLess(x: FilterId, y: FilterId) {
    match (x, y)
    case (Id(m), Id(n)) => m < n
    case (Raw(a), Raw(b)) => StrLess(a, b)
    case (Id(_), Raw(_)) => true
    case _ => false
  }

  /** The lexicographic order on keys built from `StrLess` and `FilterLess`. */
  predicate KeyLess(a: FrameKey, b: FrameKey) {
    if a.date != b.date then StrLess(a.date, b.date)
    else if a.filter != b.filter then FilterLess(a.filter, b.filter)
    else if a.exposure != b.exposure then StrLess(a.exposure, b.exposure)
    else if a.binning != b.binning then StrLess(a.binning, b.binning)
    else StrLess(a.gain, b.gain)
  }

  /** Python raises exactly on keys that are not comparable, and elsewhere
      answers as `KeyLess`. */
  lemma CompareAgrees(a: FrameKey, b: FrameKey)
    ensures KeyCompare(a, b).None? <==> !Comparable(a, b)
    ensures Comparable(a, b) ==> KeyCompare(a, b) == Some(KeyLess(a, b))
  {
  }

  lemma KeyLessIrreflexive(a: FrameKey)
    ensures !KeyLess(a, a)
  {
    StrLessIrreflexive(a.gain);
  }

  lemma KeyLessTransitive(a: FrameKey, b: FrameKey, c: FrameKey)
    requires KeyLess(a, b) && KeyLess(b, c)
    ensures KeyLess(a, c)
  {
    if a.date != b.date && b.date != c.date {
      StrLessTransitive(a.date, b.date, c.date);
      if a.date == c.date {
        StrLessIrreflexive(a.date);
      }
    } else if a.date != b.date || b.date != c.date {
    } else if a.filter != b.filter && b.filter != c.filter {
      if a.filter.Raw? && b.filter.Raw? && c.filter.Raw? {
        StrLessTransitive(a.filter.name, b.filter.name, c.filter.name);
      }
      if a.filter == c.filter {
        FilterAsymmetric(a.filter, b.filter);
      }
    } else if a.filter != b.filter || b.filter != c.filter {
    } else if a.exposure != b.exposure && b.exposure != c.exposure {
      StrLessTransitive(a.exposure, b.exposure, c.exposure);
      if a.exposure == c.exposure {
        StrLessIrreflexive(a.exposure);
      }
    } else if a.exposure != b.exposure || b.exposure != c.exposure {
    } else if a.binning != b.binning && b.binning != c.binning {
      StrLessTransitive(a.binning, b.binning, c.binning);
      if a.binning == c.binning {
        StrLessIrreflexive(a.binning);
      }
    } else if a.binning != b.binning || b.binning != c.binning {
    } else {
      StrLessTransitive(a.gain, b.gain, c.gain);
    }
  }

  lemma FilterAsymmetric(x: FilterId, y: FilterId)
    requires FilterLess(x, y)
    ensures !FilterLess(y, x)
  {
    if x.Raw? && y.Raw? && StrLess(y.name, x.name) {
      StrLessTransitive(x.name, y.name, x.name);
      StrLessIrreflexive(x.name);
    }
  }

  lemma KeyLessTotal(a: FrameKey, b: FrameKey)
    requires a != b
    ensures KeyLess(a, b) || KeyLess(b, a)
  {
    if a.date != b.date {
      StrLessTotal(a.date, b.date);
    } else if a.filter != b.filter {
      if a.filter.Raw? && b.filter.Raw? {
        StrLessTotal(a.filter.name, b.filter.name);
      }
    } else if a.exposure != b.exposure {
      StrLessTotal(a.exposure, b.exposure);
    } else if a.binning != b.binning {
      StrLessTotal(a.binning, b.binning);
    } else {
      StrLessTotal(a.gain, b.gain);
    }
  }

  /** `KeyLess` is a strict total order. */
  lemma KeyOrder()
    ensures StrictTotal(KeyLess)
  {
    forall a | true ensures !KeyLess(a, a) {
      KeyLessIrreflexive(a);
    }
    forall a, b, c | KeyLess(a, b) && KeyLess(b, c) ensures KeyLess(a, c) {
      KeyLessTransitive(a, b, c);
    }
    forall a, b | a != b ensures KeyLess(a, b) || KeyLess(b, a) {
      KeyLessTotal(a, b);
    }
  }

  // ---------------------------------------------------------------------------
  // `sorted`, for any strict total order.
  // ---------------------------------------------------------------------------

  ghost predicate StrictTotal<T(!new)>(less: (T, T) -> bool) {
    && (forall a :: !less(a, a))
    && (forall a, b, c :: less(a, b) && less(b, c) ==> less(a, c))
    && (forall a, b :: a != b ==> less(a, b) || less(b, a))
  }

  /** Strictly ascending: every element before every later one. */
  predicate Ascending<T>(less: (T, T) -> bool, xs: seq<T>) {
    forall i, j :: 0 <= i < j < |xs| ==> less(xs[i], xs[j])
  }

  predicate Distinct<T(==)>(xs: seq<T>) {
    forall i, j :: 0 <= i < j < |xs| ==> xs[i] != xs[j]
  }

  /** Puts `x` into an ascending list in front of the first larger element. */
  function Insert<T(!new)>(less: (T, T) -> bool, x: T, xs: seq<T>): (r: seq<T>)
    requires StrictTotal(less) && Ascending(less, xs) && x !in xs
    ensures multiset(r) == multiset(xs) + multiset{x}
    ensures Ascending(less, r)
  {
    if xs == [] then [x]
    else if less(x, xs[0]) then [x] + xs
    else
      var t := Insert(less, x, xs[1..]);
      assert xs == [xs[0]] + xs[1..];
      assert forall j :: 0 <= j < |t| ==> less(xs[0], t[j]) by {
        forall j | 0 <= j < |t| ensures less(xs[0], t[j]) {
          assert t[j] in multiset(t);
        }
      }
      [xs[0]] + t
  }

  /** `sorted` on distinct elements: the same elements, ascending. */
  function Sort<T(!new)>(less: (T, T) -> bool, xs: seq<T>): (r: seq<T>)
    requires StrictTotal(less) && Distinct(xs)
    ensures multiset(r) == multiset(xs)
    ensures Ascending(less, r)
  {
    if xs == [] then []
    else
      assert xs == [xs[0]] + xs[1..];
      var t := Sort(less, xs[1..]);
      assert xs[0] !in multiset(t);
      Insert(less, xs[0], t)
  }

  /** Two ascending lists with the same elements are the same list: the order
      the elements were given in cannot show in the sorted result. */
  lemma {:induction false} AscendingUnique<T(!new)>(less: (T, T) -> bool, xs: seq<T>, ys: seq<T>)
    requires StrictTotal(less) && Ascending(less, xs) && Ascending(less, ys)
    requires forall x :: x in xs <==> x in ys
    ensures xs == ys
    decreases |xs|
  {
    if xs != [] {
      assert xs[0] in ys;
      assert ys[0] in xs;
      assert xs[0] == ys[0];
      forall x ensures x in xs[1..] <==> x in ys[1..] {
        Rest(less, xs, x);
        Rest(less, ys, x);
      }
      AscendingUnique(less, xs[1..], ys[1..]);
      assert xs == [xs[0]] + xs[1..] && ys == [ys[0]] + ys[1..];
    }
  }

  /** The elements after the first of an ascending list are its other elements. */
  lemma Rest<T(!new)>(less: (T, T) -> bool, xs: seq<T>, x: T)
    requires StrictTotal(less) && Ascending(less, xs) && xs != []
    ensures x in xs[1..] <==> x in xs && x != xs[0]
  {
    assert xs == [xs[0]] + xs[1..];
  }

  /** Sorting keeps exactly the elements it was given, each once. */
  lemma SortMembers<T(!new)>(less: (T, T) -> bool, xs: seq<T>)
    requires StrictTotal(less) && Distinct(xs)
    ensures Distinct(Sort(less, xs))
    ensures forall x :: x in Sort(less, xs) <==> x in xs
  {
    var r := Sort(less, xs);
    forall x ensures x in r <==> x in xs {
      assert x in r <==> x in multiset(r);
      assert x in xs <==> x in multiset(xs);
    }
  }

  /** Sorting forgets the order it was given: two lists of the same distinct
      elements sort to the same list. */
  lemma SortSameElements<T(!new)>(less: (T, T) -> bool, xs: seq<T>, ys: seq<T>)
    requires StrictTotal(less) && Distinct(xs) && Distinct(ys)
    requires forall x :: x in xs <==> x in ys
    ensures Sort(less, xs) == Sort(less, ys)
  {
    SortMembers(less, xs);
    SortMembers(less, ys);
    AscendingUnique(less, Sort(less, xs), Sort(less, ys));
  }
}
