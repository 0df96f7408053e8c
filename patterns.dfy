/** The header search patterns. For each of the six fields there is one pattern
    per header dialect, searched case-insensitively (`re.IGNORECASE`):

      Xisf:  <FITSKeyword \s+ name=" (?:K1|K2|...) " \s+ value=" ([^"]+) "
      Fits:  (?:K1|K2|...) \s* = \s* (?: ' ([^']*) ' | ([0-9.-]+) )

    A pattern is written here as data: the pieces before the key alternation,
    the synonym keys, and the pieces after it. `Interp` reads pieces from left
    to right. It never gives characters back from a greedy run, because in
    both patterns every run is followed by a piece that cannot start with a
    character of the run; and the only alternation among the pieces is the
    last piece of the FITS pattern. So a backtracking matcher can only change
    its mind in the key alternation, which `Alternation` models as ordered
    choice: the first key after which the rest of the pattern matches. */
module Patterns {
  import opened Text

  datatype Dialect = Xisf | Fits

  datatype Field = TypeField | DateField | FilterField | ExposureField | GainField | BinningField

  /** The synonym keys of each field, in the order the alternation tries them. */
  function Synonyms(f: Field): seq<string> {
    match f
    case TypeField => ["IMAGETYP", "TYPE"]
    case DateField => ["DATE-LOC", "DATE-OBS", "DATE"]
    case FilterField => ["FILTER", "FILT"]
    case ExposureField => ["EXPTIME", "EXPOSURE"]
    case GainField => ["GAIN", "ISO"]
    case BinningField => ["XBINNING", "BINNING"]
  }

  /** One piece of a pattern: a literal word (compared with ASCII case folding),
      a greedy run of a character class (`c*`, or `c+` when `plus`), the same
      run as a capture group, or a choice between two piece lists, the first
      preferred. */
  datatype Piece =
    | Word(w: string)
    | Run(cls: CharClass, plus: bool)
    | Capture(cls: CharClass, plus: bool)
    | Either(first: seq<Piece>, second: seq<Piece>)

  /** Number of capture groups in a piece list. */
  function Captures(ps: seq<Piece>): nat
    decreases ps
  {
    if ps == [] then 0
    else
      (match ps[0]
       case Capture(_, _) => 1
       case Either(l, r) => Captures(l) + Captures(r)
       case _ => 0) + Captures(ps[1..])
  }

  /** `n` groups that did not take part in a match. */
  function Absent(n: nat): (gs: seq<Option<string>>)
    ensures |gs| == n && forall k :: 0 <= k < n ==> gs[k].None?
  {
    seq(n, _ => None)
  }

  /** Where reading pieces ended and the groups captured on the way. */
  datatype Tail = Tail(end: nat, groups: seq<Option<string>>)

  /** Reads the pieces `ps` from position `p` of `s`. */
  function Interp(ps: seq<Piece>, s: string, p: nat): (r: Option<Tail>)
    requires p <= |s|
    ensures r.Some? ==> p <= r.value.end <= |s|
    decreases ps, 1
  {
    if ps == [] then Some(Tail(p, []))
    else
      match Head(ps, s, p)
      case None => None
      case Some(h) => Join(h.groups, Interp(ps[1..], s, h.end))
  }

  /** Reads the first of the pieces `ps` from position `p` of `s`. */
  function Head(ps: seq<Piece>, s: string, p: nat): (r: Option<Tail>)
    requires ps != [] && p <= |s|
    ensures r.Some? ==> p <= r.value.end <= |s|
    decreases ps, 0
  {
    match ps[0]
    case Word(w) =>
      if p + |w| <= |s| && CiPrefixAt(s, p, w) then Some(Tail(p + |w|, [])) else None
    case Run(c, plus) =>
      var e := RunEnd(s, p, c);
      if plus && e == p then None else Some(Tail(e, []))
    case Capture(c, plus) =>
      var e := RunEnd(s, p, c);
      if plus && e == p then None else Some(Tail(e, [Some(s[p..e])]))
    case Either(l, r) =>
      match Interp(l, s, p)
      case Some(t) => Some(Tail(t.end, t.groups + Absent(Captures(r))))
      case None =>
        match Interp(r, s, p)
        case Some(t) => Some(Tail(t.end, Absent(Captures(l)) + t.groups))
        case None => None
  }

  /** Puts groups read earlier in front of the groups of a later reading. */
  function Join(gs: seq<Option<string>>, r: Option<Tail>): (j: Option<Tail>)
    ensures j.Some? <==> r.Some?
    ensures j.Some? ==> j.value.end == r.value.end && j.value.groups == gs + r.value.groups
  {
    match r
    case None => None
    case Some(t) => Some(Tail(t.end, gs + t.groups))
  }

  /** Reading goes on after a first piece that was read. */
  lemma HeadThen(ps: seq<Piece>, s: string, p: nat, h: Tail, t: Tail)
    requires ps != [] && p <= |s| && Head(ps, s, p) == Some(h)
    requires Interp(ps[1..], s, h.end) == Some(t)
    ensures Interp(ps, s, p) == Some(Tail(t.end, h.groups + t.groups))
  {
  }

  /** Reading stops at a first piece that cannot be read. */
  lemma InterpStop(ps: seq<Piece>, s: string, p: nat)
    requires ps != [] && p <= |s| && Head(ps, s, p).None?
    ensures Interp(ps, s, p).None?
  {
  }

  /** A choice whose first branch reads takes it; the second branch's groups
      did not take part. */
  lemma EitherFirst(ps: seq<Piece>, s: string, p: nat, l: seq<Piece>, r: seq<Piece>, t: Tail, u: Tail)
    requires ps != [] && ps[0] == Either(l, r) && p <= |s|
    requires Interp(l, s, p) == Some(t) && Interp(ps[1..], s, t.end) == Some(u)
    ensures Interp(ps, s, p) == Some(Tail(u.end, t.groups + Absent(Captures(r)) + u.groups))
  {
  }

  /** A choice whose first branch fails reads the second; the first branch's
      groups did not take part. */
  lemma EitherSecond(ps: seq<Piece>, s: string, p: nat, l: seq<Piece>, r: seq<Piece>, t: Tail, u: Tail)
    requires ps != [] && ps[0] == Either(l, r) && p <= |s|
    requires Interp(l, s, p).None? && Interp(r, s, p) == Some(t) && Interp(ps[1..], s, t.end) == Some(u)
    ensures Interp(ps, s, p) == Some(Tail(u.end, Absent(Captures(l)) + t.groups + u.groups))
  {
  }

  /** Reading a word that is there moves past it. */
  lemma WordThen(ps: seq<Piece>, s: string, p: nat, w: string, t: Tail)
    requires ps != [] && ps[0] == Word(w) && p + |w| <= |s| && CiPrefixAt(s, p, w)
    requires Interp(ps[1..], s, p + |w|) == Some(t)
    ensures Interp(ps, s, p) == Some(t)
  {
    assert [] + t.groups == t.groups;
  }

  /** Reading a run moves to its end, which must be past `p` for a `+` run. */
  lemma RunThen(ps: seq<Piece>, s: string, p: nat, c: CharClass, plus: bool, e: nat, t: Tail)
    requires ps != [] && ps[0] == Run(c, plus)
    requires p <= |s| && RunEnd(s, p, c) == e && (plus ==> e > p)
    requires Interp(ps[1..], s, e) == Some(t)
    ensures Interp(ps, s, p) == Some(t)
  {
    assert [] + t.groups == t.groups;
  }

  /** A run read from `p` that the rest of the pieces cannot follow. */
  lemma RunStop(ps: seq<Piece>, s: string, p: nat, c: CharClass, plus: bool, e: nat)
    requires ps != [] && ps[0] == Run(c, plus)
    requires p <= |s| && RunEnd(s, p, c) == e && (plus ==> e > p)
    requires Interp(ps[1..], s, e).None?
    ensures Interp(ps, s, p).None?
  {
  }

  /** Reading a capture moves to the end of its run and records what it passed. */
  lemma CaptureThen(ps: seq<Piece>, s: string, p: nat, c: CharClass, plus: bool, e: nat, t: Tail)
    requires ps != [] && ps[0] == Capture(c, plus)
    requires p <= |s| && RunEnd(s, p, c) == e && (plus ==> e > p)
    requires Interp(ps[1..], s, e) == Some(t)
    ensures Interp(ps, s, p) == Some(Tail(t.end, [Some(s[p..e])] + t.groups))
  {
  }

  /** Nothing left to read. */
  lemma Done(ps: seq<Piece>, s: string, p: nat)
    requires ps == [] && p <= |s|
    ensures Interp(ps, s, p) == Some(Tail(p, []))
  {
  }

  /** The fixed words of the XISF element. */
  const ElementOpen: string := "<FITSKeyword"
  const NameOpen: string := "name=\""
  const ValueOpen: string := "value=\""

  /** `<FITSKeyword \s+ name="`: what comes before the key in an XISF element. */
  const XisfLead: seq<Piece> := [Word(ElementOpen), Run(Space, true), Word(NameOpen)]

  /** `" \s+ value=" ([^"]+) "`: what comes after the key in an XISF element. */
  const XisfRest: seq<Piece> :=
    [Word("\""), Run(Space, true), Word(ValueOpen), Capture(Except('"'), true), Word("\"")]

  /** `\s* = \s* (?: ' ([^']*) ' | ([0-9.-]+) )`: what comes after the key in a FITS record. */
  const FitsRest: seq<Piece> :=
    [Run(Space, false), Word("="), Run(Space, false), Either(FitsQuoted, FitsNumber)]

  /** `' ([^']*) '`: a quoted character string. */
  const FitsQuoted: seq<Piece> := [Word("'"), Capture(Except('\''), false), Word("'")]

  /** `([0-9.-]+)`: a bare number. */
  const FitsNumber: seq<Piece> := [Capture(NumberChar, true)]

  /** The last piece of the FITS rest is the choice between its two branches. */
  lemma FitsChoiceAt()
    ensures FitsRest[3..] == [Either(FitsQuoted, FitsNumber)]
  {
  }

  /** Each branch of the FITS choice holds one capture group. */
  lemma FitsBranchGroups()
    ensures Absent(Captures(FitsQuoted)) == [None] && Absent(Captures(FitsNumber)) == [None]
  {
    assert Captures(FitsQuoted[1..][1..]) == 0;
    assert Captures(FitsNumber[1..]) == 0;
  }

  /** A compiled pattern: pieces, then one of the keys, then pieces. */
  datatype Pattern = Pattern(lead: seq<Piece>, keys: seq<string>, rest: seq<Piece>)

  /** `PATTERNS[dialect][field]`. */
  function FieldPattern(d: Dialect, f: Field): Pattern {
    match d
    case Xisf => Pattern(XisfLead, Synonyms(f), XisfRest)
    case Fits => Pattern([], Synonyms(f), FitsRest)
  }

  /** A regex match: where it starts and ends, and its capture groups
      (`None` for a group that did not take part). */
  datatype Match = Match(start: nat, end: nat, groups: seq<Option<string>>)

  /** The key `w` is at `p` and the rest of the pattern matches after it. */
  predicate KeyFits(pat: Pattern, s: string, p: nat, w: string) {
    p + |w| <= |s| && CiPrefixAt(s, p, w) && Interp(pat.rest, s, p + |w|).Some?
  }

  /** The key alternation followed by the rest of the pattern, from the `n`-th
      key on: the keys are tried in order and the first one after which the
      rest matches decides the match (see `AlternationPicks`). */
  function Alternation(pat: Pattern, s: string, p: nat, n: nat): (r: Option<Tail>)
    requires n <= |pat.keys|
    ensures r.Some? ==> p <= r.value.end <= |s|
    decreases |pat.keys| - n
  {
    if n == |pat.keys| then None
    else if KeyFits(pat, s, p, pat.keys[n]) then Interp(pat.rest, s, p + |pat.keys[n]|)
    else Alternation(pat, s, p, n + 1)
  }

  /** Ordered choice: when the `k`-th key fits and none before it (from `n` on)
      does, the alternation is decided by the `k`-th key; when none fits, it fails. */
  lemma {:induction false} AlternationPicks(pat: Pattern, s: string, p: nat, n: nat, k: nat)
    requires n <= k <= |pat.keys|
    requires forall m :: n <= m < k ==> !KeyFits(pat, s, p, pat.keys[m])
    requires k < |pat.keys| ==> KeyFits(pat, s, p, pat.keys[k])
    ensures Alternation(pat, s, p, n) == if k == |pat.keys| then None else Interp(pat.rest, s, p + |pat.keys[k]|)
    decreases k - n
  {
    if n < k {
      AlternationPicks(pat, s, p, n + 1, k);
    }
  }

  /** The whole pattern tried at position `i` of `s` (`pattern.match(s, i)`). */
  function MatchAt(pat: Pattern, s: string, i: nat): (r: Option<Match>)
    requires i <= |s|
    ensures r.Some? ==> r.value.start == i && i <= r.value.end <= |s|
  {
    match Interp(pat.lead, s, i)
    case None => None
    case Some(l) =>
      match Alternation(pat, s, l.end, 0)
      case None => None
      case Some(t) => Some(Match(i, t.end, l.groups + t.groups))
  }

  /** The first position in `[from, last]` where `found` holds, or `last + 1`
      when there is none. */
  function FirstWhere(found: nat -> bool, from: nat, last: nat): (k: nat)
    requires from <= last + 1
    ensures from <= k <= last + 1
    ensures forall j :: from <= j < k ==> !found(j)
    ensures k <= last ==> found(k)
    decreases last + 1 - from
  {
    if from > last || found(from) then from else FirstWhere(found, from + 1, last)
  }

  /** `pattern.search(s, from)`: the match at the leftmost position at or after
      `from` where the pattern matches, if there is one. */
  function Search(pat: Pattern, s: string, from: nat): (r: Option<Match>)
    requires from <= |s|
    ensures r.Some? ==> from <= r.value.start <= |s| && MatchAt(pat, s, r.value.start) == r
    ensures r.Some? ==> forall j :: from <= j < r.value.start ==> MatchAt(pat, s, j).None?
    ensures r.None? ==> forall j :: from <= j <= |s| ==> MatchAt(pat, s, j).None?
  {
    var found := (j: nat) => j <= |s| && MatchAt(pat, s, j).Some?;
    var k := FirstWhere(found, from, |s|);
    assert forall j :: from <= j < k && j <= |s| ==> MatchAt(pat, s, j).None? by {
      forall j | from <= j < k && j <= |s| ensures MatchAt(pat, s, j).None? {
        assert !found(j);
      }
    }
    if k <= |s| then MatchAt(pat, s, k) else None
  }

  /** Index of the first group that took part in the match (`|gs|` when none did). */
  function FirstSome(gs: seq<Option<string>>): (n: nat)
    ensures n <= |gs|
    ensures forall j :: 0 <= j < n ==> gs[j].None?
    ensures n < |gs| ==> gs[n].Some?
  {
    if gs == [] || gs[0].Some? then 0 else 1 + FirstSome(gs[1..])
  }

  /** `extract_val`: no value without a match or when the first group that took
      part is empty; otherwise that group with `'` stripped from both ends, then `"`. */
  function ExtractVal(m: Option<Match>): (r: Option<string>)
    ensures m.None? ==> r.None?
    ensures m.Some? ==>
              var gs := m.value.groups;
              var n := FirstSome(gs);
              if n == |gs| || gs[n].value == [] then r.None?
              else r == Some(Strip(Strip(gs[n].value, '\''), '"'))
    ensures r.Some? ==> r.value == [] || (r.value[0] != '"' && r.value[|r.value| - 1] != '"')
  {
    match m
    case None => None
    case Some(mt) =>
      var n := FirstSome(mt.groups);
      if n == |mt.groups| || mt.groups[n].value == [] then None
      else Some(Strip(Strip(mt.groups[n].value, '\''), '"'))
  }

  /** `extract_val(PATTERNS[dialect][field].search(header))`. */
  function Lookup(d: Dialect, f: Field, header: string): Option<string> {
    ExtractVal(Search(FieldPattern(d, f), header, 0))
  }

  // ---------------------------------------------------------------------------
  // Text in front of a record: the patterns only look forward.
  // ---------------------------------------------------------------------------

  /** A reading moved `n` characters to the right. */
  function ShiftTail(r: Option<Tail>, n: nat): Option<Tail> {
    match r
    case None => None
    case Some(t) => Some(Tail(t.end + n, t.groups))
  }

  /** A match moved `n` characters to the right. */
  function ShiftMatch(r: Option<Match>, n: nat): Option<Match> {
    match r
    case None => None
    case Some(m) => Some(Match(m.start + n, m.end + n, m.groups))
  }

  /** Reading pieces after prepended text gives the same reading, moved. */
  lemma {:induction false} InterpShift(ps: seq<Piece>, a: string, b: string, p: nat)
    requires p <= |b|
    ensures Interp(ps, a + b, |a| + p) == ShiftTail(Interp(ps, b, p), |a|)
    decreases ps, 1
  {
    if ps != [] {
      HeadShift(ps, a, b, p);
      var h := Head(ps, b, p);
      if h.Some? {
        InterpShift(ps[1..], a, b, h.value.end);
      }
    }
  }

  lemma {:induction false} HeadShift(ps: seq<Piece>, a: string, b: string, p: nat)
    requires ps != [] && p <= |b|
    ensures Head(ps, a + b, |a| + p) == ShiftTail(Head(ps, b, p), |a|)
    decreases ps, 0
  {
    match ps[0]
    case Word(w) =>
      CiPrefixShift(a, b, p, w);
    case Run(c, plus) =>
      RunEndShift(a, b, p, c);
    case Capture(c, plus) =>
      CaptureShift(ps, a, b, p, c, plus);
    case Either(l, r) =>
      InterpShift(l, a, b, p);
      InterpShift(r, a, b, p);
      EitherShift(ps, a, b, p, l, r);
  }

  lemma CaptureShift(ps: seq<Piece>, a: string, b: string, p: nat, c: CharClass, plus: bool)
    requires ps != [] && p <= |b| && ps[0] == Capture(c, plus)
    ensures Head(ps, a + b, |a| + p) == ShiftTail(Head(ps, b, p), |a|)
  {
    RunEndShift(a, b, p, c);
    var e := RunEnd(b, p, c);
    assert (a + b)[|a| + p..|a| + e] == b[p..e];
  }

  lemma EitherShift(ps: seq<Piece>, a: string, b: string, p: nat, l: seq<Piece>, r: seq<Piece>)
    requires ps != [] && p <= |b| && ps[0] == Either(l, r)
    requires Interp(l, a + b, |a| + p) == ShiftTail(Interp(l, b, p), |a|)
    requires Interp(r, a + b, |a| + p) == ShiftTail(Interp(r, b, p), |a|)
    ensures Head(ps, a + b, |a| + p) == ShiftTail(Head(ps, b, p), |a|)
  {
    HeadEither(ps, b, p, l, r);
    HeadEither(ps, a + b, |a| + p, l, r);
    ChooseShift(Interp(l, b, p), Interp(r, b, p), Captures(l), Captures(r), |a|);
  }

  /** Moving both branches moves the choice. */
  lemma ChooseShift(x: Option<Tail>, y: Option<Tail>, nl: nat, nr: nat, n: nat)
    ensures Choose(ShiftTail(x, n), ShiftTail(y, n), nl, nr) == ShiftTail(Choose(x, y, nl, nr), n)
  {
  }

  /** How a choice reads, given how its two branches read. */
  function Choose(x: Option<Tail>, y: Option<Tail>, nl: nat, nr: nat): Option<Tail> {
    match x
    case Some(t) => Some(Tail(t.end, t.groups + Absent(nr)))
    case None =>
      match y
      case Some(t) => Some(Tail(t.end, Absent(nl) + t.groups))
      case None => None
  }

  lemma HeadEither(ps: seq<Piece>, s: string, p: nat, l: seq<Piece>, r: seq<Piece>)
    requires ps != [] && p <= |s| && ps[0] == Either(l, r)
    ensures Head(ps, s, p) == Choose(Interp(l, s, p), Interp(r, s, p), Captures(l), Captures(r))
  {
  }

  lemma {:induction false} AlternationShift(pat: Pattern, a: string, b: string, p: nat, n: nat)
    requires p <= |b| && n <= |pat.keys|
    ensures Alternation(pat, a + b, |a| + p, n) == ShiftTail(Alternation(pat, b, p, n), |a|)
    decreases |pat.keys| - n
  {
    if n < |pat.keys| {
      KeyFitsShift(pat, a, b, p, pat.keys[n]);
      AlternationShift(pat, a, b, p, n + 1);
    }
  }

  /** A key fits after prepended text exactly where it fits without it, and
      the rest reads the same, moved. */
  lemma KeyFitsShift(pat: Pattern, a: string, b: string, p: nat, w: string)
    requires p <= |b|
    ensures KeyFits(pat, a + b, |a| + p, w) <==> KeyFits(pat, b, p, w)
    ensures KeyFits(pat, b, p, w) ==>
              Interp(pat.rest, a + b, |a| + p + |w|) == ShiftTail(Interp(pat.rest, b, p + |w|), |a|)
  {
    CiPrefixShift(a, b, p, w);
    if p + |w| <= |b| {
      InterpShift(pat.rest, a, b, p + |w|);
    }
  }

  /** Trying a pattern after prepended text gives the same match, moved. */
  lemma MatchShift(pat: Pattern, a: string, b: string, i: nat)
    requires i <= |b|
    ensures MatchAt(pat, a + b, |a| + i) == ShiftMatch(MatchAt(pat, b, i), |a|)
  {
    InterpShift(pat.lead, a, b, i);
    var l := Interp(pat.lead, b, i);
    if l.Some? {
      AlternationShift(pat, a, b, l.value.end, 0);
    }
  }

  /** The search reports a match at `i` when no earlier position matches. */
  lemma SearchFindsAt(pat: Pattern, s: string, i: nat)
    requires i <= |s| && MatchAt(pat, s, i).Some?
    requires forall j :: 0 <= j < i ==> MatchAt(pat, s, j).None?
    ensures Search(pat, s, 0) == MatchAt(pat, s, i)
  {
  }

  /** When no match starts inside the prepended text, the search finds what it
      finds without it, moved. */
  lemma SearchPast(pat: Pattern, a: string, b: string)
    requires forall j :: 0 <= j < |a| ==> MatchAt(pat, a + b, j).None?
    ensures Search(pat, a + b, 0) == ShiftMatch(Search(pat, b, 0), |a|)
  {
    var r := Search(pat, b, 0);
    if r.Some? {
      var k := r.value.start;
      forall j | 0 <= j < |a| + k ensures MatchAt(pat, a + b, j).None? {
        if j >= |a| {
          MatchShift(pat, a, b, j - |a|);
        }
      }
      MatchShift(pat, a, b, k);
      SearchFindsAt(pat, a + b, |a| + k);
    } else {
      forall j | 0 <= j <= |a + b| ensures MatchAt(pat, a + b, j).None? {
        if j >= |a| {
          MatchShift(pat, a, b, j - |a|);
        }
      }
    }
  }

  /** A field looked up past text where no match starts: the value is the one
      found in the rest of the header. */
  lemma LookupPast(d: Dialect, f: Field, a: string, b: string)
    requires forall j :: 0 <= j < |a| ==> MatchAt(FieldPattern(d, f), a + b, j).None?
    ensures Lookup(d, f, a + b) == Lookup(d, f, b)
  {
    SearchPast(FieldPattern(d, f), a, b);
  }

  /** No XISF element starts in text without a `<`. */
  lemma XisfNoOpen(f: Field, a: string, b: string)
    requires '<' !in a
    ensures forall j :: 0 <= j < |a| ==> MatchAt(FieldPattern(Xisf, f), a + b, j).None?
  {
    forall j | 0 <= j < |a| ensures MatchAt(FieldPattern(Xisf, f), a + b, j).None? {
      var s := a + b;
      CiPrefixAtIff(s, j, ElementOpen);
      assert s[j] == a[j];
      assert UpperChar(s[j]) != UpperChar(ElementOpen[0]);
      InterpStop(XisfLead, s, j);
    }
  }

  // ---------------------------------------------------------------------------
  // Keyword cards written in either dialect are found again by the search.
  // ---------------------------------------------------------------------------

  predicate KeyChar(c: char) {
    'A' <= c <= 'Z' || c == '-'
  }

  predicate IsKey(w: string) {
    w != [] && forall k :: 0 <= k < |w| ==> KeyChar(w[k])
  }

  /** Synonym lists are non-empty upper-case words, all different. */
  predicate WellFormedKeys(keys: seq<string>) {
    && (forall n :: 0 <= n < |keys| ==> IsKey(keys[n]))
    && (forall m, n :: 0 <= m < n < |keys| ==> keys[m] != keys[n])
  }

  lemma SynonymsWellFormed(f: Field)
    ensures WellFormedKeys(Synonyms(f))
  {
    match f
    case TypeField =>
    case DateField =>
    case FilterField =>
    case ExposureField =>
    case GainField =>
    case BinningField =>
  }

  /** A word written out verbatim is found, whatever the case folding. */
  lemma WordAt(s: string, p: nat, w: string)
    requires p + |w| <= |s| && s[p..p + |w|] == w
    ensures CiPrefixAt(s, p, w)
  {
    CiPrefixAtIff(s, p, w);
    forall k | 0 <= k < |w| ensures s[p + k] == w[k] {
      assert s[p..p + |w|][k] == s[p + k];
    }
  }

  /** The text at `a` spells `v`, so a run of characters allowed in `v` reaches its end. */
  lemma RunOver(s: string, a: nat, v: string, p: CharClass)
    requires a + |v| <= |s| && s[a..a + |v|] == v
    requires forall k :: 0 <= k < |v| ==> InClass(v[k], p)
    requires a + |v| < |s| ==> !InClass(s[a + |v|], p)
    ensures RunEnd(s, a, p) == a + |v|
  {
    forall k | a <= k < a + |v| ensures InClass(s[k], p) {
      assert s[k] == s[a..a + |v|][k - a];
    }
    RunEndAt(s, a, a + |v|, p);
  }

  /** Two keys found at the same place agree on their common length; a longer
      one carries a key character past the shorter. */
  lemma KeysOverlap(s: string, p: nat, x: string, y: string)
    requires IsKey(x) && IsKey(y)
    requires p + |y| < |s| && s[p..p + |y|] == y
    requires CiPrefixAt(s, p, x)
    ensures forall k :: 0 <= k < |x| && k < |y| ==> x[k] == y[k]
    ensures |x| > |y| ==> UpperChar(s[p + |y|]) == x[|y|] && KeyChar(x[|y|])
    ensures |x| < |y| ==> s[p + |x|] == y[|x|]
  {
    CiPrefixAtIff(s, p, x);
    forall k | 0 <= k < |y| ensures s[p + k] == y[k] {
      assert s[p..p + |y|][k] == s[p + k];
    }
  }

  /** Where the key `y` stands at `p` and is followed by a character that cannot
      continue a key, any other key `x` found at `p` ends inside `y`. */
  lemma OtherKeyEndsInside(s: string, p: nat, x: string, y: string)
    requires IsKey(x) && IsKey(y) && x != y
    requires p + |y| < |s| && s[p..p + |y|] == y && !KeyChar(UpperChar(s[p + |y|]))
    requires CiPrefixAt(s, p, x)
    ensures |x| < |y| && KeyChar(s[p + |x|])
  {
    KeysOverlap(s, p, x, y);
    if |x| >= |y| {
      assert false;
    }
  }

  /** The rest of the pattern fails wherever the text continues with a key character. */
  predicate RestRejectsKeyChars(pat: Pattern, s: string) {
    forall q :: 0 <= q < |s| && KeyChar(s[q]) ==> Interp(pat.rest, s, q).None?
  }

  /** The rest of either pattern cannot start with a character of a key. */
  lemma FieldRestRejectsKeyChars(d: Dialect, f: Field, s: string)
    ensures RestRejectsKeyChars(FieldPattern(d, f), s)
  {
    forall q | 0 <= q < |s| && KeyChar(s[q]) ensures Interp(FieldPattern(d, f).rest, s, q).None? {
      if d == Xisf {
        XisfRestRejects(s, q);
      } else {
        FitsRestRejects(s, q);
      }
    }
  }

  /** A key character is not the quote that opens the rest of an XISF element. */
  lemma XisfRestRejects(s: string, q: nat)
    requires q < |s| && KeyChar(s[q])
    ensures Interp(XisfRest, s, q).None?
  {
    CiPrefixAtIff(s, q, "\"");
    assert Head(XisfRest, s, q).None?;
    InterpStop(XisfRest, s, q);
  }

  /** A key character is neither blank nor the `=` of a FITS record. */
  lemma FitsRestRejects(s: string, q: nat)
    requires q < |s| && KeyChar(s[q])
    ensures Interp(FitsRest, s, q).None?
  {
    RunEndAt(s, q, q, Space);
    CiPrefixAtIff(s, q, "=");
    assert FitsRest[1..][0] == Word("=");
    assert Head(FitsRest[1..], s, q).None?;
    InterpStop(FitsRest[1..], s, q);
    RunStop(FitsRest, s, q, Space, false, q);
  }

  /** A key of the list written verbatim at `p`, followed by a character that
      cannot continue a key and by text the rest of the pattern matches,
      decides the alternation. */
  lemma VerbatimKeyPicked(pat: Pattern, n: nat, s: string, p: nat)
    requires WellFormedKeys(pat.keys) && n < |pat.keys|
    requires RestRejectsKeyChars(pat, s)
    requires p + |pat.keys[n]| < |s| && s[p..p + |pat.keys[n]|] == pat.keys[n]
    requires !KeyChar(UpperChar(s[p + |pat.keys[n]|]))
    requires Interp(pat.rest, s, p + |pat.keys[n]|).Some?
    ensures Alternation(pat, s, p, 0) == Interp(pat.rest, s, p + |pat.keys[n]|)
  {
    var key := pat.keys[n];
    WordAt(s, p, key);
    forall m | 0 <= m < n ensures !KeyFits(pat, s, p, pat.keys[m]) {
      OtherKeyMisses(pat, s, p, pat.keys[m], key);
    }
    AlternationPicks(pat, s, p, 0, n);
  }

  /** Any other key fails where the key `y` stands verbatim. */
  lemma OtherKeyMisses(pat: Pattern, s: string, p: nat, x: string, y: string)
    requires IsKey(x) && IsKey(y) && x != y
    requires RestRejectsKeyChars(pat, s)
    requires p + |y| < |s| && s[p..p + |y|] == y && !KeyChar(UpperChar(s[p + |y|]))
    ensures !KeyFits(pat, s, p, x)
  {
    if CiPrefixAt(s, p, x) {
      OtherKeyEndsInside(s, p, x, y);
      assert Interp(pat.rest, s, p + |x|).None?;
    }
  }

  /** A record whose lead ends at `p`, followed by a key of the list written
      verbatim and by text the rest of the pattern reads as `t`, is what the
      search finds at position 0. */
  lemma VerbatimMatch(pat: Pattern, n: nat, s: string, p: nat, t: Tail)
    requires WellFormedKeys(pat.keys) && n < |pat.keys|
    requires RestRejectsKeyChars(pat, s)
    requires Interp(pat.lead, s, 0) == Some(Tail(p, []))
    requires p + |pat.keys[n]| < |s| && s[p..p + |pat.keys[n]|] == pat.keys[n]
    requires !KeyChar(UpperChar(s[p + |pat.keys[n]|]))
    requires Interp(pat.rest, s, p + |pat.keys[n]|) == Some(t)
    ensures Search(pat, s, 0) == Some(Match(0, t.end, t.groups))
  {
    VerbatimKeyPicked(pat, n, s, p);
    MatchFromParts(pat, s, p, t);
    SearchFindsFirst(pat, s, Match(0, t.end, t.groups));
  }

  /** A record as in `VerbatimMatch`: what `extract_val` makes of its groups
      is what the lookup returns. */
  lemma RecordFound(pat: Pattern, n: nat, s: string, p: nat, t: Tail, v: string)
    requires WellFormedKeys(pat.keys) && n < |pat.keys|
    requires RestRejectsKeyChars(pat, s)
    requires Interp(pat.lead, s, 0) == Some(Tail(p, []))
    requires p + |pat.keys[n]| < |s| && s[p..p + |pat.keys[n]|] == pat.keys[n]
    requires !KeyChar(UpperChar(s[p + |pat.keys[n]|]))
    requires Interp(pat.rest, s, p + |pat.keys[n]|) == Some(t)
    requires ExtractVal(Some(Match(0, t.end, t.groups))) == Some(v)
    ensures ExtractVal(Search(pat, s, 0)) == Some(v)
  {
    VerbatimMatch(pat, n, s, p, t);
  }

  lemma MatchFromParts(pat: Pattern, s: string, p: nat, t: Tail)
    requires p <= |s|
    requires Interp(pat.lead, s, 0) == Some(Tail(p, []))
    requires Alternation(pat, s, p, 0) == Some(t)
    ensures MatchAt(pat, s, 0) == Some(Match(0, t.end, t.groups))
  {
    assert [] + t.groups == t.groups;
  }

  /** A match at position 0 is what the search reports. */
  lemma SearchFindsFirst(pat: Pattern, s: string, m: Match)
    requires MatchAt(pat, s, 0) == Some(m)
    ensures Search(pat, s, 0) == Some(m)
  {
  }

  /** A value that `extract_val` hands back unchanged. */
  predicate Unquoted(v: string) {
    v != [] && v[0] != '\'' && v[0] != '"' && v[|v| - 1] != '\'' && v[|v| - 1] != '"'
  }

  lemma ExtractFirstGroup(m: Match, v: string)
    requires |m.groups| >= 1 && m.groups[0] == Some(v) && Unquoted(v)
    ensures ExtractVal(Some(m)) == Some(v)
  {
    StripNoop(v, '\'');
    StripNoop(v, '"');
  }

  /** A first group that keeps the FITS quotes, `'v'`, comes back as `v`. */
  lemma ExtractQuotedGroup(m: Match, v: string)
    requires |m.groups| >= 1 && m.groups[0] == Some("'" + v + "'") && Unquoted(v)
    ensures ExtractVal(Some(m)) == Some(v)
  {
    var w := "'" + v + "'";
    assert w[1..] == v + "'";
    assert LeadCount(v + "'", '\'') == 0;
    assert LeadCount(w, '\'') == 1;
    assert (v + "'")[..|v|] == v;
    assert TrimEnd(v + "'", '\'') == TrimEnd(v, '\'') == v;
    assert Strip(w, '\'') == v;
    StripNoop(v, '"');
  }

  lemma ExtractSecondGroup(m: Match, v: string)
    requires |m.groups| == 2 && m.groups[0].None? && m.groups[1] == Some(v) && Unquoted(v)
    ensures ExtractVal(Some(m)) == Some(v)
  {
    StripNoop(v, '\'');
    StripNoop(v, '"');
  }
}
