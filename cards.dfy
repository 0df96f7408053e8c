/** Header records in the layouts the two dialects write, and the proof that
    the search patterns find the value of a record whose key is any synonym
    of the field: an XISF element whose value is bare or keeps the FITS quotes,
    and a FITS record with any blanks around its `=`. */
module Cards {
  import opened Text
  import opened Patterns

  /** The XISF element `<FITSKeyword name="KEY" value="VALUE"` up to the quote
      that closes its value. The pattern reads no further, so what follows
      (`/>`, a `comment` attribute) is left to the text after the card. */
  function XisfCard(key: string, value: string): string {
    XisfNamePart(key) + XisfValuePart(value)
  }

  /** The element up to the end of its key. */
  function XisfNamePart(key: string): string {
    ElementOpen + " " + NameOpen + key
  }

  /** The element from the quote that closes its key to the quote that closes
      its value. */
  function XisfValuePart(value: string): string {
    "\" " + ValueOpen + value + "\""
  }

  /** A FITS keyword record holding a quoted character string: the key, blanks,
      `=`, blanks and `'VALUE'`. A fixed-format header pads the key to eight
      columns, as in `IMAGETYP= 'Light Frame'`. */
  function FitsStringCard(key: string, sp1: string, sp2: string, value: string): string {
    FitsHead(key, sp1, sp2) + FitsQuote(value)
  }

  /** A FITS character string: the value between single quotes. */
  function FitsQuote(value: string): string {
    "'" + value + "'"
  }

  /** A FITS keyword record holding a bare number: the key, blanks, `=`, blanks
      and the number, which a fixed-format header right-aligns. */
  function FitsNumberCard(key: string, sp1: string, sp2: string, value: string): string {
    FitsHead(key, sp1, sp2) + value
  }

  /** A FITS record up to its value: the key, blanks, `=` and blanks. */
  function FitsHead(key: string, sp1: string, sp2: string): string {
    key + sp1 + "=" + sp2
  }

  /** The lead of the XISF pattern reads `<FITSKeyword`, blanks and `name="`. */
  lemma XisfLeadReads(s: string)
    requires XisfLeadFacts(s)
    ensures Interp(XisfLead, s, 0) == Some(Tail(19, []))
  {
    var ps := XisfLead;
    var t := Tail(19, []);
    Done(ps[1..][1..][1..], s, 19);
    WordThen(ps[1..][1..], s, 13, NameOpen, t);
    RunThen(ps[1..], s, 12, Space, true, 13, t);
    WordThen(ps, s, 0, ElementOpen, t);
  }

  /** The rest of the XISF pattern reads `"`, blanks, `value="`, the value and `"`. */
  lemma XisfRestReads(s: string, q: nat, v: string)
    requires XisfRestFacts(s, q, v) && v != []
    ensures Interp(XisfRest, s, q) == Some(Tail(q + 10 + |v|, [Some(v)]))
  {
    XisfRestReadsAt(s, q, q + 10 + |v|);
  }

  lemma XisfRestReadsAt(s: string, q: nat, e: nat)
    requires q + 11 <= e <= |s|
    requires CiPrefixAt(s, q, "\"") && RunEnd(s, q + 1, Space) == q + 2 && CiPrefixAt(s, q + 2, ValueOpen)
    requires RunEnd(s, q + 9, Except('"')) == e - 1 && CiPrefixAt(s, e - 1, "\"")
    ensures Interp(XisfRest, s, q) == Some(Tail(e, [Some(s[q + 9..e - 1])]))
  {
    var ps := XisfRest;
    var t := Tail(e, [Some(s[q + 9..e - 1])]);
    Done(ps[1..][1..][1..][1..][1..], s, e);
    WordThen(ps[1..][1..][1..][1..], s, e - 1, "\"", Tail(e, []));
    CaptureThen(ps[1..][1..][1..], s, q + 9, Except('"'), true, e - 1, Tail(e, []));
    assert [Some(s[q + 9..e - 1])] + [] == t.groups;
    WordThen(ps[1..][1..], s, q + 2, ValueOpen, t);
    RunThen(ps[1..], s, q + 1, Space, true, q + 2, t);
    WordThen(ps, s, q, "\"", t);
  }

  /** The words and runs of an XISF element, where the pattern looks for them. */
  predicate XisfLeadFacts(s: string) {
    && 19 <= |s| && CiPrefixAt(s, 0, ElementOpen) && RunEnd(s, 12, Space) == 13
    && CiPrefixAt(s, 13, NameOpen)
  }

  predicate XisfRestFacts(s: string, q: nat, v: string) {
    && q + 10 + |v| <= |s|
    && CiPrefixAt(s, q, "\"") && RunEnd(s, q + 1, Space) == q + 2 && CiPrefixAt(s, q + 2, ValueOpen)
    && RunEnd(s, q + 9, Except('"')) == q + 9 + |v| && s[q + 9..q + 9 + |v|] == v
    && CiPrefixAt(s, q + 9 + |v|, "\"")
  }

  lemma XisfNamePartFacts(key: string, t: string)
    ensures XisfLeadFacts(XisfNamePart(key) + t)
  {
    var s := XisfNamePart(key) + t;
    assert s == ElementOpen + (" " + (NameOpen + (key + t)));
    XisfOpens(s, key + t);
  }

  lemma XisfOpens(s: string, t: string)
    requires s == ElementOpen + (" " + (NameOpen + t))
    ensures XisfLeadFacts(s)
  {
    CiPrefixOwn(ElementOpen, " " + (NameOpen + t));
    assert s[12] == ' ' && s[13] == 'n';
    RunEndAt(s, 12, 13, Space);
    CiPrefixOwn(NameOpen, t);
    assert s == (ElementOpen + " ") + (NameOpen + t);
    CiPrefixShift(ElementOpen + " ", NameOpen + t, 0, NameOpen);
  }

  lemma XisfValuePartFacts(v: string, rest: string)
    requires '"' !in v
    ensures XisfRestFacts(XisfValuePart(v) + rest, 0, v)
  {
    var w := XisfValuePart(v) + rest;
    assert w == "\" " + (ValueOpen + (v + ("\"" + rest)));
    XisfValueOpens(w, v + ("\"" + rest));
    XisfValueCloses(w, v, rest);
  }

  lemma XisfValueOpens(w: string, t: string)
    requires w == "\" " + (ValueOpen + t)
    ensures |w| >= 9 && CiPrefixAt(w, 0, "\"") && RunEnd(w, 1, Space) == 2 && CiPrefixAt(w, 2, ValueOpen)
  {
    CiPrefixOwn("\"", " " + (ValueOpen + t));
    assert w[1] == ' ' && w[2] == 'v';
    RunEndAt(w, 1, 2, Space);
    CiPrefixOwn(ValueOpen, t);
    CiPrefixShift("\" ", ValueOpen + t, 0, ValueOpen);
  }

  lemma XisfValueCloses(w: string, v: string, rest: string)
    requires '"' !in v
    requires w == "\" " + (ValueOpen + (v + ("\"" + rest)))
    ensures 10 + |v| <= |w|
    ensures RunEnd(w, 9, Except('"')) == 9 + |v| && w[9..9 + |v|] == v && CiPrefixAt(w, 9 + |v|, "\"")
  {
    assert w[9..9 + |v|] == v && w[9 + |v|] == '"';
    RunOver(w, 9, v, Except('"'));
    CiPrefixAtIff(w, 9 + |v|, "\"");
  }

  /** Text put in front of the rest of an element moves its facts along. */
  lemma XisfRestFactsShift(a: string, w: string, v: string)
    requires XisfRestFacts(w, 0, v)
    ensures XisfRestFacts(a + w, |a|, v)
  {
    XisfOpenFactsShift(a, w);
    XisfCloseFactsShift(a, w, v);
  }

  lemma XisfOpenFactsShift(a: string, w: string)
    requires 9 <= |w| && CiPrefixAt(w, 0, "\"") && RunEnd(w, 1, Space) == 2 && CiPrefixAt(w, 2, ValueOpen)
    ensures CiPrefixAt(a + w, |a|, "\"") && RunEnd(a + w, |a| + 1, Space) == |a| + 2
    ensures CiPrefixAt(a + w, |a| + 2, ValueOpen)
  {
    CiPrefixShift(a, w, 0, "\"");
    RunEndShift(a, w, 1, Space);
    CiPrefixShift(a, w, 2, ValueOpen);
  }

  lemma XisfCloseFactsShift(a: string, w: string, v: string)
    requires 10 + |v| <= |w| && RunEnd(w, 9, Except('"')) == 9 + |v| && w[9..9 + |v|] == v
    requires CiPrefixAt(w, 9 + |v|, "\"")
    ensures RunEnd(a + w, |a| + 9, Except('"')) == |a| + 9 + |v| && (a + w)[|a| + 9..|a| + 9 + |v|] == v
    ensures CiPrefixAt(a + w, |a| + 9 + |v|, "\"")
  {
    RunEndShift(a, w, 9, Except('"'));
    assert (a + w)[|a| + 9..|a| + 9 + |v|] == w[9..9 + |v|];
    CiPrefixShift(a, w, 9 + |v|, "\"");
  }

  /** Where the key of an XISF element stands. */
  lemma XisfKeyAt(key: string, w: string)
    requires w != [] && w[0] == '"'
    ensures var s := XisfNamePart(key) + w;
            19 + |key| < |s| && s[19..19 + |key|] == key && s[19 + |key|] == '"'
  {
    var s := XisfNamePart(key) + w;
    assert s == (ElementOpen + " " + NameOpen) + (key + w);
    assert s[19..19 + |key|] == (key + w)[..|key|];
  }

  /** An XISF element for `key` and `v` at the start of `s`, as the pattern sees it. */
  predicate XisfRecord(s: string, key: string, v: string) {
    && 19 + |key| < |s| && s[19..19 + |key|] == key && s[19 + |key|] == '"'
    && XisfLeadFacts(s) && XisfRestFacts(s, 19 + |key|, v)
  }

  /** Where the words, the key and the value of an XISF element stand. */
  lemma XisfCardFacts(key: string, v: string, rest: string)
    requires '"' !in v
    ensures XisfRecord(XisfCard(key, v) + rest, key, v)
  {
    var w := XisfValuePart(v) + rest;
    var s := XisfNamePart(key) + w;
    assert XisfCard(key, v) + rest == s;
    XisfNamePartFacts(key, w);
    XisfValuePartFacts(v, rest);
    XisfRestFactsShift(XisfNamePart(key), w, v);
    XisfKeyAt(key, w);
  }

  /** An XISF element at the start of `s` whose value is written `w`: what
      `extract_val` makes of `w` is the lookup's value. */
  lemma XisfRecordFound(f: Field, n: nat, s: string, w: string, v: string)
    requires n < |Synonyms(f)| && XisfRecord(s, Synonyms(f)[n], w) && w != []
    requires ExtractVal(Some(Match(0, 19 + |Synonyms(f)[n]| + 10 + |w|, [Some(w)]))) == Some(v)
    ensures Lookup(Xisf, f, s) == Some(v)
  {
    var q := 19 + |Synonyms(f)[n]|;
    XisfLeadReads(s);
    XisfRestReads(s, q, w);
    SynonymsWellFormed(f);
    FieldRestRejectsKeyChars(Xisf, f, s);
    RecordFound(FieldPattern(Xisf, f), n, s, 19, Tail(q + 10 + |w|, [Some(w)]), v);
  }

  /** The search finds the value of an XISF element whose key is the `n`-th
      synonym of the field, whatever follows the value's closing quote. */
  lemma XisfCardFound(f: Field, n: nat, v: string, rest: string)
    requires n < |Synonyms(f)|
    requires Unquoted(v) && '"' !in v
    ensures Lookup(Xisf, f, XisfCard(Synonyms(f)[n], v) + rest) == Some(v)
  {
    var key := Synonyms(f)[n];
    XisfCardFacts(key, v, rest);
    ExtractFirstGroup(Match(0, 19 + |key| + 10 + |v|, [Some(v)]), v);
    XisfRecordFound(f, n, XisfCard(key, v) + rest, v, v);
  }

  /** An XISF element that keeps the FITS quotes, `value="'v'"`, gives `v`:
      `extract_val` strips the quotes. */
  lemma XisfQuotedCardFound(f: Field, n: nat, v: string, rest: string)
    requires n < |Synonyms(f)|
    requires Unquoted(v) && '"' !in v
    ensures Lookup(Xisf, f, XisfCard(Synonyms(f)[n], FitsQuote(v)) + rest) == Some(v)
  {
    var key := Synonyms(f)[n];
    var w := FitsQuote(v);
    assert '"' !in w;
    XisfCardFacts(key, w, rest);
    ExtractQuotedGroup(Match(0, 19 + |key| + 10 + |w|, [Some(w)]), v);
    XisfRecordFound(f, n, XisfCard(key, w) + rest, w, v);
  }

  /** After the key, the rest of the FITS pattern reads blanks up to `e`, the
      `=`, blanks up to `p`, and then the choice, which reads `u`. */
  lemma FitsRestReadsAt(s: string, q: nat, e: nat, p: nat, u: Tail)
    requires FitsOpenFacts(s, q, e, p)
    requires Interp(FitsRest[3..], s, p) == Some(u)
    ensures Interp(FitsRest, s, q) == Some(u)
  {
    var ps := FitsRest;
    assert ps[1..][1..][1..] == ps[3..];
    RunThen(ps[1..][1..], s, e + 1, Space, false, p, u);
    WordThen(ps[1..], s, e, "=", u);
    RunThen(ps, s, q, Space, false, e, u);
  }

  /** The blanks after the key end at `e`, where the `=` stands; the blanks
      after it end at `p`. */
  predicate FitsOpenFacts(s: string, q: nat, e: nat, p: nat) {
    && q <= e < p <= |s|
    && RunEnd(s, q, Space) == e && CiPrefixAt(s, e, "=") && RunEnd(s, e + 1, Space) == p
  }

  /** A quoted string `v` at `p`. */
  predicate FitsQuotedAt(s: string, p: nat, v: string) {
    && p + 2 + |v| <= |s| && s[p + 1..p + 1 + |v|] == v
    && CiPrefixAt(s, p, "'") && RunEnd(s, p + 1, Except('\'')) == p + 1 + |v|
    && CiPrefixAt(s, p + 1 + |v|, "'")
  }

  /** A number `v` at `p`, not followed by another number character. */
  predicate FitsNumberAt(s: string, p: nat, v: string) {
    && p + |v| <= |s| && v != [] && InClass(s[p], NumberChar)
    && RunEnd(s, p, NumberChar) == p + |v| && s[p..p + |v|] == v
  }

  /** The quoted branch reads `'`, the string and `'`. */
  lemma FitsQuotedReads(s: string, p: nat, v: string)
    requires FitsQuotedAt(s, p, v)
    ensures Interp(FitsQuoted, s, p) == Some(Tail(p + 2 + |v|, [Some(v)]))
  {
    var ps := FitsQuoted;
    var e := p + 2 + |v|;
    Done(ps[1..][1..][1..], s, e);
    WordThen(ps[1..][1..], s, e - 1, "'", Tail(e, []));
    CaptureThen(ps[1..], s, p + 1, Except('\''), false, e - 1, Tail(e, []));
    assert [Some(v)] + [] == [Some(v)];
    WordThen(ps, s, p, "'", Tail(e, [Some(v)]));
  }

  /** The number branch reads a run of number characters. */
  lemma FitsNumberReads(s: string, p: nat, e: nat)
    requires p < e <= |s| && RunEnd(s, p, NumberChar) == e
    ensures Interp(FitsNumber, s, p) == Some(Tail(e, [Some(s[p..e])]))
  {
    Done(FitsNumber[1..], s, e);
    assert [Some(s[p..e])] + [] == [Some(s[p..e])];
    CaptureThen(FitsNumber, s, p, NumberChar, true, e, Tail(e, []));
  }

  /** A number does not open with a quote, so the quoted branch fails on it. */
  lemma FitsQuotedFails(s: string, p: nat)
    requires p < |s| && InClass(s[p], NumberChar)
    ensures Interp(FitsQuoted, s, p).None?
  {
    CiPrefixAtIff(s, p, "'");
    assert Head(FitsQuoted, s, p).None?;
    InterpStop(FitsQuoted, s, p);
  }

  /** The blanks and the `=` between key and value, read from the start of
      the text. */
  lemma FitsOpenPart(sp1: string, sp2: string, t: string)
    requires AllSpace(sp1) && AllSpace(sp2) && t != [] && !IsSpace(t[0])
    ensures FitsOpenFacts(sp1 + ("=" + (sp2 + t)), 0, |sp1|, |sp1| + 1 + |sp2|)
  {
    var u := "=" + (sp2 + t);
    BlanksBefore([], sp1, u);
    assert [] + (sp1 + u) == sp1 + u;
    assert (sp1 + u)[|sp1|] == '=';
    CiPrefixAtIff(sp1 + u, |sp1|, "=");
    BlanksBefore(sp1 + "=", sp2, t);
    assert (sp1 + "=") + (sp2 + t) == sp1 + u;
  }

  /** Blanks after `a` run up to the first character of `t` that is not one. */
  lemma BlanksBefore(a: string, sp: string, t: string)
    requires AllSpace(sp) && t != [] && !IsSpace(t[0])
    ensures RunEnd(a + (sp + t), |a|, Space) == |a| + |sp|
  {
    var s := a + (sp + t);
    assert s[|a|..|a| + |sp|] == sp && s[|a| + |sp|] == t[0];
    RunOver(s, |a|, sp, Space);
  }

  lemma FitsOpenFactsShift(a: string, w: string, e: nat, p: nat)
    requires FitsOpenFacts(w, 0, e, p)
    ensures FitsOpenFacts(a + w, |a|, |a| + e, |a| + p)
  {
    RunEndShift(a, w, 0, Space);
    CiPrefixShift(a, w, e, "=");
    RunEndShift(a, w, e + 1, Space);
  }

  lemma FitsQuotedPart(v: string, rest: string)
    requires '\'' !in v
    ensures FitsQuotedAt(FitsQuote(v) + rest, 0, v)
  {
    var t := FitsQuote(v) + rest;
    CiPrefixAtIff(t, 0, "'");
    assert t[1..1 + |v|] == v && t[1 + |v|] == '\'';
    RunOver(t, 1, v, Except('\''));
    CiPrefixAtIff(t, 1 + |v|, "'");
  }

  lemma FitsQuotedShift(a: string, t: string, v: string)
    requires FitsQuotedAt(t, 0, v)
    ensures FitsQuotedAt(a + t, |a|, v)
  {
    CiPrefixShift(a, t, 0, "'");
    RunEndShift(a, t, 1, Except('\''));
    assert (a + t)[|a| + 1..|a| + 1 + |v|] == t[1..1 + |v|];
    CiPrefixShift(a, t, 1 + |v|, "'");
  }

  lemma FitsNumberPart(v: string, rest: string)
    requires v != [] && forall k :: 0 <= k < |v| ==> InClass(v[k], NumberChar)
    requires rest == [] || !InClass(rest[0], NumberChar)
    ensures FitsNumberAt(v + rest, 0, v)
  {
    var t := v + rest;
    assert t[0..|v|] == v;
    assert |v| < |t| ==> t[|v|] == rest[0];
    RunOver(t, 0, v, NumberChar);
  }

  lemma FitsNumberShift(a: string, t: string, v: string)
    requires FitsNumberAt(t, 0, v)
    ensures FitsNumberAt(a + t, |a|, v)
  {
    assert (a + t)[|a|] == t[0];
    RunEndShift(a, t, 0, NumberChar);
    assert (a + t)[|a|..|a| + |v|] == t[0..|v|];
  }

  /** The FITS choice reads a quoted string through its first branch. */
  lemma FitsStringChoice(s: string, p: nat, v: string)
    requires FitsQuotedAt(s, p, v)
    ensures Interp(FitsRest[3..], s, p) == Some(Tail(p + 2 + |v|, [Some(v), None]))
  {
    FitsQuotedReads(s, p, v);
    FitsChoiceAt();
    QuotedChoice(s, p, p + 2 + |v|, FitsRest[3..], [Some(v)]);
    assert [Some(v)] + [None] == [Some(v), None];
  }

  /** The FITS choice reads a number through its second branch. */
  lemma FitsNumberChoice(s: string, p: nat, v: string)
    requires FitsNumberAt(s, p, v)
    ensures Interp(FitsRest[3..], s, p) == Some(Tail(p + |v|, [None, Some(v)]))
  {
    FitsQuotedFails(s, p);
    FitsNumberReads(s, p, p + |v|);
    FitsChoiceAt();
    NumberChoice(s, p, p + |v|, FitsRest[3..], [Some(v)]);
    assert [None] + [Some(v)] == [None, Some(v)];
  }

  /** The FITS choice, its first branch read. */
  lemma QuotedChoice(s: string, p: nat, e: nat, ps: seq<Piece>, g: seq<Option<string>>)
    requires p <= e <= |s| && ps == [Either(FitsQuoted, FitsNumber)]
    requires Interp(FitsQuoted, s, p) == Some(Tail(e, g))
    ensures Interp(ps, s, p) == Some(Tail(e, g + [None]))
  {
    FitsBranchGroups();
    assert g + Absent(Captures(FitsNumber)) + [] == g + [None];
    Done(ps[1..], s, e);
    EitherFirst(ps, s, p, FitsQuoted, FitsNumber, Tail(e, g), Tail(e, []));
  }

  /** The FITS choice, its second branch read. */
  lemma NumberChoice(s: string, p: nat, e: nat, ps: seq<Piece>, g: seq<Option<string>>)
    requires p <= e <= |s| && ps == [Either(FitsQuoted, FitsNumber)]
    requires Interp(FitsQuoted, s, p).None? && Interp(FitsNumber, s, p) == Some(Tail(e, g))
    ensures Interp(ps, s, p) == Some(Tail(e, [None] + g))
  {
    FitsBranchGroups();
    assert Absent(Captures(FitsQuoted)) + g + [] == [None] + g;
    Done(ps[1..], s, e);
    EitherSecond(ps, s, p, FitsQuoted, FitsNumber, Tail(e, g), Tail(e, []));
  }

  /** A FITS record for `key` at the start of `s`: the key, then a character
      that cannot continue a key. */
  predicate FitsKeyAt(s: string, key: string) {
    |key| < |s| && s[..|key|] == key && !KeyChar(UpperChar(s[|key|]))
  }

  lemma FitsKeyFacts(key: string, w: string)
    requires w != [] && (IsSpace(w[0]) || w[0] == '=')
    ensures FitsKeyAt(key + w, key)
  {
    assert (key + w)[..|key|] == key && (key + w)[|key|] == w[0];
  }

  /** A key of the list, verbatim at the start of `s`, whose rest reads `t`:
      what `extract_val` makes of `t` is the lookup's value. */
  lemma FitsRecordFound(f: Field, n: nat, s: string, t: Tail, v: string)
    requires n < |Synonyms(f)| && FitsKeyAt(s, Synonyms(f)[n])
    requires Interp(FitsRest, s, |Synonyms(f)[n]|) == Some(t)
    requires ExtractVal(Some(Match(0, t.end, t.groups))) == Some(v)
    ensures Lookup(Fits, f, s) == Some(v)
  {
    var key := Synonyms(f)[n];
    assert s[0..|key|] == key;
    SynonymsWellFormed(f);
    FieldRestRejectsKeyChars(Fits, f, s);
    Done([], s, 0);
    RecordFound(FieldPattern(Fits, f), n, s, 0, t, v);
  }

  /** Where the key, the blanks, the `=` and the value of a FITS record stand,
      given where they stand in the record with the key taken off. */
  lemma FitsOpenCard(s: string, key: string, sp1: string, sp2: string, t: string)
    requires AllSpace(sp1) && AllSpace(sp2) && t != [] && !IsSpace(t[0])
    requires s == FitsHead(key, sp1, sp2) + t
    ensures |FitsHead(key, sp1, sp2)| == |key| + |sp1| + 1 + |sp2|
    ensures FitsKeyAt(s, key) && FitsOpenFacts(s, |key|, |key| + |sp1|, |key| + |sp1| + 1 + |sp2|)
  {
    var w := sp1 + ("=" + (sp2 + t));
    FitsHeadSplit(key, sp1, sp2, t);
    assert sp1 != [] ==> w[0] == sp1[0];
    FitsKeyFacts(key, w);
    FitsOpenPart(sp1, sp2, t);
    FitsOpenFactsShift(key, w, |sp1|, |sp1| + 1 + |sp2|);
  }

  lemma FitsHeadSplit(key: string, sp1: string, sp2: string, t: string)
    ensures FitsHead(key, sp1, sp2) + t == key + (sp1 + ("=" + (sp2 + t)))
    ensures |FitsHead(key, sp1, sp2)| == |key| + |sp1| + 1 + |sp2|
  {
  }

  /** A FITS string record for `key` at the start of `s`, its `=` at `e` and
      its value at `p`. */
  predicate FitsStringRecord(s: string, key: string, e: nat, p: nat, v: string) {
    FitsKeyAt(s, key) && FitsOpenFacts(s, |key|, e, p) && FitsQuotedAt(s, p, v)
  }

  /** A FITS number record for `key` at the start of `s`, its `=` at `e` and
      its value at `p`. */
  predicate FitsNumberRecord(s: string, key: string, e: nat, p: nat, v: string) {
    FitsKeyAt(s, key) && FitsOpenFacts(s, |key|, e, p) && FitsNumberAt(s, p, v)
  }

  lemma FitsStringCardFacts(s: string, key: string, sp1: string, sp2: string, v: string, rest: string)
    requires AllSpace(sp1) && AllSpace(sp2) && '\'' !in v
    requires s == FitsStringCard(key, sp1, sp2, v) + rest
    ensures FitsStringRecord(s, key, |key| + |sp1|, |key| + |sp1| + 1 + |sp2|, v)
  {
    var t := FitsQuote(v) + rest;
    var a := FitsHead(key, sp1, sp2);
    assert s == a + t;
    FitsOpenCard(s, key, sp1, sp2, t);
    FitsQuotedPart(v, rest);
    FitsQuotedShift(a, t, v);
  }

  lemma FitsStringRecordFound(f: Field, n: nat, s: string, e: nat, p: nat, v: string)
    requires n < |Synonyms(f)| && FitsStringRecord(s, Synonyms(f)[n], e, p, v) && Unquoted(v)
    ensures Lookup(Fits, f, s) == Some(v)
  {
    var t := Tail(p + 2 + |v|, [Some(v), None]);
    FitsStringChoice(s, p, v);
    FitsRestReadsAt(s, |Synonyms(f)[n]|, e, p, t);
    ExtractFirstGroup(Match(0, t.end, t.groups), v);
    FitsRecordFound(f, n, s, t, v);
  }

  /** The search finds the string of a FITS record `KEY = 'v'` whose key is the
      `n`-th synonym of the field, whatever blanks stand around the `=` and
      whatever follows the record. */
  lemma FitsStringCardFound(f: Field, n: nat, sp1: string, sp2: string, v: string, rest: string)
    requires n < |Synonyms(f)|
    requires AllSpace(sp1) && AllSpace(sp2)
    requires Unquoted(v) && '\'' !in v
    ensures Lookup(Fits, f, FitsStringCard(Synonyms(f)[n], sp1, sp2, v) + rest) == Some(v)
  {
    var key := Synonyms(f)[n];
    var e := |key| + |sp1|;
    var p := e + 1 + |sp2|;
    var s := FitsStringCard(key, sp1, sp2, v) + rest;
    FitsStringCardFacts(s, key, sp1, sp2, v, rest);
    FitsStringRecordFound(f, n, s, e, p, v);
  }

  lemma FitsNumberCardFacts(s: string, key: string, sp1: string, sp2: string, v: string, rest: string)
    requires AllSpace(sp1) && AllSpace(sp2)
    requires v != [] && forall k :: 0 <= k < |v| ==> InClass(v[k], NumberChar)
    requires rest == [] || !InClass(rest[0], NumberChar)
    requires s == FitsNumberCard(key, sp1, sp2, v) + rest
    ensures FitsNumberRecord(s, key, |key| + |sp1|, |key| + |sp1| + 1 + |sp2|, v)
  {
    var t := v + rest;
    var a := FitsHead(key, sp1, sp2);
    assert s == a + t;
    assert t[0] == v[0] && InClass(v[0], NumberChar);
    FitsOpenCard(s, key, sp1, sp2, t);
    FitsNumberPart(v, rest);
    FitsNumberShift(a, t, v);
  }

  lemma FitsNumberRecordFound(f: Field, n: nat, s: string, e: nat, p: nat, v: string)
    requires n < |Synonyms(f)| && FitsNumberRecord(s, Synonyms(f)[n], e, p, v) && Unquoted(v)
    ensures Lookup(Fits, f, s) == Some(v)
  {
    var t := Tail(p + |v|, [None, Some(v)]);
    FitsNumberChoice(s, p, v);
    FitsRestReadsAt(s, |Synonyms(f)[n]|, e, p, t);
    ExtractSecondGroup(Match(0, t.end, t.groups), v);
    FitsRecordFound(f, n, s, t, v);
  }

  /** The search finds the number of a FITS record `KEY = v` whose key is the
      `n`-th synonym of the field, whatever blanks stand around the `=`, when
      the number is not followed by another number character. */
  lemma FitsNumberCardFound(f: Field, n: nat, sp1: string, sp2: string, v: string, rest: string)
    requires n < |Synonyms(f)|
    requires AllSpace(sp1) && AllSpace(sp2)
    requires v != [] && forall k :: 0 <= k < |v| ==> InClass(v[k], NumberChar)
    requires rest == [] || !InClass(rest[0], NumberChar)
    ensures Lookup(Fits, f, FitsNumberCard(Synonyms(f)[n], sp1, sp2, v) + rest) == Some(v)
  {
    var key := Synonyms(f)[n];
    var e := |key| + |sp1|;
    var p := e + 1 + |sp2|;
    var s := FitsNumberCard(key, sp1, sp2, v) + rest;
    assert InClass(v[0], NumberChar) && InClass(v[|v| - 1], NumberChar);
    FitsNumberCardFacts(s, key, sp1, sp2, v, rest);
    FitsNumberRecordFound(f, n, s, e, p, v);
  }

  /** No search match starts inside `pre`, in the header `pre + s`. */
  ghost predicate NoEarlierMatch(d: Dialect, f: Field, pre: string, s: string) {
    forall j :: 0 <= j < |pre| ==> MatchAt(FieldPattern(d, f), pre + s, j).None?
  }

  /** An XISF element after other header text, where the search finds nothing
      earlier, is found. */
  lemma XisfCardAfter(f: Field, n: nat, v: string, pre: string, rest: string)
    requires n < |Synonyms(f)|
    requires Unquoted(v) && '"' !in v
    requires NoEarlierMatch(Xisf, f, pre, XisfCard(Synonyms(f)[n], v) + rest)
    ensures Lookup(Xisf, f, pre + XisfCard(Synonyms(f)[n], v) + rest) == Some(v)
  {
    var c := XisfCard(Synonyms(f)[n], v) + rest;
    assert pre + XisfCard(Synonyms(f)[n], v) + rest == pre + c;
    LookupPast(Xisf, f, pre, c);
    XisfCardFound(f, n, v, rest);
  }

  /** An XISF element that keeps the FITS quotes, after other header text
      where the search finds nothing earlier, gives the unquoted value. */
  lemma XisfQuotedCardAfter(f: Field, n: nat, v: string, pre: string, rest: string)
    requires n < |Synonyms(f)|
    requires Unquoted(v) && '"' !in v
    requires NoEarlierMatch(Xisf, f, pre, XisfCard(Synonyms(f)[n], FitsQuote(v)) + rest)
    ensures Lookup(Xisf, f, pre + XisfCard(Synonyms(f)[n], FitsQuote(v)) + rest) == Some(v)
  {
    var c := XisfCard(Synonyms(f)[n], FitsQuote(v)) + rest;
    assert pre + XisfCard(Synonyms(f)[n], FitsQuote(v)) + rest == pre + c;
    LookupPast(Xisf, f, pre, c);
    XisfQuotedCardFound(f, n, v, rest);
  }

  /** Text without a `<` holds no XISF element, so an element after it is found. */
  lemma XisfCardAfterText(f: Field, n: nat, v: string, pre: string, rest: string)
    requires n < |Synonyms(f)|
    requires Unquoted(v) && '"' !in v && '<' !in pre
    ensures Lookup(Xisf, f, pre + XisfCard(Synonyms(f)[n], v) + rest) == Some(v)
  {
    XisfNoOpen(f, pre, XisfCard(Synonyms(f)[n], v) + rest);
    XisfCardAfter(f, n, v, pre, rest);
  }

  /** A FITS string record after other header text, where the search finds
      nothing earlier, is found. */
  lemma FitsStringCardAfter(f: Field, n: nat, sp1: string, sp2: string, v: string, pre: string, rest: string)
    requires n < |Synonyms(f)|
    requires AllSpace(sp1) && AllSpace(sp2)
    requires Unquoted(v) && '\'' !in v
    requires NoEarlierMatch(Fits, f, pre, FitsStringCard(Synonyms(f)[n], sp1, sp2, v) + rest)
    ensures Lookup(Fits, f, pre + FitsStringCard(Synonyms(f)[n], sp1, sp2, v) + rest) == Some(v)
  {
    var c := FitsStringCard(Synonyms(f)[n], sp1, sp2, v) + rest;
    assert pre + FitsStringCard(Synonyms(f)[n], sp1, sp2, v) + rest == pre + c;
    LookupPast(Fits, f, pre, c);
    FitsStringCardFound(f, n, sp1, sp2, v, rest);
  }

  /** A FITS number record after other header text, where the search finds
      nothing earlier, is found. */
  lemma FitsNumberCardAfter(f: Field, n: nat, sp1: string, sp2: string, v: string, pre: string, rest: string)
    requires n < |Synonyms(f)|
    requires AllSpace(sp1) && AllSpace(sp2)
    requires v != [] && forall k :: 0 <= k < |v| ==> InClass(v[k], NumberChar)
    requires rest == [] || !InClass(rest[0], NumberChar)
    requires NoEarlierMatch(Fits, f, pre, FitsNumberCard(Synonyms(f)[n], sp1, sp2, v) + rest)
    ensures Lookup(Fits, f, pre + FitsNumberCard(Synonyms(f)[n], sp1, sp2, v) + rest) == Some(v)
  {
    var c := FitsNumberCard(Synonyms(f)[n], sp1, sp2, v) + rest;
    assert pre + FitsNumberCard(Synonyms(f)[n], sp1, sp2, v) + rest == pre + c;
    LookupPast(Fits, f, pre, c);
    FitsNumberCardFound(f, n, sp1, sp2, v, rest);
  }

  /** A string written as XISF writes it, keeping the FITS quotes, and as a FITS
      string record, each after header text where its search finds nothing
      earlier, is found alike in both dialects. */
  lemma DialectsAgree(f: Field, n: nat, v: string, pre1: string, rest1: string,
                      sp1: string, sp2: string, pre2: string, rest2: string)
    requires n < |Synonyms(f)|
    requires Unquoted(v) && '"' !in v && '\'' !in v
    requires AllSpace(sp1) && AllSpace(sp2)
    requires NoEarlierMatch(Xisf, f, pre1, XisfCard(Synonyms(f)[n], FitsQuote(v)) + rest1)
    requires NoEarlierMatch(Fits, f, pre2, FitsStringCard(Synonyms(f)[n], sp1, sp2, v) + rest2)
    ensures Lookup(Xisf, f, pre1 + XisfCard(Synonyms(f)[n], FitsQuote(v)) + rest1)
         == Lookup(Fits, f, pre2 + FitsStringCard(Synonyms(f)[n], sp1, sp2, v) + rest2)
         == Some(v)
  {
    XisfQuotedCardAfter(f, n, v, pre1, rest1);
    FitsStringCardAfter(f, n, sp1, sp2, v, pre2, rest2);
  }

  /** A number written bare as an XISF value and as a FITS number record, each
      after header text where its search finds nothing earlier, is found alike
      in both dialects. */
  lemma NumbersAgree(f: Field, n: nat, v: string, pre1: string, rest1: string,
                     sp1: string, sp2: string, pre2: string, rest2: string)
    requires n < |Synonyms(f)|
    requires v != [] && forall k :: 0 <= k < |v| ==> InClass(v[k], NumberChar)
    requires AllSpace(sp1) && AllSpace(sp2)
    requires rest2 == [] || !InClass(rest2[0], NumberChar)
    requires NoEarlierMatch(Xisf, f, pre1, XisfCard(Synonyms(f)[n], v) + rest1)
    requires NoEarlierMatch(Fits, f, pre2, FitsNumberCard(Synonyms(f)[n], sp1, sp2, v) + rest2)
    ensures Lookup(Xisf, f, pre1 + XisfCard(Synonyms(f)[n], v) + rest1)
         == Lookup(Fits, f, pre2 + FitsNumberCard(Synonyms(f)[n], sp1, sp2, v) + rest2)
         == Some(v)
  {
    assert InClass(v[0], NumberChar) && InClass(v[|v| - 1], NumberChar);
    assert '"' !in v by {
      forall k | 0 <= k < |v| ensures v[k] != '"' {
        assert InClass(v[k], NumberChar);
      }
    }
    XisfCardAfter(f, n, v, pre1, rest1);
    FitsNumberCardAfter(f, n, sp1, sp2, v, pre2, rest2);
  }
}
