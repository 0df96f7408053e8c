/** Finding the registered frames in a processing log: `re.findall` of
    `\[true,\s*"(.*?)"` over the log text, then a set to drop repeats. */
module Discovery {
  import opened Text

  /** The literal that opens an entry for a frame the log accepted. */
  const Marker: string := "[true,"

  /** End of the lazy `(.*?)"` capture started at `i`: the first `"` or line
      break at or after `i`, or the end of the text. */
  function PathEnd(s: string, i: nat): (j: nat)
    requires i <= |s|
    ensures i <= j <= |s|
    ensures forall k :: i <= k < j ==> s[k] != '"' && s[k] != '\n'
    ensures j < |s| ==> s[j] == '"' || s[j] == '\n'
    decreases |s| - i
  {
    if i == |s| || s[i] == '"' || s[i] == '\n' then i else PathEnd(s, i + 1)
  }

  /** An entry found at some position: where the match ends and the captured path. */
  datatype Found = Found(end: nat, path: string)

  /** The pattern tried at the start of `s`. The spaces are greedy, but giving
      any back only puts a space where the `"` is needed, so the match is
      decided by the first character after them. */
  function EntryAt(s: string): (r: Option<Found>)
    ensures r.Some? ==> 0 < r.value.end <= |s|
  {
    if !(Marker <= s) then None
    else QuotedAt(s, RunEnd(s, |Marker|, Space))
  }

  /** `"(.*?)"` at position `q`: the lazy capture stops at the first `"`, and
      fails if a line break or the end of the text comes first. */
  function QuotedAt(s: string, q: nat): (r: Option<Found>)
    requires q <= |s|
    ensures r.Some? ==> q < r.value.end <= |s|
  {
    if q == |s| || s[q] != '"' then None
    else
      var e := PathEnd(s, q + 1);
      if e == |s| || s[e] != '"' then None
      else Some(Found(e + 1, s[q + 1..e]))
  }

  /** `re.findall`: the pattern has no look-behind, so the scan is a walk along
      ever shorter suffixes. After a match it resumes where the match ended,
      otherwise one character further on. */
  function FindAll(s: string): seq<string>
    decreases |s|
  {
    if s == [] then []
    else match EntryAt(s)
      case Some(f) => [f.path] + FindAll(s[f.end..])
      case None => FindAll(s[1..])
  }

  /** `set(findall(...))`: the candidate paths of a log, each once. */
  function Discover(log: string): (paths: set<string>)
    ensures |paths| <= |FindAll(log)|
    ensures forall p :: p in paths <==> p in FindAll(log)
  {
    CardOfSet(FindAll(log));
    set p | p in FindAll(log)
  }

  lemma {:induction false} CardOfSet(ps: seq<string>)
    ensures |set p | p in ps| <= |ps|
  {
    if ps != [] {
      CardOfSet(ps[1..]);
      assert (set p | p in ps) == (set p | p in ps[1..]) + {ps[0]};
    }
  }

  // ---------------------------------------------------------------------------
  // Entries as a log writes them.
  // ---------------------------------------------------------------------------

  /** A path as it can stand between quotes in the log. */
  predicate PlainPath(p: string) {
    '"' !in p && '\n' !in p
  }

  /** `[true,` + whitespace + `"` + path + `"`. */
  function Entry(sp: string, p: string): string {
    Marker + sp + "\"" + p + "\""
  }

  /** `[false,` + whitespace + `"` + path + `"`. */
  function Rejected(sp: string, p: string): string {
    "[false," + sp + "\"" + p + "\""
  }

  /** The entry for `p` with `sp` between comma and quote sits at `j` in `s`. */
  predicate EntryText(s: string, j: nat, sp: string, p: string) {
    j + |Entry(sp, p)| <= |s| && s[j..j + |Entry(sp, p)|] == Entry(sp, p) && AllSpace(sp)
  }

  // ---------------------------------------------------------------------------
  // Soundness: every path found is written in the log as an accepted entry.
  // ---------------------------------------------------------------------------

  lemma QuotedSound(s: string, q: nat, f: Found)
    requires q <= |s| && QuotedAt(s, q) == Some(f)
    ensures PlainPath(f.path)
    ensures s[q..f.end] == "\"" + f.path + "\""
  {
    var e := PathEnd(s, q + 1);
    assert s[q..f.end] == [s[q]] + s[q + 1..e] + [s[e]];
  }

  lemma EntryAtSound(s: string, f: Found)
    requires EntryAt(s) == Some(f)
    ensures PlainPath(f.path)
    ensures exists sp :: EntryText(s, 0, sp, f.path)
  {
    var q := RunEnd(s, |Marker|, Space);
    QuotedSound(s, q, f);
    var sp := s[|Marker|..q];
    assert AllSpace(sp) by {
      forall k | 0 <= k < |sp| ensures IsSpace(sp[k]) {
        assert sp[k] == s[|Marker| + k];
      }
    }
    assert s[0..f.end] == Entry(sp, f.path) by {
      assert s[..|Marker|] == Marker;
      assert s[0..f.end] == s[..|Marker|] + sp + s[q..f.end];
    }
    assert EntryText(s, 0, sp, f.path);
  }

  /** An entry written in a suffix of the log is written in the log. */
  lemma EntryTextSuffix(s: string, n: nat, j: nat, sp: string, p: string)
    requires n <= |s| && EntryText(s[n..], j, sp, p)
    ensures EntryText(s, n + j, sp, p)
  {
    assert s[n..][j..j + |Entry(sp, p)|] == s[n + j..n + j + |Entry(sp, p)|];
  }

  lemma {:induction false} FoundSound(s: string, p: string)
    requires p in FindAll(s)
    ensures PlainPath(p)
    ensures exists j: nat, sp :: EntryText(s, j, sp, p)
    decreases |s|
  {
    var r := EntryAt(s);
    if r.Some? && p == r.value.path {
      EntryAtSound(s, r.value);
    } else {
      var n: nat := if r.Some? then r.value.end else 1;
      assert p in FindAll(s[n..]);
      FoundSound(s[n..], p);
      var j: nat, sp :| EntryText(s[n..], j, sp, p);
      EntryTextSuffix(s, n, j, sp, p);
    }
  }

  /** Every candidate holds no `"` and no line break, and is written in the
      log after `[true,`, optional whitespace and a `"`, and before a `"`. */
  lemma Sound(log: string, p: string)
    requires p in Discover(log)
    ensures PlainPath(p)
    ensures exists j: nat, sp :: EntryText(log, j, sp, p)
  {
    FoundSound(log, p);
  }

  // ---------------------------------------------------------------------------
  // Accepted entries are found, rejected ones are not.
  // ---------------------------------------------------------------------------

  /** The pattern reads an accepted entry back at its start. */
  lemma EntryRead(sp: string, p: string, rest: string)
    requires AllSpace(sp) && PlainPath(p)
    ensures EntryAt(Entry(sp, p) + rest) == Some(Found(|Entry(sp, p)|, p))
  {
    var s := Entry(sp, p) + rest;
    var w := "\"" + p + "\"" + rest;
    assert s == Marker + sp + w;
    SpacesRead(Marker, sp, w);
    QuotedRead(Marker + sp, p, rest);
  }

  /** Spaces after the marker run up to the next character that is not one. */
  lemma SpacesRead(m: string, sp: string, w: string)
    requires AllSpace(sp) && w != [] && w[0] == '"'
    ensures RunEnd(m + sp + w, |m|, Space) == |m| + |sp|
  {
    var s := m + sp + w;
    assert forall k :: |m| <= k < |m| + |sp| ==> s[k] == sp[k - |m|];
    assert s[|m| + |sp|] == w[0];
    RunEndAt(s, |m|, |m| + |sp|, Space);
  }

  /** A quoted plain path is captured whole. */
  lemma QuotedRead(a: string, p: string, rest: string)
    requires PlainPath(p)
    ensures QuotedAt(a + ("\"" + p + "\"" + rest), |a|) == Some(Found(|a| + |p| + 2, p))
  {
    var w := "\"" + p + "\"" + rest;
    var s := a + w;
    var e := |a| + 1 + |p|;
    assert forall k :: |a| + 1 <= k < e ==> s[k] == p[k - |a| - 1];
    assert s[|a|] == '"' && s[e] == '"';
    PathEndAt(s, |a| + 1, e);
    assert s[|a| + 1..e] == p;
  }

  lemma {:induction false} PathEndAt(s: string, i: nat, j: nat)
    requires i <= j <= |s|
    requires forall k :: i <= k < j ==> s[k] != '"' && s[k] != '\n'
    requires j < |s| ==> s[j] == '"' || s[j] == '\n'
    ensures PathEnd(s, i) == j
    decreases j - i
  {
    if i < j {
      PathEndAt(s, i + 1, j);
    }
  }

  /** An accepted entry at the front of a log contributes its path, and the
      scan goes on after it. */
  lemma FindEntry(sp: string, p: string, rest: string)
    requires AllSpace(sp) && PlainPath(p)
    ensures FindAll(Entry(sp, p) + rest) == [p] + FindAll(rest)
  {
    EntryRead(sp, p, rest);
    assert (Entry(sp, p) + rest)[|Entry(sp, p)|..] == rest;
  }

  /** No entry starts with a character other than `[`. */
  lemma NoBracket(s: string)
    requires s != [] && s[0] != '['
    ensures EntryAt(s).None?
  {
  }

  /** From any position inside a rejected entry other than its first, the scan
      finds nothing before the text that follows the entry. */
  lemma {:induction false} RejectedTail(sp: string, p: string, k: nat, rest: string)
    requires '[' !in sp && !Contains(p, Marker)
    requires 0 < k <= |Rejected(sp, p)|
    ensures FindAll(Rejected(sp, p)[k..] + rest) == FindAll(rest)
    decreases |Rejected(sp, p)| - k
  {
    var r := Rejected(sp, p);
    if k < |r| {
      var s := r[k..] + rest;
      RejectedInside(sp, p, k, rest);
      assert s[1..] == r[k + 1..] + rest;
      RejectedTail(sp, p, k + 1, rest);
    } else {
      assert r[k..] + rest == rest;
    }
  }

  /** A rejected entry contributes nothing, unless an accepted marker is
      written inside its path. */
  lemma RejectedNothing(sp: string, p: string, rest: string)
    requires '[' !in sp && !Contains(p, Marker)
    ensures FindAll(Rejected(sp, p) + rest) == FindAll(rest)
  {
    var r := Rejected(sp, p);
    var s := r + rest;
    assert s[1] == 'f';
    assert EntryAt(s).None?;
    assert s[1..] == r[1..] + rest;
    RejectedTail(sp, p, 1, rest);
  }

  /** No entry starts inside a rejected entry after its first character. */
  lemma RejectedInside(sp: string, p: string, k: nat, rest: string)
    requires '[' !in sp && !Contains(p, Marker)
    requires 0 < k < |Rejected(sp, p)|
    ensures EntryAt(Rejected(sp, p)[k..] + rest).None?
  {
    var r := Rejected(sp, p);
    var s := r[k..] + rest;
    assert s[0] == r[k];
    if k < 7 {
      assert r[k] == "[false,"[k];
      NoBracket(s);
    } else if k < 7 + |sp| {
      assert r[k] == sp[k - 7];
      NoBracket(s);
    } else if k < 8 + |sp| + |p| && k != 7 + |sp| {
      var i := k - 8 - |sp|;
      assert r[k..] == p[i..] + "\"";
      assert s == p[i..] + ("\"" + rest);
      MarkerInPath(p, i, "\"" + rest);
    } else {
      assert r[k] == '"';
      NoBracket(s);
    }
  }

  /** The marker holds no `"`, so one that starts inside a quoted path lies
      wholly inside it. */
  lemma MarkerInPath(p: string, i: nat, w: string)
    requires i < |p| && !Contains(p, Marker) && w != [] && w[0] == '"'
    ensures EntryAt(p[i..] + w).None?
  {
    var s := p[i..] + w;
    if |p| - i >= |Marker| {
      ContainsAt(p, Marker);
      assert !(Marker <= p[i..]);
      assert s[..|Marker|] == p[i..][..|Marker|];
    } else {
      QuoteStopsMarker(s, |p| - i);
    }
  }

  /** A `"` within the marker's length of the start rules the marker out. */
  lemma QuoteStopsMarker(s: string, n: nat)
    requires n < |Marker| && n < |s| && s[n] == '"'
    ensures !(Marker <= s)
  {
    assert Marker[n] != '"';
  }

  /** Text without a `[` adds nothing to the scan of what follows it. */
  lemma {:induction false} NoOpenText(t: string, rest: string)
    requires '[' !in t
    ensures FindAll(t + rest) == FindAll(rest)
    decreases |t|
  {
    if t == [] {
      assert t + rest == rest;
    } else {
      var s := t + rest;
      assert s[0] == t[0] && t[0] in t;
      NoBracket(s);
      assert s[1..] == t[1..] + rest;
      assert FindAll(s) == FindAll(s[1..]);
      NoOpenText(t[1..], rest);
    }
  }

  /** A log made of accepted entries, one per line, each closed by `]` as the
      JSON-like list it comes from, with a single space after each comma. */
  function Log(ps: seq<string>): string {
    if ps == [] then [] else Entry(" ", ps[0]) + ("]\n" + Log(ps[1..]))
  }

  /** Writing a list of paths as accepted entries and scanning the log gives the
      list back, in order and with its repeats. */
  lemma {:induction false} LogRoundTrip(ps: seq<string>)
    requires forall k :: 0 <= k < |ps| ==> PlainPath(ps[k])
    ensures FindAll(Log(ps)) == ps
  {
    if ps != [] {
      assert AllSpace(" ");
      FindEntry(" ", ps[0], "]\n" + Log(ps[1..]));
      NoOpenText("]\n", Log(ps[1..]));
      LogRoundTrip(ps[1..]);
    }
  }

  /** The candidates of such a log are the listed paths, each once. */
  lemma Dedup(ps: seq<string>)
    requires forall k :: 0 <= k < |ps| ==> PlainPath(ps[k])
    ensures Discover(Log(ps)) == set p | p in ps
  {
    LogRoundTrip(ps);
  }

  /** A path accepted twice is one candidate. */
  lemma Twice(p: string)
    requires PlainPath(p)
    ensures Discover(Log([p, p])) == {p}
  {
    Dedup([p, p]);
  }

  /** A log with no accepted entry has no candidates. */
  lemma NoEntries(log: string)
    requires !Contains(log, Marker)
    ensures Discover(log) == {}
  {
    if Discover(log) != {} {
      var p :| p in Discover(log);
      HasMarker(log, p);
    }
  }

  /** Every candidate comes with an accepted entry in the log. */
  lemma HasMarker(log: string, p: string)
    requires p in Discover(log)
    ensures Contains(log, Marker)
  {
    Sound(log, p);
    var j: nat, sp :| EntryText(log, j, sp, p);
    assert log[j..j + |Entry(sp, p)|][..|Marker|] == Marker;
    assert Marker <= log[j..];
    ContainsAt(log, Marker);
  }
}
