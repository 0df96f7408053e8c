/** Character and string helpers shared by the header scanners and the log scanner:
    Python's notion of whitespace, maximal runs, ASCII case folding, substring
    search, `str.strip(c)` and `str.split(c)[0]`. */
module Text {

  datatype Option<+T> = None | Some(value: T)

  /** Python's `\s` for str patterns (the characters `str.isspace()` accepts). */
  predicate IsSpace(c: char) {
    || '\t' <= c <= '\r'
    || '\U{1C}' <= c <= ' '
    || c == '\U{85}' || c == '\U{A0}' || c == '\U{1680}'
    || '\U{2000}' <= c <= '\U{200A}'
    || c == '\U{2028}' || c == '\U{2029}' || c == '\U{202F}' || c == '\U{205F}' || c == '\U{3000}'
  }

  /** Text that `\s*` reads whole. */
  predicate AllSpace(sp: string) {
    forall k :: 0 <= k < |sp| ==> IsSpace(sp[k])
  }

  /** The character classes the patterns repeat: `\s`, `[0-9.-]` and `[^c]`. */
  datatype CharClass = Space | NumberChar | Except(c: char)

  predicate InClass(c: char, k: CharClass) {
    match k
    case Space => IsSpace(c)
    case NumberChar => '0' <= c <= '9' || c == '.' || c == '-'
    case Except(x) => c != x
  }

  /** End of the maximal run of characters of class `p` that starts at `i`:
      what a greedy `p*` consumes from position `i`. */
  function RunEnd(s: string, i: nat, p: CharClass): (j: nat)
    requires i <= |s|
    ensures i <= j <= |s|
    ensures forall k :: i <= k < j ==> InClass(s[k], p)
    ensures j < |s| ==> !InClass(s[j], p)
    decreases |s| - i
  {
    if i == |s| || !InClass(s[i], p) then i else RunEnd(s, i + 1, p)
  }

  /** A run only looks forward: prepending text shifts its end and nothing else. */
  lemma {:induction false} RunEndShift(a: string, b: string, i: nat, p: CharClass)
    requires i <= |b|
    ensures RunEnd(a + b, |a| + i, p) == |a| + RunEnd(b, i, p)
    decreases |b| - i
  {
    if i < |b| {
      assert (a + b)[|a| + i] == b[i];
      if InClass(b[i], p) {
        RunEndShift(a, b, i + 1, p);
      }
    }
  }

  /** A run that stops where `p` first fails. */
  lemma {:induction false} RunEndAt(s: string, i: nat, j: nat, p: CharClass)
    requires i <= j <= |s|
    requires forall k :: i <= k < j ==> InClass(s[k], p)
    requires j < |s| ==> !InClass(s[j], p)
    ensures RunEnd(s, i, p) == j
    decreases j - i
  {
    if i < j {
      RunEndAt(s, i + 1, j, p);
    }
  }

  function UpperChar(c: char): (u: char)
    ensures 'a' <= c <= 'z' ==> 'A' <= u <= 'Z' && u as int == c as int - 32
    ensures !('a' <= c <= 'z') ==> u == c
  {
    if 'a' <= c <= 'z' then (c as int - 32) as char else c
  }

  /** ASCII upper-casing, character by character. */
  function Upper(s: string): (u: string)
    ensures |u| == |s|
    ensures forall k :: 0 <= k < |s| ==> u[k] == UpperChar(s[k])
  {
    seq(|s|, k requires 0 <= k < |s| => UpperChar(s[k]))
  }

  /** The word `w` occurs at position `i` of `s`, ASCII case folded. */
  predicate CiPrefixAt(s: string, i: nat, w: string) {
    CiSuffixAt(s, i, w, 0)
  }

  /** Characters `k..` of `w` occur at positions `i + k..` of `s`, ASCII case folded. */
  predicate CiSuffixAt(s: string, i: nat, w: string, k: nat)
    decreases |w| - k
  {
    if k >= |w| then i + |w| <= |s|
    else i + k < |s| && UpperChar(s[i + k]) == UpperChar(w[k]) && CiSuffixAt(s, i, w, k + 1)
  }

  lemma {:induction false} CiSuffixAtIff(s: string, i: nat, w: string, k: nat)
    requires k <= |w|
    ensures CiSuffixAt(s, i, w, k) <==>
              i + |w| <= |s| && forall j :: k <= j < |w| ==> UpperChar(s[i + j]) == UpperChar(w[j])
    decreases |w| - k
  {
    if k < |w| {
      CiSuffixAtIff(s, i, w, k + 1);
    }
  }

  /** `CiPrefixAt` compares the word with the text character by character. */
  lemma CiPrefixAtIff(s: string, i: nat, w: string)
    ensures CiPrefixAt(s, i, w) <==>
              i + |w| <= |s| && forall j :: 0 <= j < |w| ==> UpperChar(s[i + j]) == UpperChar(w[j])
  {
    CiSuffixAtIff(s, i, w, 0);
  }

  /** A word is found at the start of any text it begins. */
  lemma CiPrefixOwn(w: string, t: string)
    ensures CiPrefixAt(w + t, 0, w)
  {
    CiPrefixAtIff(w + t, 0, w);
    assert forall j :: 0 <= j < |w| ==> (w + t)[j] == w[j];
  }

  /** Prepending text shifts where a word is found and nothing else. */
  lemma CiPrefixShift(a: string, b: string, i: nat, w: string)
    ensures CiPrefixAt(a + b, |a| + i, w) <==> CiPrefixAt(b, i, w)
  {
    CiPrefixAtIff(a + b, |a| + i, w);
    CiPrefixAtIff(b, i, w);
    assert forall k :: 0 <= k < |b| ==> (a + b)[|a| + k] == b[k];
  }

  /** Python's `t in s` for strings. */
  predicate Contains(s: string, t: string)
    decreases |s|
  {
    t <= s || (s != [] && Contains(s[1..], t))
  }

  /** `Contains` holds exactly when `t` occurs at some position of `s`. */
  lemma {:induction false} ContainsAt(s: string, t: string)
    ensures Contains(s, t) <==> exists i :: 0 <= i <= |s| && t <= s[i..]
    decreases |s|
  {
    if Contains(s, t) {
      if !(t <= s) {
        ContainsAt(s[1..], t);
        var i :| 0 <= i <= |s[1..]| && t <= s[1..][i..];
        assert s[1..][i..] == s[i + 1..];
      } else {
        assert s[0..] == s;
      }
    }
    if exists i :: 0 <= i <= |s| && t <= s[i..] {
      var i :| 0 <= i <= |s| && t <= s[i..];
      if i == 0 {
        assert s[0..] == s;
      } else {
        assert s[1..][i - 1..] == s[i..];
        ContainsAt(s[1..], t);
      }
    }
  }

  /** How many copies of `c` open `s`. */
  function LeadCount(s: string, c: char): (n: nat)
    ensures n <= |s|
    ensures forall k :: 0 <= k < n ==> s[k] == c
    ensures n < |s| ==> s[n] != c
  {
    if s != [] && s[0] == c then 1 + LeadCount(s[1..], c) else 0
  }

  /** Removes every trailing `c`. */
  function TrimEnd(s: string, c: char): (r: string)
    ensures |r| <= |s| && r == s[..|r|]
    ensures forall k :: |r| <= k < |s| ==> s[k] == c
    ensures r == [] || r[|r| - 1] != c
  {
    if s != [] && s[|s| - 1] == c then TrimEnd(s[..|s| - 1], c) else s
  }

  /** Python's `s.strip(c)` for a single character `c`: the middle part of `s`
      left once every `c` at either end is gone. */
  function Strip(s: string, c: char): (r: string)
    ensures LeadCount(s, c) + |r| <= |s|
    ensures r == s[LeadCount(s, c)..LeadCount(s, c) + |r|]
    ensures forall k :: LeadCount(s, c) + |r| <= k < |s| ==> s[k] == c
    ensures r == [] || (r[0] != c && r[|r| - 1] != c)
  {
    TrimEnd(s[LeadCount(s, c)..], c)
  }

  /** A string without `c` at either end is left alone by `Strip`. */
  lemma StripNoop(s: string, c: char)
    requires s == [] || (s[0] != c && s[|s| - 1] != c)
    ensures Strip(s, c) == s
  {
  }

  /** Python's `s.split(c)[0]`: the part of `s` before its first `c`. */
  function Before(s: string, c: char): (r: string)
    ensures r <= s
    ensures c !in r
    ensures |r| < |s| ==> s[|r|] == c
  {
    s[..RunEnd(s, 0, Except(c))]
  }
}
