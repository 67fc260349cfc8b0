/** How a JavaScript regular expression with the `g` flag walks a text.

    Each pattern of the core is written as a matcher: given the text and a start
    position it returns, if the pattern matches there, where the match ends and what
    it captured, choosing among alternatives in the order the backtracking engine
    tries them. `exec` with `lastIndex` finds the leftmost start at or after
    `lastIndex`; a global scan (an `exec` loop or `matchAll`) resumes at the end of
    each match. */
module JsRegex {
  import opened Wrappers

  type Matcher<G> = (string, nat) -> Option<(nat, G)>

  datatype RegexMatch<G> = RegexMatch(index: nat, end: nat, groups: G)

  /** The first position in `from..|s|` at which `f` succeeds, with its value. Used for
      the leftmost start of a match and for a lazy `*?` that stops at the first place
      where the rest of the pattern matches. */
  function Earliest<T>(f: (string, nat) -> Option<T>, s: string, from: nat): (r: Option<(nat, T)>)
    ensures r.Some? ==> from <= r.value.0 <= |s| && f(s, r.value.0) == Some(r.value.1)
    ensures r.Some? ==> forall q :: from <= q < r.value.0 ==> f(s, q).None?
    ensures r.None? ==> forall q :: from <= q <= |s| ==> f(s, q).None?
    decreases |s| + 1 - from
  {
    if from > |s| then None
    else
      match f(s, from)
      case Some(v) => Some((from, v))
      case None => Earliest(f, s, from + 1)
  }

  /** The first success determines the search. */
  lemma EarliestIs<T>(f: (string, nat) -> Option<T>, s: string, from: nat, p: nat)
    requires from <= p <= |s|
    requires f(s, p).Some?
    requires forall q :: from <= q < p ==> f(s, q).None?
    ensures Earliest(f, s, from) == Some((p, f(s, p).value))
  {
  }

  ghost predicate IsMatch<G>(m: Matcher<G>, s: string, h: RegexMatch<G>)
  {
    m(s, h.index) == Some((h.end, h.groups))
  }

  /** `re.exec(s)` with `re.lastIndex == lastIndex`. */
  function Exec<G>(m: Matcher<G>, s: string, lastIndex: nat): (r: Option<RegexMatch<G>>)
    ensures r.Some? ==> lastIndex <= r.value.index <= |s| && IsMatch(m, s, r.value)
    ensures r.Some? ==> forall q :: lastIndex <= q < r.value.index ==> m(s, q).None?
    ensures r.None? <==> forall q :: lastIndex <= q <= |s| ==> m(s, q).None?
  {
    match Earliest(m, s, lastIndex)
    case None => None
    case Some((p, v)) => Some(RegexMatch(p, v.0, v.1))
  }

  /** Where a global scan continues after a match: its end, or one further when the
      match was empty (the rule of `matchAll`). */
  function Resume<G>(h: RegexMatch<G>): nat
  {
    if h.end > h.index then h.end else h.index + 1
  }

  /** The start a scan had reached before looking for the `i`-th match. */
  function ScanStart<G>(hs: seq<RegexMatch<G>>, from: nat, i: nat): nat
    requires i <= |hs|
  {
    if i == 0 then from else Resume(hs[i - 1])
  }

  /** All matches found by a global scan that starts at `from`; the scan stops when no
      match is left. */
  function AllFrom<G>(m: Matcher<G>, s: string, from: nat): (r: seq<RegexMatch<G>>)
    ensures forall i :: 0 <= i < |r| ==> from <= r[i].index <= |s| && IsMatch(m, s, r[i])
    ensures r == [] <==> forall q :: from <= q <= |s| ==> m(s, q).None?
    decreases |s| + 1 - from
  {
    match Exec(m, s, from)
    case None => []
    case Some(h) => [h] + AllFrom(m, s, Resume(h))
  }

  /** A scan ends where `exec` finds nothing. */
  lemma AllFromNone<G>(m: Matcher<G>, s: string, from: nat)
    requires Exec(m, s, from).None?
    ensures AllFrom(m, s, from) == []
  {
  }

  /** One step of a scan: the match `exec` finds, then the scan from where it resumes. */
  lemma AllFromStep<G>(m: Matcher<G>, s: string, from: nat)
    requires Exec(m, s, from).Some?
    ensures AllFrom(m, s, from) == [Exec(m, s, from).value] + AllFrom(m, s, Resume(Exec(m, s, from).value))
  {
  }

  /** A scan that reaches a position where the pattern matches takes that match. */
  lemma AllFromAt<G>(m: Matcher<G>, s: string, from: nat, end: nat, g: G)
    requires from <= |s| && m(s, from) == Some((end, g))
    ensures AllFrom(m, s, from) == [RegexMatch(from, end, g)] + AllFrom(m, s, Resume(RegexMatch(from, end, g)))
  {
    EarliestIs(m, s, from, from);
    AllFromStep(m, s, from);
  }

  /** A scan whose first match covers the whole text finds only that match. */
  lemma MatchAllWhole<G>(m: Matcher<G>, s: string, g: G)
    requires m(s, 0) == Some((|s|, g))
    requires |s| > 0 && m(s, |s|).None?
    ensures MatchAll(m, s) == [RegexMatch(0, |s|, g)]
  {
    var h := RegexMatch(0, |s|, g);
    assert Exec(m, s, 0) == Some(h);
    assert Exec(m, s, |s|).None?;
    AllFromStep(m, s, 0);
    AllFromNone(m, s, |s|);
  }

  /** The `i`-th match of a scan is the leftmost one at or after the point the scan had
      reached, so the matches come in order and do not overlap. */
  lemma {:induction false} AllFromLeftmost<G>(m: Matcher<G>, s: string, from: nat, i: nat)
    requires i < |AllFrom(m, s, from)|
    ensures var r := AllFrom(m, s, from);
      ScanStart(r, from, i) <= r[i].index
      && (forall q :: ScanStart(r, from, i) <= q < r[i].index ==> m(s, q).None?)
    decreases i
  {
    var r := AllFrom(m, s, from);
    assert Exec(m, s, from).Some?;
    var h := Exec(m, s, from).value;
    var rest := AllFrom(m, s, Resume(h));
    assert r == [h] + rest;
    if i > 0 {
      AllFromLeftmost(m, s, Resume(h), i - 1);
      assert r[i] == rest[i - 1];
      if i > 1 {
        assert r[i - 1] == rest[i - 2];
      }
      assert ScanStart(r, from, i) == ScanStart(rest, Resume(h), i - 1);
    }
  }

  /** No match is left after the last match of a scan. */
  lemma {:induction false} AllFromExhausted<G>(m: Matcher<G>, s: string, from: nat)
    requires |AllFrom(m, s, from)| > 0
    ensures var r := AllFrom(m, s, from);
      forall q :: Resume(r[|r| - 1]) <= q <= |s| ==> m(s, q).None?
    decreases |s| + 1 - from
  {
    var r := AllFrom(m, s, from);
    assert Exec(m, s, from).Some?;
    var h := Exec(m, s, from).value;
    var rest := AllFrom(m, s, Resume(h));
    assert r == [h] + rest;
    if |rest| > 0 {
      AllFromExhausted(m, s, Resume(h));
      assert r[|r| - 1] == rest[|rest| - 1];
    }
  }

  /** `s.matchAll(re)` / an `exec` loop from `lastIndex = 0`. */
  function MatchAll<G>(m: Matcher<G>, s: string): seq<RegexMatch<G>>
  {
    AllFrom(m, s, 0)
  }

  /** A scan finds exactly one match when the leftmost match of the text leaves no
      match after the point where the scan resumes. */
  lemma MatchAllOne<G>(m: Matcher<G>, s: string)
    ensures |MatchAll(m, s)| == 1 <==>
      exists h :: IsMatch(m, s, h) && h.index <= |s|
        && (forall q :: 0 <= q < h.index ==> m(s, q).None?)
        && (forall q :: Resume(h) <= q <= |s| ==> m(s, q).None?)
  {
    if |MatchAll(m, s)| == 1 {
      var h := Exec(m, s, 0).value;
      AllFromStep(m, s, 0);
      assert AllFrom(m, s, Resume(h)) == [];
      assert IsMatch(m, s, h);
    }
    if exists h :: IsMatch(m, s, h) && h.index <= |s|
        && (forall q :: 0 <= q < h.index ==> m(s, q).None?)
        && (forall q :: Resume(h) <= q <= |s| ==> m(s, q).None?) {
      var h :| IsMatch(m, s, h) && h.index <= |s|
        && (forall q :: 0 <= q < h.index ==> m(s, q).None?)
        && (forall q :: Resume(h) <= q <= |s| ==> m(s, q).None?);
      EarliestIs(m, s, 0, h.index);
      assert Exec(m, s, 0) == Some(h);
      AllFromStep(m, s, 0);
      assert AllFrom(m, s, Resume(h)) == [];
    }
  }
}
