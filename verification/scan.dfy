/** How `String.prototype.match` drives a pattern over a text: without the `g`
    flag it returns the leftmost match; with it, it restarts after each match and
    returns all of them, left to right and without overlap. */
module Scan {
  import opened Wrappers
  import opened Patterns

  /** The text between `start` and `end` was matched. */
  datatype Span = Span(start: nat, end: nat)

  /** A pattern tried at one position: the end of its match there, if any. */
  type Matcher = (string, nat) -> Option<nat>

  /** Every match `m` finds in `t` is non-empty and lies inside `t`. */
  ghost predicate Advances(m: Matcher, t: string)
  {
    forall i :: 0 <= i <= |t| && m(t, i).Some? ==> i < m(t, i).value <= |t|
  }

  /** The matcher of one of the extractor's patterns. */
  function MatcherOf(pat: Pattern): (m: Matcher)
    ensures forall t :: Advances(m, t)
  {
    (t: string, i: nat) => MatchAt(pat, t, i)
  }

  /** `text.match(re)`: the leftmost match at or after `p`. */
  function FirstFrom(m: Matcher, t: string, p: nat): (r: Option<Span>)
    requires p <= |t| && Advances(m, t)
    ensures r.Some? ==> p <= r.value.start < r.value.end <= |t|
    ensures r.Some? ==> Leftmost(m, t, p, r.value)
    ensures r.None? ==> NoMatchFrom(m, t, p)
    decreases |t| - p
  {
    match m(t, p)
    case Some(e) => Some(Span(p, e))
    case None => if p == |t| then None else FirstFrom(m, t, p + 1)
  }

  /** The spans lie inside `t`, after `p`, in increasing order, without overlap. */
  predicate Chained(t: string, p: nat, spans: seq<Span>)
  {
    && (forall k :: 0 <= k < |spans| ==> p <= spans[k].start < spans[k].end <= |t|)
    && (forall j, k :: 0 <= j < k < |spans| ==> spans[j].end <= spans[k].start)
  }

  /** `sp` is the leftmost match of `m` at or after `lo`. */
  ghost predicate Leftmost(m: Matcher, t: string, lo: nat, sp: Span)
  {
    m(t, sp.start) == Some(sp.end) && forall i :: lo <= i < sp.start ==> m(t, i).None?
  }

  /** No match of `m` starts at or after `lo`. */
  ghost predicate NoMatchFrom(m: Matcher, t: string, lo: nat)
  {
    forall i :: lo <= i <= |t| ==> m(t, i).None?
  }

  /** `spans` are exactly the matches a global search from `p` finds: the first is
      the leftmost match at or after `p`, the others are found the same way from
      the end of the first, and when none is left no match starts any more. */
  ghost predicate GlobalMatches(m: Matcher, t: string, p: nat, spans: seq<Span>)
    decreases |spans|
  {
    if |spans| == 0 then NoMatchFrom(m, t, p)
    else Leftmost(m, t, p, spans[0]) && GlobalMatches(m, t, spans[0].end, spans[1..])
  }

  /** Every span a global search finds is a match of the pattern. */
  lemma {:induction false} GlobalMatchesAreMatches(m: Matcher, t: string, p: nat, spans: seq<Span>)
    requires GlobalMatches(m, t, p, spans)
    ensures forall k :: 0 <= k < |spans| ==> m(t, spans[k].start) == Some(spans[k].end)
    decreases |spans|
  {
    if |spans| > 0 {
      GlobalMatchesAreMatches(m, t, spans[0].end, spans[1..]);
      assert forall k :: 1 <= k < |spans| ==> spans[k] == spans[1..][k - 1];
    }
  }

  /** `text.match(re)` with the `g` flag, from position `p`. */
  function AllFrom(m: Matcher, t: string, p: nat): (r: seq<Span>)
    requires p <= |t| && Advances(m, t)
    ensures GlobalMatches(m, t, p, r)
    ensures Chained(t, p, r)
    decreases |t| - p
  {
    match FirstFrom(m, t, p)
    case None => []
    case Some(sp) =>
      var rest := AllFrom(m, t, sp.end);
      var r := [sp] + rest;
      assert r[1..] == rest;
      r
  }

  /** The matched texts, in order. */
  function Slices(t: string, spans: seq<Span>): (r: seq<string>)
    requires forall k :: 0 <= k < |spans| ==> spans[k].start <= spans[k].end <= |t|
    ensures |r| == |spans|
    ensures forall k :: 0 <= k < |r| ==> r[k] == t[spans[k].start..spans[k].end]
  {
    seq(|spans|, k requires 0 <= k < |spans| => t[spans[k].start..spans[k].end])
  }

  /** The leftmost match, as text. */
  function FirstMatch(pat: Pattern, t: string): (r: Option<string>)
    ensures r.None? <==> NoMatchFrom(MatcherOf(pat), t, 0)
  {
    match FirstFrom(MatcherOf(pat), t, 0)
    case None => None
    case Some(sp) => Some(t[sp.start..sp.end])
  }

  /** All matches of a global search, as text. */
  function AllMatches(pat: Pattern, t: string): (r: seq<string>)
    ensures r == [] <==> NoMatchFrom(MatcherOf(pat), t, 0)
  {
    var spans := AllFrom(MatcherOf(pat), t, 0);
    Slices(t, spans)
  }

  /** The leftmost match is the one the search returns. */
  lemma {:induction false} FirstFromLeftmost(m: Matcher, t: string, p: nat, sp: Span)
    requires p <= sp.start <= |t| && Advances(m, t)
    requires Leftmost(m, t, p, sp)
    ensures FirstFrom(m, t, p) == Some(sp)
    decreases sp.start - p
  {
    if p < sp.start {
      FirstFromLeftmost(m, t, p + 1, sp);
    }
  }

  /** Where no match starts, the search finds nothing. */
  lemma {:induction false} FirstFromNone(m: Matcher, t: string, p: nat)
    requires p <= |t| && Advances(m, t)
    requires NoMatchFrom(m, t, p)
    ensures FirstFrom(m, t, p) == None
    decreases |t| - p
  {
    if p < |t| {
      FirstFromNone(m, t, p + 1);
    }
  }

  /** A global search that finds two matches and then none. */
  lemma {:induction false} TwoMatches(m: Matcher, t: string, a: Span, b: Span)
    requires Advances(m, t) && a.start < a.end <= b.start < b.end <= |t|
    requires Leftmost(m, t, 0, a) && Leftmost(m, t, a.end, b) && NoMatchFrom(m, t, b.end)
    ensures AllFrom(m, t, 0) == [a, b]
  {
    FirstFromLeftmost(m, t, 0, a);
    FirstFromLeftmost(m, t, a.end, b);
    FirstFromNone(m, t, b.end);
    assert AllFrom(m, t, b.end) == [];
    assert AllFrom(m, t, a.end) == [b];
  }

  /** The `k`-th text of a global search is a match of the pattern, at the span
      returned. */
  lemma {:induction false} AllMatchesAt(pat: Pattern, t: string, k: nat) returns (sp: Span)
    requires k < |AllMatches(pat, t)|
    ensures sp.start < sp.end <= |t| && MatchAt(pat, t, sp.start) == Some(sp.end)
    ensures AllMatches(pat, t)[k] == t[sp.start..sp.end]
  {
    var m := MatcherOf(pat);
    var spans := AllFrom(m, t, 0);
    GlobalMatchesAreMatches(m, t, 0, spans);
    sp := spans[k];
    assert m(t, sp.start) == MatchAt(pat, t, sp.start);
  }

  /** The text of a single search is a match of the pattern, at the span returned. */
  lemma {:induction false} FirstMatchAt(pat: Pattern, t: string) returns (sp: Span)
    requires FirstMatch(pat, t).Some?
    ensures sp.start < sp.end <= |t| && MatchAt(pat, t, sp.start) == Some(sp.end)
    ensures FirstMatch(pat, t).value == t[sp.start..sp.end]
    ensures Leftmost(MatcherOf(pat), t, 0, sp)
  {
    sp := FirstFrom(MatcherOf(pat), t, 0).value;
    assert MatcherOf(pat)(t, sp.start) == MatchAt(pat, t, sp.start);
  }
}
