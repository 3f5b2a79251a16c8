/**
 * The scanning discipline of Python's `re.findall` and `re.finditer` for a
 * pattern that never matches the empty string: try the start positions from
 * the left, take the match the pattern gives at the first position where it
 * matches, and resume the scan at the end of that match.
 *
 * A pattern applied to a text of length `n` is given as a matcher `m`:
 * `m(p) == Some(e)` when the pattern, tried at position `p`, matches
 * `text[p..e]`, and `m(p) == None` when it fails there.
 */
module PyRe {
  import opened Common

  /** `m` describes a non-empty pattern on a text of length `n`. */
  ghost predicate Matcher(n: nat, m: nat -> Option<nat>) {
    forall p: nat :: p <= n && m(p).Some? ==> p < m(p).value <= n
  }

  /** The leftmost position at or after `pos` where the pattern matches. */
  function FirstMatch(n: nat, m: nat -> Option<nat>, pos: nat): (r: Option<nat>)
    requires pos <= n
    ensures r.Some? ==> pos <= r.value <= n && m(r.value).Some?
    ensures r.Some? ==> forall p :: pos <= p < r.value ==> m(p).None?
    ensures r.None? ==> forall p :: pos <= p <= n ==> m(p).None?
    decreases n - pos
  {
    if m(pos).Some? then Some(pos)
    else if pos == n then None
    else FirstMatch(n, m, pos + 1)
  }

  /** The spans `(start, end)` of the matches found by a scan starting at `pos`. */
  function Spans(n: nat, m: nat -> Option<nat>, pos: nat): seq<(nat, nat)>
    requires Matcher(n, m) && pos <= n
    decreases n - pos
  {
    match FirstMatch(n, m, pos)
    case None => []
    case Some(p) => [(p, m(p).value)] + Spans(n, m, m(p).value)
  }

  /** Where the scan searching for the `k`-th match starts. */
  function Resume(pos: nat, r: seq<(nat, nat)>, k: nat): nat
    requires k <= |r|
  {
    if k == 0 then pos else r[k - 1].1
  }

  /**
   * `r` is what a left-to-right scan from `pos` finds: each span is a match
   * that starts where the previous one ended or later, no match starts
   * between the resume point and the span, and no match starts after the
   * last span.
   */
  ghost predicate IsScan(n: nat, m: nat -> Option<nat>, pos: nat, r: seq<(nat, nat)>) {
    && (forall k :: 0 <= k < |r| ==>
          && Resume(pos, r, k) <= r[k].0 < r[k].1 <= n
          && m(r[k].0) == Some(r[k].1)
          && (forall p :: Resume(pos, r, k) <= p < r[k].0 ==> m(p).None?))
    && (forall p :: Resume(pos, r, |r|) <= p <= n ==> m(p).None?)
  }

  lemma {:induction false} FirstMatchAt(n: nat, m: nat -> Option<nat>, pos: nat, p: nat)
    requires pos <= p <= n && m(p).Some?
    requires forall q :: pos <= q < p ==> m(q).None?
    ensures FirstMatch(n, m, pos) == Some(p)
    decreases p - pos
  {
    if pos < p {
      FirstMatchAt(n, m, pos + 1, p);
    }
  }

  lemma {:induction false} FirstMatchNone(n: nat, m: nat -> Option<nat>, pos: nat)
    requires pos <= n
    requires forall q :: pos <= q <= n ==> m(q).None?
    ensures FirstMatch(n, m, pos) == None
    decreases n - pos
  {
    if pos < n {
      FirstMatchNone(n, m, pos + 1);
    }
  }

  /** Spans is such a scan. */
  lemma {:induction false} SpansAreScan(n: nat, m: nat -> Option<nat>, pos: nat)
    requires Matcher(n, m) && pos <= n
    ensures IsScan(n, m, pos, Spans(n, m, pos))
    decreases n - pos
  {
    var r := Spans(n, m, pos);
    match FirstMatch(n, m, pos)
    case None =>
    case Some(p) =>
      var e := m(p).value;
      var rest := Spans(n, m, e);
      SpansAreScan(n, m, e);
      assert r == [(p, e)] + rest;
      forall k | 0 <= k < |r|
        ensures Resume(pos, r, k) <= r[k].0 < r[k].1 <= n
        ensures m(r[k].0) == Some(r[k].1)
        ensures forall q :: Resume(pos, r, k) <= q < r[k].0 ==> m(q).None?
      {
        if k > 0 {
          assert r[k] == rest[k - 1];
          assert Resume(pos, r, k) == Resume(e, rest, k - 1);
        }
      }
      assert Resume(pos, r, |r|) == Resume(e, rest, |rest|);
  }

  /** What follows the first span of a scan is a scan from that span's end. */
  lemma ScanTail(n: nat, m: nat -> Option<nat>, pos: nat, r: seq<(nat, nat)>)
    requires IsScan(n, m, pos, r) && r != []
    ensures IsScan(n, m, r[0].1, r[1..])
  {
    var rest := r[1..];
    forall k | 0 <= k <= |rest|
      ensures Resume(r[0].1, rest, k) == Resume(pos, r, k + 1)
    {
    }
    forall k | 0 <= k < |rest|
      ensures Resume(r[0].1, rest, k) <= rest[k].0 < rest[k].1 <= n
      ensures m(rest[k].0) == Some(rest[k].1)
      ensures forall q :: Resume(r[0].1, rest, k) <= q < rest[k].0 ==> m(q).None?
    {
      assert rest[k] == r[k + 1];
    }
  }

  /** A scan from `pos` is unique: whatever satisfies IsScan is Spans. */
  lemma {:induction false} ScanUnique(n: nat, m: nat -> Option<nat>, pos: nat, r: seq<(nat, nat)>)
    requires Matcher(n, m) && pos <= n
    requires IsScan(n, m, pos, r)
    ensures r == Spans(n, m, pos)
    decreases n - pos
  {
    if r == [] {
      assert Resume(pos, r, 0) == pos;
      FirstMatchNone(n, m, pos);
    } else {
      assert Resume(pos, r, 0) == pos;
      var p, e := r[0].0, r[0].1;
      FirstMatchAt(n, m, pos, p);
      var rest := r[1..];
      ScanTail(n, m, pos, r);
      ScanUnique(n, m, e, rest);
      assert r == [(p, e)] + rest;
    }
  }

  /** Every position where the pattern matches lies inside one of the spans found. */
  lemma {:induction false} SpansCover(n: nat, m: nat -> Option<nat>, pos: nat, q: nat)
    requires Matcher(n, m) && pos <= q <= n
    requires m(q).Some?
    ensures exists k :: 0 <= k < |Spans(n, m, pos)| && Spans(n, m, pos)[k].0 <= q < Spans(n, m, pos)[k].1
    decreases n - pos
  {
    var r := Spans(n, m, pos);
    match FirstMatch(n, m, pos)
    case None =>
    case Some(p) =>
      var e := m(p).value;
      assert r == [(p, e)] + Spans(n, m, e);
      if q < e {
        assert r[0].0 <= q < r[0].1;
      } else {
        SpansCover(n, m, e, q);
        var k :| 0 <= k < |Spans(n, m, e)| && Spans(n, m, e)[k].0 <= q < Spans(n, m, e)[k].1;
        assert r[k + 1] == Spans(n, m, e)[k];
      }
  }
}
