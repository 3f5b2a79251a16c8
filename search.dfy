/**
 * llm_agent/search.py: token normalisation (`normalize_token`) and the way
 * `search_faiss_with_partial_and_similarity` merges substring hits and
 * vector-similarity hits into one ranked list.
 *
 * The sentence encoder and the FAISS index are outside the model: the
 * search takes the index's answer as a sequence of (score, meta row)
 * pairs, in the order the index returns them.
 */
module Search {
  import opened Common
  import opened PyStr

  // ------------------------------------------------------------------
  // normalize_token

  /** The characters of the class `[·_\-\/]`. */
  predicate IsDropped(c: char) {
    c == '·' || c == '_' || c == '-' || c == '/'
  }

  predicate NotDropped(c: char) {
    !IsDropped(c)
  }

  predicate NotSpace(c: char) {
    !IsSpace(c)
  }

  /** The characters a normalised token is made of. */
  predicate Kept(c: char) {
    !IsDropped(c) && !IsSpace(c)
  }

  /**
   * `normalize_token(text)`: lower-case, delete the punctuation class,
   * delete every whitespace run (`re.sub(r"\s+", "", …)` removes every
   * whitespace character), then strip.
   */
  function NormalizeToken(text: string): (r: string)
    ensures |r| <= |text|
  {
    Strip(Filter(NotSpace, Filter(NotDropped, Lower(text))))
  }

  /** NormalizeToken only lower-cases and deletes: it keeps exactly the Kept characters of the lower-cased text. */
  lemma NormalizeIsFilter(text: string)
    ensures NormalizeToken(text) == Filter(Kept, Lower(text))
  {
    var u := Filter(NotSpace, Filter(NotDropped, Lower(text)));
    FilterFilter(NotSpace, NotDropped, Kept, Lower(text));
    forall i | 0 <= i < |u|
      ensures !IsSpace(u[i])
    {
      assert u[i] in u;
    }
    StripNoSpace(u);
  }

  /** The result holds no whitespace and none of `·`, `_`, `-`, `/`, and is a subsequence of the lower-cased input. */
  lemma NormalizeChars(text: string)
    ensures forall i :: 0 <= i < |NormalizeToken(text)| ==> Kept(NormalizeToken(text)[i])
    ensures IsSubseq(NormalizeToken(text), Lower(text))
  {
    NormalizeIsFilter(text);
    FilterMembers(Kept, Lower(text));
    var r := NormalizeToken(text);
    forall i | 0 <= i < |r|
      ensures Kept(r[i])
    {
      assert r[i] in r;
    }
  }

  /** Normalising a normalised token changes nothing. */
  lemma NormalizeIdempotent(text: string)
    ensures NormalizeToken(NormalizeToken(text)) == NormalizeToken(text)
  {
    var u := Lower(text);
    var y := NormalizeToken(text);
    NormalizeIsFilter(text);
    KeptLowerFixed(u);
    LowerFixed(y);
    NormalizeIsFilter(y);
    KeptOnly(u);
    FilterAll(Kept, y);
  }

  /** The characters kept from a lower-cased text are left alone by a second lower-casing. */
  lemma KeptLowerFixed(u: string)
    requires forall i :: 0 <= i < |u| ==> LowerChar(u[i]) == u[i]
    ensures forall i :: 0 <= i < |Filter(Kept, u)| ==> LowerChar(Filter(Kept, u)[i]) == Filter(Kept, u)[i]
  {
    var r := Filter(Kept, u);
    FilterMembers(Kept, u);
    forall i | 0 <= i < |r|
      ensures LowerChar(r[i]) == r[i]
    {
      assert r[i] in u;
    }
  }

  lemma LowerFixed(y: string)
    requires forall i :: 0 <= i < |y| ==> LowerChar(y[i]) == y[i]
    ensures Lower(y) == y
  {
  }

  lemma KeptOnly(u: string)
    ensures forall i :: 0 <= i < |Filter(Kept, u)| ==> Kept(Filter(Kept, u)[i])
  {
    var r := Filter(Kept, u);
    forall i | 0 <= i < |r|
      ensures Kept(r[i])
    {
      assert r[i] in r;
    }
  }

  // ------------------------------------------------------------------
  // the records and the two dictionaries

  /** `match_type`: "부분 포함" (substring) or "유사도" (similarity). */
  datatype MatchType = PartialMatch | SimilarityMatch

  /** A result record: `{"file", "word", "score", "match_type"}`. */
  datatype Hit = Hit(file: string, word: string, score: real, matchType: MatchType)

  /** A row of `meta`: `(file_name, word_norm, word_raw)`. */
  datatype MetaRow = MetaRow(file: string, wordNorm: string, wordRaw: string)

  /**
   * A Python dict from file names to records: its entries in insertion
   * order. Assigning to a present key keeps its place; popping removes it.
   */
  type Dict = seq<(string, Hit)>

  function Keys(d: Dict): seq<string> {
    seq(|d|, i requires 0 <= i < |d| => d[i].0)
  }

  /** `list(d.values())`. */
  function Values(d: Dict): seq<Hit> {
    seq(|d|, i requires 0 <= i < |d| => d[i].1)
  }

  /** The position of key `k`. */
  function IndexOf(d: Dict, k: string): (i: nat)
    requires k in Keys(d)
    ensures i < |d| && d[i].0 == k
    ensures forall j :: 0 <= j < i ==> d[j].0 != k
    decreases |d|
  {
    if d[0].0 == k then 0
    else
      assert Keys(d) == [d[0].0] + Keys(d[1..]);
      1 + IndexOf(d[1..], k)
  }

  /** `d[k]`. */
  function Get(d: Dict, k: string): Hit
    requires k in Keys(d)
  {
    d[IndexOf(d, k)].1
  }

  /** `d[k] = v`. */
  function Put(d: Dict, k: string, v: Hit): (r: Dict)
    ensures k in Keys(d) ==> |r| == |d|
    ensures k !in Keys(d) ==> r == d + [(k, v)]
  {
    if k in Keys(d) then d[IndexOf(d, k) := (k, v)] else d + [(k, v)]
  }

  /** `d.pop(k, None)`: removes the entry for `k` if there is one. */
  function Pop(d: Dict, k: string): (r: Dict)
    ensures |r| <= |d|
    decreases |d|
  {
    if d == [] then []
    else (if d[0].0 == k then [] else [d[0]]) + Pop(d[1..], k)
  }

  /** No key occurs twice. */
  predicate DistinctKeys(d: Dict) {
    forall i, j :: 0 <= i < j < |d| ==> d[i].0 != d[j].0
  }

  /** Put: the key is present with the new value, the other keys and values are as before. */
  lemma PutSpec(d: Dict, k: string, v: Hit)
    requires DistinctKeys(d)
    ensures DistinctKeys(Put(d, k, v))
    ensures forall x :: x in Keys(Put(d, k, v)) <==> x in Keys(d) || x == k
    ensures Get(Put(d, k, v), k) == v
    ensures forall x :: x in Keys(d) && x != k ==> Get(Put(d, k, v), x) == Get(d, x)
  {
    var r := Put(d, k, v);
    if k in Keys(d) {
      var i := IndexOf(d, k);
      assert Keys(r) == Keys(d);
      assert IndexOf(r, k) == i;
      forall x | x in Keys(d) && x != k
        ensures Get(r, x) == Get(d, x)
      {
        var j := IndexOf(d, x);
        assert r[j] == d[j];
        forall m | 0 <= m < j
          ensures r[m].0 != x
        {
          assert r[m].0 == d[m].0;
        }
        assert IndexOf(r, x) == j by { IndexOfUnique(r, x, j); }
      }
    } else {
      assert Keys(r) == Keys(d) + [k];
      forall j | 0 <= j < |d|
        ensures r[j].0 != k
      {
        assert Keys(d)[j] == d[j].0;
      }
      IndexOfUnique(r, k, |d|);
      forall x | x in Keys(d) && x != k
        ensures Get(r, x) == Get(d, x)
      {
        var j := IndexOf(d, x);
        IndexOfUnique(r, x, j);
      }
    }
  }

  /** The position of a key is the first index holding it. */
  lemma IndexOfUnique(d: Dict, k: string, i: nat)
    requires i < |d| && d[i].0 == k
    requires forall j :: 0 <= j < i ==> d[j].0 != k
    ensures k in Keys(d) && IndexOf(d, k) == i
  {
    assert Keys(d)[i] == k;
  }

  /** Pop: the key is gone, the other keys and values are as before. */
  lemma {:induction false} PopSpec(d: Dict, k: string)
    requires DistinctKeys(d)
    ensures DistinctKeys(Pop(d, k))
    ensures forall x :: x in Keys(Pop(d, k)) <==> x in Keys(d) && x != k
    ensures forall x :: x in Keys(d) && x != k ==> Get(Pop(d, k), x) == Get(d, x)
    ensures forall e :: e in Pop(d, k) ==> e in d
    decreases |d|
  {
    if d != [] {
      var rest := d[1..];
      assert DistinctKeys(rest) by {
        forall i, j | 0 <= i < j < |rest|
          ensures rest[i].0 != rest[j].0
        {
          assert rest[i] == d[i + 1] && rest[j] == d[j + 1];
        }
      }
      PopSpec(rest, k);
      KeysCons(d);
      var pr := Pop(rest, k);
      var r := Pop(d, k);
      if r != [] {
        KeysCons(r);
      }
      if d[0].0 == k {
        assert r == pr;
        forall x | x in Keys(d) && x != k
          ensures Get(r, x) == Get(d, x)
        {
          GetCons(d, x);
        }
      } else {
        assert r == [d[0]] + pr;
        PopConsDistinct(d, pr);
        forall x | x in Keys(d) && x != k
          ensures Get(r, x) == Get(d, x)
        {
          GetCons(d, x);
          GetCons(r, x);
        }
      }
    }
  }

  /** Keeping the head in front of what Pop left of the tail keeps the keys distinct. */
  lemma PopConsDistinct(d: Dict, pr: Dict)
    requires d != [] && DistinctKeys(d) && DistinctKeys(pr)
    requires forall e :: e in pr ==> e in d[1..]
    ensures DistinctKeys([d[0]] + pr)
  {
    var r := [d[0]] + pr;
    forall i, j | 0 <= i < j < |r|
      ensures r[i].0 != r[j].0
    {
      if i == 0 {
        assert r[j] == pr[j - 1];
        assert r[j] in d[1..];
        var m :| 0 <= m < |d| - 1 && d[1..][m] == r[j];
        assert d[m + 1] == r[j];
      } else {
        assert r[i] == pr[i - 1] && r[j] == pr[j - 1];
      }
    }
  }

  lemma KeysCons(d: Dict)
    requires d != []
    ensures forall x :: x in Keys(d) <==> x == d[0].0 || x in Keys(d[1..])
  {
    forall x | x in Keys(d)
      ensures x == d[0].0 || x in Keys(d[1..])
    {
      var i :| 0 <= i < |d| && Keys(d)[i] == x;
      if i > 0 {
        assert Keys(d[1..])[i - 1] == x;
      }
    }
    forall x | x in Keys(d[1..])
      ensures x in Keys(d)
    {
      var i :| 0 <= i < |d| - 1 && Keys(d[1..])[i] == x;
      assert Keys(d)[i + 1] == x;
    }
    assert Keys(d)[0] == d[0].0;
  }

  lemma GetCons(d: Dict, x: string)
    requires x in Keys(d) && d != []
    ensures x != d[0].0 ==> x in Keys(d[1..]) && Get(d, x) == Get(d[1..], x)
    ensures x == d[0].0 ==> Get(d, x) == d[0].1
  {
    KeysCons(d);
  }

  // ------------------------------------------------------------------
  // sorted(results, key=lambda x: x["score"], reverse=True)

  predicate SortedByScore(s: seq<Hit>) {
    forall i, j :: 0 <= i < j < |s| ==> s[i].score >= s[j].score
  }

  /** The records scoring exactly `v`. */
  function ScoreIs(v: real): Hit -> bool {
    (h: Hit) => h.score == v
  }

  /** How many records at the front of `s` score at least as much as `x`. */
  function InsertPoint(s: seq<Hit>, x: Hit): (k: nat)
    ensures k <= |s|
    decreases |s|
  {
    if s == [] || s[0].score < x.score then 0 else 1 + InsertPoint(s[1..], x)
  }

  lemma {:induction false} InsertPointSpec(s: seq<Hit>, x: Hit)
    ensures forall i :: 0 <= i < InsertPoint(s, x) ==> s[i].score >= x.score
    ensures InsertPoint(s, x) < |s| ==> s[InsertPoint(s, x)].score < x.score
    decreases |s|
  {
    if s != [] && s[0].score >= x.score {
      InsertPointSpec(s[1..], x);
    }
  }

  /** `x` placed after every record of `s` that scores at least as much. */
  function InsertByScore(s: seq<Hit>, x: Hit): seq<Hit> {
    var k := InsertPoint(s, x);
    s[..k] + [x] + s[k..]
  }

  /**
   * The descending sort, stable as Python's `sorted` is also with
   * `reverse=True`: each record goes after those before it that score at
   * least as much.
   */
  function SortByScore(xs: seq<Hit>): (r: seq<Hit>)
    ensures |r| == |xs|
    decreases |xs|
  {
    if xs == [] then [] else InsertByScore(SortByScore(xs[..|xs| - 1]), xs[|xs| - 1])
  }

  /** Where the records of `s` and `x` sit after the insertion. */
  lemma InsertIndex(s: seq<Hit>, x: Hit)
    ensures var r, k := InsertByScore(s, x), InsertPoint(s, x);
      && |r| == |s| + 1 && r[k] == x
      && (forall i :: 0 <= i < k ==> r[i] == s[i])
      && (forall i :: k < i < |r| ==> r[i] == s[i - 1])
      && multiset(r) == multiset(s) + multiset{x}
  {
    var k := InsertPoint(s, x);
    assert s == s[..k] + s[k..];
  }

  lemma InsertSorted(s: seq<Hit>, x: Hit)
    requires SortedByScore(s)
    ensures SortedByScore(InsertByScore(s, x))
  {
    var r, k := InsertByScore(s, x), InsertPoint(s, x);
    InsertIndex(s, x);
    InsertPointSpec(s, x);
    forall i, j | 0 <= i < j < |r|
      ensures r[i].score >= r[j].score
    {
      if j < k {
      } else if j == k {
      } else if i == k {
        assert s[k].score <= s[k].score;
        assert s[j - 1].score <= s[k].score;
      } else if i < k {
      }
    }
  }

  /** Filtering by one score around `x`, when everything after `x` scores below it. */
  lemma InsertAboveBelow(a: seq<Hit>, x: Hit, b: seq<Hit>, v: real)
    requires forall i :: 0 <= i < |b| ==> b[i].score < x.score
    ensures Filter(ScoreIs(v), a + [x] + b) == Filter(ScoreIs(v), a + b) + Filter(ScoreIs(v), [x])
  {
    FilterAround(ScoreIs(v), a, x, b);
    FilterAppend(ScoreIs(v), a, b);
    if v == x.score {
      FilterNone(ScoreIs(v), b);
    } else {
      FilterNone(ScoreIs(v), [x]);
    }
    SwapEmpty(Filter(ScoreIs(v), a), Filter(ScoreIs(v), [x]), Filter(ScoreIs(v), b));
  }

  /** Inserting `x` after the records scoring at least as much keeps the order among records of each score. */
  lemma InsertStable(s: seq<Hit>, x: Hit, v: real)
    requires forall i :: InsertPoint(s, x) <= i < |s| ==> s[i].score < x.score
    ensures Filter(ScoreIs(v), InsertByScore(s, x)) == Filter(ScoreIs(v), s) + Filter(ScoreIs(v), [x])
  {
    var k := InsertPoint(s, x);
    assert s == s[..k] + s[k..];
    InsertAboveBelow(s[..k], x, s[k..], v);
  }

  /** In a sorted list, everything from the insertion point on scores below `x`. */
  lemma AfterPointBelow(s: seq<Hit>, x: Hit)
    requires SortedByScore(s)
    ensures forall i :: InsertPoint(s, x) <= i < |s| ==> s[i].score < x.score
  {
    var k := InsertPoint(s, x);
    InsertPointSpec(s, x);
    forall i | k <= i < |s|
      ensures s[i].score < x.score
    {
      assert s[i].score <= s[k].score;
    }
  }

  /**
   * SortByScore is a stable descending sort: the result is ordered by
   * score, is a permutation of the input, and keeps the input order among
   * records of equal score.
   */
  lemma {:induction false} SortSpec(xs: seq<Hit>)
    ensures SortedByScore(SortByScore(xs))
    ensures multiset(SortByScore(xs)) == multiset(xs)
    ensures forall v :: Filter(ScoreIs(v), SortByScore(xs)) == Filter(ScoreIs(v), xs)
    decreases |xs|
  {
    if xs != [] {
      var init, x := xs[..|xs| - 1], xs[|xs| - 1];
      assert xs == init + [x];
      SortSpec(init);
      var s := SortByScore(init);
      InsertSorted(s, x);
      InsertIndex(s, x);
      AfterPointBelow(s, x);
      forall v
        ensures Filter(ScoreIs(v), SortByScore(xs)) == Filter(ScoreIs(v), xs)
      {
        InsertStable(s, x, v);
        FilterAppend(ScoreIs(v), init, [x]);
      }
    }
  }

  /** No file has two records. */
  predicate FilesUnique(s: seq<Hit>) {
    forall i, j :: 0 <= i < j < |s| ==> s[i].file != s[j].file
  }

  lemma {:induction false} SortFilesUnique(xs: seq<Hit>)
    requires FilesUnique(xs)
    ensures FilesUnique(SortByScore(xs))
    decreases |xs|
  {
    if xs != [] {
      var init, x := xs[..|xs| - 1], xs[|xs| - 1];
      SortFilesUnique(init);
      SortSpec(init);
      var s := SortByScore(init);
      var r, k := SortByScore(xs), InsertPoint(s, x);
      InsertIndex(s, x);
      forall y | y in s
        ensures y.file != x.file
      {
        assert y in multiset(init);
        var m :| 0 <= m < |init| && init[m] == y;
        assert xs[m] == y;
      }
      forall i, j | 0 <= i < j < |r|
        ensures r[i].file != r[j].file
      {
        if i == k {
          assert r[j] in s;
        } else if j == k {
          assert r[i] in s;
        }
      }
    }
  }

  /** The substring hits form a prefix of the list: no similarity record comes before a substring hit. */
  predicate PartialsFirst(xs: seq<Hit>) {
    forall i, j :: 0 <= i < j < |xs| && xs[j].matchType == PartialMatch ==> xs[i].matchType == PartialMatch
  }

  /** Among records of equal score, the substring hits come first. */
  predicate PartialsLead(s: seq<Hit>) {
    forall i, j :: 0 <= i < j < |s| && s[i].score == s[j].score && s[j].matchType == PartialMatch ==>
      s[i].matchType == PartialMatch
  }

  predicate AllPartial(s: seq<Hit>) {
    forall i :: 0 <= i < |s| ==> s[i].matchType == PartialMatch
  }

  /** A permutation of substring hits holds only substring hits. */
  lemma PermutedAllPartial(r: seq<Hit>, xs: seq<Hit>)
    requires multiset(r) == multiset(xs) && AllPartial(xs)
    ensures AllPartial(r)
  {
    forall i | 0 <= i < |r|
      ensures r[i].matchType == PartialMatch
    {
      assert r[i] in multiset(xs);
      var m :| 0 <= m < |xs| && xs[m] == r[i];
    }
  }

  /** When the last record is a substring hit, all of them are. */
  lemma LastPartialAll(xs: seq<Hit>)
    requires PartialsFirst(xs) && xs != [] && xs[|xs| - 1].matchType == PartialMatch
    ensures AllPartial(xs)
  {
    forall i | 0 <= i < |xs|
      ensures xs[i].matchType == PartialMatch
    {
      if i < |xs| - 1 {
        assert 0 <= i < |xs| - 1 < |xs|;
      }
    }
  }

  /** A similarity record inserted after every record scoring at least as much precedes no substring hit of its score. */
  lemma InsertSimilarityLead(s: seq<Hit>, x: Hit)
    requires PartialsLead(s) && x.matchType == SimilarityMatch
    requires forall i :: InsertPoint(s, x) <= i < |s| ==> s[i].score < x.score
    ensures PartialsLead(InsertByScore(s, x))
  {
    var r, k := InsertByScore(s, x), InsertPoint(s, x);
    InsertIndex(s, x);
    forall i, j | 0 <= i < j < |r| && r[i].score == r[j].score && r[j].matchType == PartialMatch
      ensures r[i].matchType == PartialMatch
    {
      if i == k {
      } else if j > k && i > k {
        assert r[i] == s[i - 1] && r[j] == s[j - 1];
      } else if j > k {
        assert r[i] == s[i] && r[j] == s[j - 1];
      } else {
        assert r[i] == s[i] && r[j] == s[j];
      }
    }
  }

  /** Because the sort is stable, substring hits that come first stay ahead of similarity records of equal score. */
  lemma {:induction false} SortPartialsLead(xs: seq<Hit>)
    requires PartialsFirst(xs)
    ensures PartialsLead(SortByScore(xs))
    decreases |xs|
  {
    if xs != [] {
      var init, x := xs[..|xs| - 1], xs[|xs| - 1];
      SortSpec(xs);
      if x.matchType == PartialMatch {
        LastPartialAll(xs);
        PermutedAllPartial(SortByScore(xs), xs);
      } else {
        SortPartialsLead(init);
        SortSpec(init);
        AfterPointBelow(SortByScore(init), x);
        InsertSimilarityLead(SortByScore(init), x);
      }
    }
  }

  // ------------------------------------------------------------------
  // the first loop: substring hits among the tokens of the file names

  /** `query_norm in token and query_norm != token`. */
  predicate StrictlyContains(token: string, q: string) {
    Contains(token, q) && q != token
  }

  /** The record of a substring hit found in the token index: the file name stands as the word. */
  function NameHit(file: string): Hit {
    Hit(file, file, 1.0, PartialMatch)
  }

  /** The inner loop, over the tokens of one file. */
  function TokenPass(partial: Dict, file: string, tokens: seq<string>, q: string): Dict
    decreases |tokens|
  {
    if tokens == [] then partial
    else
      var p := TokenPass(partial, file, tokens[..|tokens| - 1], q);
      if StrictlyContains(tokens[|tokens| - 1], q) then Put(p, file, NameHit(file)) else p
  }

  /** The outer loop, over `file_token_index.items()`. */
  function IndexPass(partial: Dict, index: seq<(string, seq<string>)>, q: string): Dict
    decreases |index|
  {
    if index == [] then partial
    else
      var last := index[|index| - 1];
      TokenPass(IndexPass(partial, index[..|index| - 1], q), last.0, last.1, q)
  }

  // ------------------------------------------------------------------
  // the second loop: the answer of the vector index

  /** `partial_hits` and `candidate_files`. */
  datatype Merge = Merge(partial: Dict, cand: Dict)

  /** The body of the second loop for one answer `(dist, meta[idx])`. */
  function MergeStep(m: Merge, dist: real, row: MetaRow, q: string, t1: real, t2: real): Merge {
    if dist < t1 then m
    else if row.file in Keys(m.partial) then m
    else if StrictlyContains(row.wordNorm, q) then
      Merge(Put(m.partial, row.file, Hit(row.file, row.wordRaw, 1.0, PartialMatch)), Pop(m.cand, row.file))
    else if row.file !in Keys(m.cand) && dist >= t2 then
      Merge(m.partial, Put(m.cand, row.file, Hit(row.file, row.wordRaw, dist, SimilarityMatch)))
    else m
  }

  /** The second loop over the answers `rows`, in order. */
  function MergeRun(m: Merge, rows: seq<(real, MetaRow)>, q: string, t1: real, t2: real): Merge
    decreases |rows|
  {
    if rows == [] then m
    else
      var last := rows[|rows| - 1];
      MergeStep(MergeRun(m, rows[..|rows| - 1], q, t1, t2), last.0, last.1, q, t1, t2)
  }

  /**
   * Every answer that clears `thres1`, the only ones the loop looks up,
   * has an index Python's `meta[idx]` accepts: `-|meta| <= idx < |meta|`.
   * Answers below `thres1` (such as FAISS's padding `-1`) may hold any index.
   */
  predicate ValidHits(hits: seq<(real, int)>, meta: seq<MetaRow>, t1: real) {
    forall i :: 0 <= i < |hits| && hits[i].0 >= t1 ==> -|meta| <= hits[i].1 < |meta|
  }

  /** Python's `meta[idx]`: a negative index counts from the end. */
  function Lookup(meta: seq<MetaRow>, idx: int): (r: MetaRow)
    requires -|meta| <= idx < |meta|
    ensures 0 <= idx ==> r == meta[idx]
    ensures idx < 0 ==> r == meta[|meta| + idx]
  {
    if idx < 0 then meta[|meta| + idx] else meta[idx]
  }

  /**
   * `zip(D[0], I[0])` with each answer that clears `thres1` looked up in
   * `meta`; the answers below it are skipped before any lookup, as the
   * `continue` at the top of the loop does.
   */
  function Resolve(hits: seq<(real, int)>, meta: seq<MetaRow>, t1: real): seq<(real, MetaRow)>
    requires ValidHits(hits, meta, t1)
  {
    ResolveRun(hits, meta, t1)
  }

  function ResolveRun(hits: seq<(real, int)>, meta: seq<MetaRow>, t1: real): seq<(real, MetaRow)>
    requires ValidHits(hits, meta, t1)
    decreases |hits|
  {
    if hits == [] then []
    else
      var last := hits[|hits| - 1];
      ResolveRun(hits[..|hits| - 1], meta, t1) + (if last.0 >= t1 then [(last.0, Lookup(meta, last.1))] else [])
  }

  /**
   * The answers the second loop works on: each clears `thres1`, every
   * answer that clears it is there with the row `meta[idx]` names, and
   * there are never more of them than answers.
   */
  lemma {:induction false} ResolveSpec(hits: seq<(real, int)>, meta: seq<MetaRow>, t1: real)
    requires ValidHits(hits, meta, t1)
    ensures |Resolve(hits, meta, t1)| <= |hits|
    ensures forall r :: r in Resolve(hits, meta, t1) ==> r.0 >= t1
    ensures forall i :: 0 <= i < |hits| && hits[i].0 >= t1 ==> (hits[i].0, Lookup(meta, hits[i].1)) in Resolve(hits, meta, t1)
    ensures var kept := Filter((h: (real, int)) => h.0 >= t1 && -|meta| <= h.1 < |meta|, hits);
      && |Resolve(hits, meta, t1)| == |kept|
      && forall k :: 0 <= k < |kept| ==> Resolve(hits, meta, t1)[k] == (kept[k].0, Lookup(meta, kept[k].1))
    decreases |hits|
  {
    if hits != [] {
      var init := hits[..|hits| - 1];
      ResolveSpec(init, meta, t1);
      var p := (h: (real, int)) => h.0 >= t1 && -|meta| <= h.1 < |meta|;
      var kept0, kept := Filter(p, init), Filter(p, hits);
      assert kept == kept0 + (if p(hits[|hits| - 1]) then [hits[|hits| - 1]] else []);
      forall i | 0 <= i < |hits| && hits[i].0 >= t1
        ensures (hits[i].0, Lookup(meta, hits[i].1)) in Resolve(hits, meta, t1)
      {
        if i < |init| {
          assert init[i] == hits[i];
        }
      }
    }
  }

  /** The two dictionaries once both loops are done. */
  function Merged(queryWord: string, meta: seq<MetaRow>, index: seq<(string, seq<string>)>,
                  hits: seq<(real, int)>, t1: real, t2: real): Merge
    requires ValidHits(hits, meta, t1)
  {
    var q := NormalizeToken(queryWord);
    MergeRun(Merge(IndexPass([], index, q), []), Resolve(hits, meta, t1), q, t1, t2)
  }

  /** `sorted(list(partial_hits.values()) + list(candidate_files.values()), …)`. */
  function SearchResult(queryWord: string, meta: seq<MetaRow>, index: seq<(string, seq<string>)>,
                        hits: seq<(real, int)>, t1: real, t2: real): seq<Hit>
    requires ValidHits(hits, meta, t1)
  {
    var m := Merged(queryWord, meta, index, hits, t1, t2);
    SortByScore(Values(m.partial) + Values(m.cand))
  }

  // ------------------------------------------------------------------
  // what the dictionaries hold

  /** A substring hit, stored under its own file name. */
  predicate PartialEntry(e: (string, Hit)) {
    e.1.file == e.0 && e.1.score == 1.0 && e.1.matchType == PartialMatch
  }

  /** A similarity record, stored under its own file name, scoring at least both thresholds. */
  predicate CandEntry(e: (string, Hit), t1: real, t2: real) {
    e.1.file == e.0 && e.1.matchType == SimilarityMatch && e.1.score >= t1 && e.1.score >= t2
  }

  /** The shape both dictionaries keep throughout the second loop: no file in both. */
  predicate MergeOk(m: Merge, t1: real, t2: real) {
    && DistinctKeys(m.partial) && DistinctKeys(m.cand)
    && (forall x :: x in Keys(m.partial) ==> x !in Keys(m.cand))
    && (forall e :: e in m.partial ==> PartialEntry(e))
    && (forall e :: e in m.cand ==> CandEntry(e, t1, t2))
  }

  /** Put adds no entry other than the one it stores. */
  lemma PutEntries(d: Dict, k: string, v: Hit)
    ensures forall e :: e in Put(d, k, v) ==> e in d || e == (k, v)
  {
    if k in Keys(d) {
      var i := IndexOf(d, k);
      forall e | e in Put(d, k, v)
        ensures e in d || e == (k, v)
      {
        var j :| 0 <= j < |d| && Put(d, k, v)[j] == e;
        if j != i {
          assert e == d[j];
        }
      }
    }
  }

  lemma MergeStepOk(m: Merge, dist: real, row: MetaRow, q: string, t1: real, t2: real)
    requires MergeOk(m, t1, t2)
    ensures MergeOk(MergeStep(m, dist, row, q, t1, t2), t1, t2)
  {
    var f := row.file;
    if dist < t1 || f in Keys(m.partial) {
    } else if StrictlyContains(row.wordNorm, q) {
      var v := Hit(f, row.wordRaw, 1.0, PartialMatch);
      PutSpec(m.partial, f, v);
      PutEntries(m.partial, f, v);
      PopSpec(m.cand, f);
    } else if f !in Keys(m.cand) && dist >= t2 {
      var v := Hit(f, row.wordRaw, dist, SimilarityMatch);
      PutSpec(m.cand, f, v);
      PutEntries(m.cand, f, v);
    }
  }

  lemma {:induction false} MergeRunOk(m: Merge, rows: seq<(real, MetaRow)>, q: string, t1: real, t2: real)
    requires MergeOk(m, t1, t2)
    ensures MergeOk(MergeRun(m, rows, q, t1, t2), t1, t2)
    decreases |rows|
  {
    if rows != [] {
      var last := rows[|rows| - 1];
      MergeRunOk(m, rows[..|rows| - 1], q, t1, t2);
      MergeStepOk(MergeRun(m, rows[..|rows| - 1], q, t1, t2), last.0, last.1, q, t1, t2);
    }
  }

  /** The answer `r` makes file `f` a substring hit: it clears `thres1` and its `word_norm` strictly contains the query. */
  predicate PartialRow(r: (real, MetaRow), f: string, q: string, t1: real) {
    r.0 >= t1 && r.1.file == f && StrictlyContains(r.1.wordNorm, q)
  }

  /** The answer `r` makes file `f` a candidate unless `f` is a substring hit: it clears both thresholds and is no substring hit itself. */
  predicate CandRow(r: (real, MetaRow), f: string, q: string, t1: real, t2: real) {
    r.0 >= t1 && r.0 >= t2 && r.1.file == f && !StrictlyContains(r.1.wordNorm, q)
  }

  lemma MergeStepPartialKeys(m: Merge, dist: real, row: MetaRow, q: string, t1: real, t2: real)
    requires MergeOk(m, t1, t2)
    ensures var m' := MergeStep(m, dist, row, q, t1, t2);
      forall f :: f in Keys(m'.partial) <==> f in Keys(m.partial) || PartialRow((dist, row), f, q, t1)
  {
    if dist >= t1 && row.file !in Keys(m.partial) && StrictlyContains(row.wordNorm, q) {
      PutSpec(m.partial, row.file, Hit(row.file, row.wordRaw, 1.0, PartialMatch));
    }
  }

  lemma MergeStepCandKeys(m: Merge, dist: real, row: MetaRow, q: string, t1: real, t2: real)
    requires MergeOk(m, t1, t2)
    ensures var m' := MergeStep(m, dist, row, q, t1, t2);
      forall f :: f in Keys(m'.cand) <==> f !in Keys(m'.partial) && (f in Keys(m.cand) || CandRow((dist, row), f, q, t1, t2))
  {
    MergeStepPartialKeys(m, dist, row, q, t1, t2);
    var f := row.file;
    if dist < t1 || f in Keys(m.partial) {
    } else if StrictlyContains(row.wordNorm, q) {
      PopSpec(m.cand, f);
    } else if f !in Keys(m.cand) && dist >= t2 {
      PutSpec(m.cand, f, Hit(f, row.wordRaw, dist, SimilarityMatch));
    }
  }

  /**
   * A file is a substring hit after the second loop exactly when it was one
   * before, or some answer clearing `thres1` has a `word_norm` that strictly
   * contains the query.
   */
  lemma {:induction false} MergeRunPartialKeys(m: Merge, rows: seq<(real, MetaRow)>, q: string, t1: real, t2: real)
    requires MergeOk(m, t1, t2)
    ensures forall f :: f in Keys(MergeRun(m, rows, q, t1, t2).partial) <==>
      f in Keys(m.partial) || exists r :: r in rows && PartialRow(r, f, q, t1)
    decreases |rows|
  {
    if rows != [] {
      var init, last := rows[..|rows| - 1], rows[|rows| - 1];
      assert rows == init + [last];
      MergeRunPartialKeys(m, init, q, t1, t2);
      MergeRunOk(m, init, q, t1, t2);
      MergeStepPartialKeys(MergeRun(m, init, q, t1, t2), last.0, last.1, q, t1, t2);
    }
  }

  /**
   * A file is a candidate after the second loop exactly when it is no
   * substring hit and it was a candidate before or some answer clears both
   * thresholds for it without being a substring hit.
   */
  lemma {:induction false} MergeRunCandKeys(m: Merge, rows: seq<(real, MetaRow)>, q: string, t1: real, t2: real)
    requires MergeOk(m, t1, t2)
    ensures var m' := MergeRun(m, rows, q, t1, t2);
      forall f :: f in Keys(m'.cand) <==>
        f !in Keys(m'.partial) && (f in Keys(m.cand) || exists r :: r in rows && CandRow(r, f, q, t1, t2))
    decreases |rows|
  {
    if rows != [] {
      var init, last := rows[..|rows| - 1], rows[|rows| - 1];
      assert rows == init + [last];
      MergeRunCandKeys(m, init, q, t1, t2);
      MergeRunOk(m, init, q, t1, t2);
      var mi := MergeRun(m, init, q, t1, t2);
      MergeStepPartialKeys(mi, last.0, last.1, q, t1, t2);
      MergeStepCandKeys(mi, last.0, last.1, q, t1, t2);
    }
  }

  /** `rows[i]` is the first answer that makes `f` a substring hit. */
  predicate FirstPartialRow(rows: seq<(real, MetaRow)>, i: int, f: string, q: string, t1: real) {
    0 <= i < |rows| && PartialRow(rows[i], f, q, t1) && forall j :: 0 <= j < i ==> !PartialRow(rows[j], f, q, t1)
  }

  /** `rows[i]` is the first answer that makes `f` a candidate. */
  predicate FirstCandRow(rows: seq<(real, MetaRow)>, i: int, f: string, q: string, t1: real, t2: real) {
    0 <= i < |rows| && CandRow(rows[i], f, q, t1, t2) && forall j :: 0 <= j < i ==> !CandRow(rows[j], f, q, t1, t2)
  }

  /** One step keeps the record of each file that was a substring hit, and a new one takes the answer's raw word. */
  lemma MergeStepPartialGet(m: Merge, dist: real, row: MetaRow, q: string, t1: real, t2: real)
    requires MergeOk(m, t1, t2)
    ensures var m' := MergeStep(m, dist, row, q, t1, t2);
      && (forall f :: f in Keys(m.partial) ==> f in Keys(m'.partial) && Get(m'.partial, f) == Get(m.partial, f))
      && (forall f :: f in Keys(m'.partial) && f !in Keys(m.partial) ==>
            f == row.file && Get(m'.partial, f) == Hit(f, row.wordRaw, 1.0, PartialMatch))
  {
    if dist >= t1 && row.file !in Keys(m.partial) && StrictlyContains(row.wordNorm, q) {
      PutSpec(m.partial, row.file, Hit(row.file, row.wordRaw, 1.0, PartialMatch));
    }
  }

  /** One step keeps the record of each file that stays a candidate, and a new one takes the answer's raw word and score. */
  lemma MergeStepCandGet(m: Merge, dist: real, row: MetaRow, q: string, t1: real, t2: real)
    requires MergeOk(m, t1, t2)
    ensures var m' := MergeStep(m, dist, row, q, t1, t2);
      && (forall f :: f in Keys(m.cand) && f in Keys(m'.cand) ==> Get(m'.cand, f) == Get(m.cand, f))
      && (forall f :: f in Keys(m'.cand) && f !in Keys(m.cand) ==>
            f == row.file && f !in Keys(m.partial) && Get(m'.cand, f) == Hit(f, row.wordRaw, dist, SimilarityMatch))
  {
    var f := row.file;
    if dist < t1 || f in Keys(m.partial) {
    } else if StrictlyContains(row.wordNorm, q) {
      PopSpec(m.cand, f);
    } else if f !in Keys(m.cand) && dist >= t2 {
      PutSpec(m.cand, f, Hit(f, row.wordRaw, dist, SimilarityMatch));
    }
  }

  /**
   * A file that became a substring hit in the second loop keeps the raw
   * word of the first answer that made it one; a file that was one before
   * keeps its record.
   */
  lemma {:induction false} MergeRunPartialGet(m: Merge, rows: seq<(real, MetaRow)>, q: string, t1: real, t2: real)
    requires MergeOk(m, t1, t2)
    ensures var m' := MergeRun(m, rows, q, t1, t2);
      && (forall f :: f in Keys(m.partial) ==> f in Keys(m'.partial) && Get(m'.partial, f) == Get(m.partial, f))
      && (forall f :: f in Keys(m'.partial) && f !in Keys(m.partial) ==>
            exists i :: FirstPartialRow(rows, i, f, q, t1) && Get(m'.partial, f) == Hit(f, rows[i].1.wordRaw, 1.0, PartialMatch))
    decreases |rows|
  {
    if rows != [] {
      var init, last := rows[..|rows| - 1], rows[|rows| - 1];
      MergeRunPartialGet(m, init, q, t1, t2);
      MergeRunPartialKeys(m, init, q, t1, t2);
      MergeRunOk(m, init, q, t1, t2);
      var mi := MergeRun(m, init, q, t1, t2);
      var m' := MergeRun(m, rows, q, t1, t2);
      MergeStepPartialGet(mi, last.0, last.1, q, t1, t2);
      MergeStepPartialKeys(mi, last.0, last.1, q, t1, t2);
      forall f | f in Keys(m'.partial) && f !in Keys(m.partial)
        ensures exists i :: FirstPartialRow(rows, i, f, q, t1) && Get(m'.partial, f) == Hit(f, rows[i].1.wordRaw, 1.0, PartialMatch)
      {
        if f in Keys(mi.partial) {
          var i :| FirstPartialRow(init, i, f, q, t1) && Get(mi.partial, f) == Hit(f, init[i].1.wordRaw, 1.0, PartialMatch);
          assert FirstPartialRow(rows, i, f, q, t1);
        } else {
          forall j | 0 <= j < |init|
            ensures !PartialRow(rows[j], f, q, t1)
          {
            assert rows[j] == init[j] && init[j] in init;
          }
          assert FirstPartialRow(rows, |init|, f, q, t1);
        }
      }
    }
  }

  /** A candidate after the second loop holds the raw word and the score of the first answer that made it one. */
  lemma {:induction false} MergeRunCandGet(m: Merge, rows: seq<(real, MetaRow)>, q: string, t1: real, t2: real)
    requires MergeOk(m, t1, t2) && m.cand == []
    ensures var m' := MergeRun(m, rows, q, t1, t2);
      forall f :: f in Keys(m'.cand) ==>
        exists i :: FirstCandRow(rows, i, f, q, t1, t2) && Get(m'.cand, f) == Hit(f, rows[i].1.wordRaw, rows[i].0, SimilarityMatch)
    decreases |rows|
  {
    if rows != [] {
      var init, last := rows[..|rows| - 1], rows[|rows| - 1];
      MergeRunCandGet(m, init, q, t1, t2);
      MergeRunCandKeys(m, init, q, t1, t2);
      MergeRunOk(m, init, q, t1, t2);
      var mi := MergeRun(m, init, q, t1, t2);
      var m' := MergeRun(m, rows, q, t1, t2);
      MergeStepCandGet(mi, last.0, last.1, q, t1, t2);
      forall f | f in Keys(m'.cand)
        ensures exists i :: FirstCandRow(rows, i, f, q, t1, t2) && Get(m'.cand, f) == Hit(f, rows[i].1.wordRaw, rows[i].0, SimilarityMatch)
      {
        if f in Keys(mi.cand) {
          var i :| FirstCandRow(init, i, f, q, t1, t2) && Get(mi.cand, f) == Hit(f, init[i].1.wordRaw, init[i].0, SimilarityMatch);
          assert FirstCandRow(rows, i, f, q, t1, t2);
        } else {
          MergeStepCandKeys(mi, last.0, last.1, q, t1, t2);
          forall j | 0 <= j < |init|
            ensures !CandRow(rows[j], f, q, t1, t2)
          {
            assert rows[j] == init[j] && init[j] in init;
          }
          assert FirstCandRow(rows, |init|, f, q, t1, t2);
        }
      }
    }
  }

  /** The answers that clear `thres1`. */
  function Clears(t1: real): ((real, MetaRow)) -> bool {
    (r: (real, MetaRow)) => r.0 >= t1
  }

  /** Answers below `thres1` never matter: the second loop ends the same without them. */
  lemma {:induction false} BelowThresholdIgnored(m: Merge, rows: seq<(real, MetaRow)>, q: string, t1: real, t2: real)
    ensures MergeRun(m, rows, q, t1, t2) == MergeRun(m, Filter(Clears(t1), rows), q, t1, t2)
    decreases |rows|
  {
    if rows != [] {
      var init, last := rows[..|rows| - 1], rows[|rows| - 1];
      BelowThresholdIgnored(m, init, q, t1, t2);
      var fi := Filter(Clears(t1), init);
      if last.0 >= t1 {
        assert (fi + [last])[..|fi + [last]| - 1] == fi;
      } else {
        assert fi + [] == fi;
      }
    }
  }

  // ------------------------------------------------------------------
  // the first loop

  /** Some token strictly contains the query. */
  predicate HasStrictToken(tokens: seq<string>, q: string) {
    exists t :: t in tokens && StrictlyContains(t, q)
  }

  /** What the first loop stores: each file once, with its name as the word. */
  predicate NamesOk(d: Dict) {
    DistinctKeys(d) && forall e :: e in d ==> e.1 == NameHit(e.0)
  }

  lemma {:induction false} TokenPassSpec(partial: Dict, file: string, tokens: seq<string>, q: string)
    requires NamesOk(partial)
    ensures NamesOk(TokenPass(partial, file, tokens, q))
    ensures forall f :: f in Keys(TokenPass(partial, file, tokens, q)) <==>
      f in Keys(partial) || (f == file && HasStrictToken(tokens, q))
    decreases |tokens|
  {
    if tokens != [] {
      var init, last := tokens[..|tokens| - 1], tokens[|tokens| - 1];
      assert tokens == init + [last];
      TokenPassSpec(partial, file, init, q);
      var p := TokenPass(partial, file, init, q);
      PutSpec(p, file, NameHit(file));
      PutEntries(p, file, NameHit(file));
      if file in Keys(partial) || HasStrictToken(init, q) {
        assert file in Keys(p);
      }
    }
  }

  /**
   * After the first loop the substring hits are exactly the files with a
   * token that strictly contains the query, each recorded under its own name.
   */
  lemma {:induction false} IndexPassSpec(partial: Dict, index: seq<(string, seq<string>)>, q: string)
    requires NamesOk(partial)
    ensures NamesOk(IndexPass(partial, index, q))
    ensures forall f :: f in Keys(IndexPass(partial, index, q)) <==>
      f in Keys(partial) || exists e :: e in index && e.0 == f && HasStrictToken(e.1, q)
    decreases |index|
  {
    if index != [] {
      var init, last := index[..|index| - 1], index[|index| - 1];
      assert index == init + [last];
      IndexPassSpec(partial, init, q);
      TokenPassSpec(IndexPass(partial, init, q), last.0, last.1, q);
    }
  }

  /** The first loop's records are substring hits in the sense of the second. */
  lemma NamesPartial(d: Dict, t1: real, t2: real)
    requires NamesOk(d)
    ensures MergeOk(Merge(d, []), t1, t2)
  {
  }

  // ------------------------------------------------------------------
  // the results

  /** `list(partial_hits.values()) + list(candidate_files.values())`. */
  function Joined(m: Merge): seq<Hit> {
    Values(m.partial) + Values(m.cand)
  }

  /** The `i`-th record of the joined list is the value of the `i`-th key of one of the two dictionaries. */
  lemma JoinedEntry(m: Merge, t1: real, t2: real, i: nat)
    requires MergeOk(m, t1, t2) && i < |Joined(m)|
    ensures var vs, n := Joined(m), |m.partial|;
      if i < n then vs[i].file == Keys(m.partial)[i] && vs[i].matchType == PartialMatch && vs[i].score == 1.0
      else vs[i].file == Keys(m.cand)[i - n] && vs[i].matchType == SimilarityMatch && vs[i].score >= t1 && vs[i].score >= t2
  {
    var n := |m.partial|;
    if i < n {
      assert m.partial[i] in m.partial;
    } else {
      assert m.cand[i - n] in m.cand;
    }
  }

  /** The joined list holds one record per file, the substring hits first. */
  lemma JoinedUnique(m: Merge, t1: real, t2: real)
    requires MergeOk(m, t1, t2)
    ensures FilesUnique(Joined(m)) && PartialsFirst(Joined(m))
  {
    var vs, n := Joined(m), |m.partial|;
    forall i, j | 0 <= i < j < |vs|
      ensures vs[i].file != vs[j].file
      ensures vs[j].matchType == PartialMatch ==> vs[i].matchType == PartialMatch
    {
      JoinedEntry(m, t1, t2, i);
      JoinedEntry(m, t1, t2, j);
      if j < n {
        assert Keys(m.partial)[i] == m.partial[i].0 && Keys(m.partial)[j] == m.partial[j].0;
      } else if i >= n {
        assert Keys(m.cand)[i - n] == m.cand[i - n].0 && Keys(m.cand)[j - n] == m.cand[j - n].0;
      } else {
        assert Keys(m.partial)[i] in Keys(m.partial);
      }
    }
  }

  /** Every record of the joined list is a substring hit scoring 1.0 or a similarity record clearing both thresholds. */
  lemma JoinedScores(m: Merge, t1: real, t2: real)
    requires MergeOk(m, t1, t2)
    ensures forall h :: h in Joined(m) ==>
      (h.matchType == PartialMatch && h.score == 1.0) || (h.matchType == SimilarityMatch && h.score >= t1 && h.score >= t2)
  {
    forall h | h in Joined(m)
      ensures (h.matchType == PartialMatch && h.score == 1.0) || (h.matchType == SimilarityMatch && h.score >= t1 && h.score >= t2)
    {
      var i :| 0 <= i < |Joined(m)| && Joined(m)[i] == h;
      JoinedEntry(m, t1, t2, i);
    }
  }

  /**
   * A file has a substring-hit record in the joined list exactly when it is
   * a key of `partial_hits`, and a similarity record exactly when it is a
   * key of `candidate_files`.
   */
  lemma JoinedFiles(m: Merge, t1: real, t2: real)
    requires MergeOk(m, t1, t2)
    ensures forall f :: (exists h :: h in Joined(m) && h.file == f && h.matchType == PartialMatch) <==> f in Keys(m.partial)
    ensures forall f :: (exists h :: h in Joined(m) && h.file == f && h.matchType == SimilarityMatch) <==> f in Keys(m.cand)
  {
    var vs, n := Joined(m), |m.partial|;
    forall f | f in Keys(m.partial)
      ensures exists h :: h in vs && h.file == f && h.matchType == PartialMatch
    {
      var i :| 0 <= i < n && Keys(m.partial)[i] == f;
      JoinedEntry(m, t1, t2, i);
      assert vs[i] in vs;
    }
    forall f | f in Keys(m.cand)
      ensures exists h :: h in vs && h.file == f && h.matchType == SimilarityMatch
    {
      var i :| 0 <= i < |m.cand| && Keys(m.cand)[i] == f;
      JoinedEntry(m, t1, t2, n + i);
      assert vs[n + i] in vs;
    }
    forall h | h in vs
      ensures h.matchType == PartialMatch ==> h.file in Keys(m.partial)
      ensures h.matchType == SimilarityMatch ==> h.file in Keys(m.cand)
    {
      var i :| 0 <= i < |vs| && vs[i] == h;
      JoinedEntry(m, t1, t2, i);
    }
  }

  /**
   * The search returns the joined records, each file once, ordered by
   * non-increasing score, with the substring hits ahead of similarity
   * records of the same score; a substring hit scores 1.0 and a similarity
   * record at least both thresholds.
   */
  lemma ResultSpec(queryWord: string, meta: seq<MetaRow>, index: seq<(string, seq<string>)>,
                   hits: seq<(real, int)>, t1: real, t2: real)
    requires ValidHits(hits, meta, t1)
    ensures var m, r := Merged(queryWord, meta, index, hits, t1, t2), SearchResult(queryWord, meta, index, hits, t1, t2);
      && MergeOk(m, t1, t2)
      && SortedByScore(r) && multiset(r) == multiset(Joined(m))
      && FilesUnique(r) && PartialsLead(r)
      && (forall h :: h in r <==> h in Joined(m))
      && (forall h :: h in r ==>
            (h.matchType == PartialMatch && h.score == 1.0) || (h.matchType == SimilarityMatch && h.score >= t1 && h.score >= t2))
  {
    var q := NormalizeToken(queryWord);
    IndexPassSpec([], index, q);
    var m0 := Merge(IndexPass([], index, q), []);
    NamesPartial(m0.partial, t1, t2);
    MergeRunOk(m0, Resolve(hits, meta, t1), q, t1, t2);
    var m := Merged(queryWord, meta, index, hits, t1, t2);
    JoinedUnique(m, t1, t2);
    JoinedScores(m, t1, t2);
    SortSpec(Joined(m));
    SortFilesUnique(Joined(m));
    SortPartialsLead(Joined(m));
    var r := SearchResult(queryWord, meta, index, hits, t1, t2);
    forall h
      ensures h in r <==> h in Joined(m)
    {
      assert h in r <==> h in multiset(r);
      assert h in Joined(m) <==> h in multiset(Joined(m));
    }
  }

  /**
   * A file is returned as a substring hit exactly when one of its tokens
   * strictly contains the normalised query, or an answer of the vector
   * index for it clears `thres1` and its `word_norm` strictly contains the
   * query.
   */
  lemma PartialIff(queryWord: string, meta: seq<MetaRow>, index: seq<(string, seq<string>)>,
                   hits: seq<(real, int)>, t1: real, t2: real, f: string)
    requires ValidHits(hits, meta, t1)
    ensures var q := NormalizeToken(queryWord);
      (exists h :: h in SearchResult(queryWord, meta, index, hits, t1, t2) && h.file == f && h.matchType == PartialMatch)
      <==> (exists e :: e in index && e.0 == f && HasStrictToken(e.1, q))
           || exists r :: r in Resolve(hits, meta, t1) && PartialRow(r, f, q, t1)
  {
    var q := NormalizeToken(queryWord);
    ResultSpec(queryWord, meta, index, hits, t1, t2);
    var m0 := Merge(IndexPass([], index, q), []);
    IndexPassSpec([], index, q);
    NamesPartial(m0.partial, t1, t2);
    MergeRunPartialKeys(m0, Resolve(hits, meta, t1), q, t1, t2);
    var m, r := Merged(queryWord, meta, index, hits, t1, t2), SearchResult(queryWord, meta, index, hits, t1, t2);
    assert m == MergeRun(m0, Resolve(hits, meta, t1), q, t1, t2);
    JoinedFiles(m, t1, t2);
    assert f in Keys(m0.partial) <==> exists e :: e in index && e.0 == f && HasStrictToken(e.1, q);
    assert f in Keys(m.partial) <==> f in Keys(m0.partial) || exists x :: x in Resolve(hits, meta, t1) && PartialRow(x, f, q, t1);
    assert (exists h :: h in r && h.file == f && h.matchType == PartialMatch) <==> f in Keys(m.partial);
  }

  /**
   * A file is returned as a similarity record exactly when it is not
   * returned as a substring hit and some answer for it clears both
   * thresholds without strictly containing the query.
   */
  lemma CandidateIff(queryWord: string, meta: seq<MetaRow>, index: seq<(string, seq<string>)>,
                     hits: seq<(real, int)>, t1: real, t2: real, f: string)
    requires ValidHits(hits, meta, t1)
    ensures var q, r := NormalizeToken(queryWord), SearchResult(queryWord, meta, index, hits, t1, t2);
      (exists h :: h in r && h.file == f && h.matchType == SimilarityMatch)
      <==> !(exists h :: h in r && h.file == f && h.matchType == PartialMatch)
           && exists x :: x in Resolve(hits, meta, t1) && CandRow(x, f, q, t1, t2)
  {
    var q, rows := NormalizeToken(queryWord), Resolve(hits, meta, t1);
    ResultSpec(queryWord, meta, index, hits, t1, t2);
    var m0 := Merge(IndexPass([], index, q), []);
    IndexPassSpec([], index, q);
    NamesPartial(m0.partial, t1, t2);
    MergeRunCandKeys(m0, rows, q, t1, t2);
    var m, r := Merged(queryWord, meta, index, hits, t1, t2), SearchResult(queryWord, meta, index, hits, t1, t2);
    assert m == MergeRun(m0, rows, q, t1, t2);
    JoinedFiles(m, t1, t2);
    assert f in Keys(m.cand) <==> f !in Keys(m.partial) && exists x :: x in rows && CandRow(x, f, q, t1, t2);
    assert (exists h :: h in r && h.file == f && h.matchType == PartialMatch) <==> f in Keys(m.partial);
    assert (exists h :: h in r && h.file == f && h.matchType == SimilarityMatch) <==> f in Keys(m.cand);
  }

  /** A similarity record returned for a file carries the raw word and the score of the first answer that qualifies it. */
  lemma CandidateFirst(queryWord: string, meta: seq<MetaRow>, index: seq<(string, seq<string>)>,
                       hits: seq<(real, int)>, t1: real, t2: real, h: Hit)
    requires ValidHits(hits, meta, t1)
    requires h in SearchResult(queryWord, meta, index, hits, t1, t2) && h.matchType == SimilarityMatch
    ensures var q, rows := NormalizeToken(queryWord), Resolve(hits, meta, t1);
      exists i :: FirstCandRow(rows, i, h.file, q, t1, t2) && h == Hit(h.file, rows[i].1.wordRaw, rows[i].0, SimilarityMatch)
  {
    var m := Merged(queryWord, meta, index, hits, t1, t2);
    ResultSpec(queryWord, meta, index, hits, t1, t2);
    JoinedCandGet(m, t1, t2, h);
    MergedCandGet(queryWord, meta, index, hits, t1, t2, h.file);
  }

  /** The record `candidate_files` holds for a file comes from the first answer that qualifies it. */
  lemma MergedCandGet(queryWord: string, meta: seq<MetaRow>, index: seq<(string, seq<string>)>,
                      hits: seq<(real, int)>, t1: real, t2: real, f: string)
    requires ValidHits(hits, meta, t1)
    requires f in Keys(Merged(queryWord, meta, index, hits, t1, t2).cand)
    ensures var q, rows, m := NormalizeToken(queryWord), Resolve(hits, meta, t1), Merged(queryWord, meta, index, hits, t1, t2);
      exists i :: FirstCandRow(rows, i, f, q, t1, t2) && Get(m.cand, f) == Hit(f, rows[i].1.wordRaw, rows[i].0, SimilarityMatch)
  {
    var q, rows := NormalizeToken(queryWord), Resolve(hits, meta, t1);
    var m0 := Merge(IndexPass([], index, q), []);
    IndexPassSpec([], index, q);
    NamesPartial(m0.partial, t1, t2);
    assert Merged(queryWord, meta, index, hits, t1, t2) == MergeRun(m0, rows, q, t1, t2);
    MergeRunCandGet(m0, rows, q, t1, t2);
  }

  /**
   * A substring hit returned for a file found in the token index carries the
   * file name as its word; otherwise it carries the raw word of the first
   * answer of the vector index that makes the file a substring hit.
   */
  lemma PartialValue(queryWord: string, meta: seq<MetaRow>, index: seq<(string, seq<string>)>,
                     hits: seq<(real, int)>, t1: real, t2: real, h: Hit)
    requires ValidHits(hits, meta, t1)
    requires h in SearchResult(queryWord, meta, index, hits, t1, t2) && h.matchType == PartialMatch
    ensures var q, rows := NormalizeToken(queryWord), Resolve(hits, meta, t1);
      if exists e :: e in index && e.0 == h.file && HasStrictToken(e.1, q) then h == NameHit(h.file)
      else exists i :: FirstPartialRow(rows, i, h.file, q, t1) && h == Hit(h.file, rows[i].1.wordRaw, 1.0, PartialMatch)
  {
    var m := Merged(queryWord, meta, index, hits, t1, t2);
    ResultSpec(queryWord, meta, index, hits, t1, t2);
    JoinedPartialGet(m, t1, t2, h);
    MergedPartialGet(queryWord, meta, index, hits, t1, t2, h.file);
  }

  /**
   * The record `partial_hits` holds for a file: the file name when one of
   * its tokens matched, otherwise the raw word of the first answer that
   * made it a substring hit.
   */
  lemma MergedPartialGet(queryWord: string, meta: seq<MetaRow>, index: seq<(string, seq<string>)>,
                         hits: seq<(real, int)>, t1: real, t2: real, f: string)
    requires ValidHits(hits, meta, t1)
    requires f in Keys(Merged(queryWord, meta, index, hits, t1, t2).partial)
    ensures var q, rows, m := NormalizeToken(queryWord), Resolve(hits, meta, t1), Merged(queryWord, meta, index, hits, t1, t2);
      if exists e :: e in index && e.0 == f && HasStrictToken(e.1, q) then Get(m.partial, f) == NameHit(f)
      else exists i :: FirstPartialRow(rows, i, f, q, t1) && Get(m.partial, f) == Hit(f, rows[i].1.wordRaw, 1.0, PartialMatch)
  {
    var q, rows := NormalizeToken(queryWord), Resolve(hits, meta, t1);
    var m0 := Merge(IndexPass([], index, q), []);
    IndexPassSpec([], index, q);
    NamesPartial(m0.partial, t1, t2);
    assert Merged(queryWord, meta, index, hits, t1, t2) == MergeRun(m0, rows, q, t1, t2);
    MergeRunPartialGet(m0, rows, q, t1, t2);
    if f in Keys(m0.partial) {
      NamesGet(m0.partial, f);
    }
  }

  /** A substring hit of the joined list is the record stored for its file. */
  lemma JoinedPartialGet(m: Merge, t1: real, t2: real, h: Hit)
    requires MergeOk(m, t1, t2)
    requires h in Joined(m) && h.matchType == PartialMatch
    ensures h.file in Keys(m.partial) && h == Get(m.partial, h.file)
  {
    var vs, n := Joined(m), |m.partial|;
    var i :| 0 <= i < |vs| && vs[i] == h;
    JoinedEntry(m, t1, t2, i);
    if i < n {
      var e := m.partial[i];
      assert e in m.partial && h == e.1;
      assert Keys(m.partial)[i] == e.0;
      IndexOfUnique(m.partial, e.0, i) by {
        forall j | 0 <= j < i
          ensures m.partial[j].0 != e.0
        {
        }
      }
    }
  }

  /** The first loop stores the name record under each of its keys. */
  lemma NamesGet(d: Dict, f: string)
    requires NamesOk(d) && f in Keys(d)
    ensures Get(d, f) == NameHit(f)
  {
    assert d[IndexOf(d, f)] in d;
  }

  /** A similarity record of the joined list is the candidate stored for its file. */
  lemma JoinedCandGet(m: Merge, t1: real, t2: real, h: Hit)
    requires MergeOk(m, t1, t2)
    requires h in Joined(m) && h.matchType == SimilarityMatch
    ensures h.file in Keys(m.cand) && h == Get(m.cand, h.file)
  {
    var vs, n := Joined(m), |m.partial|;
    var i :| 0 <= i < |vs| && vs[i] == h;
    JoinedEntry(m, t1, t2, i);
    if i >= n {
      var e := m.cand[i - n];
      assert e in m.cand && h == e.1;
      assert Keys(m.cand)[i - n] == e.0;
      IndexOfUnique(m.cand, e.0, i - n) by {
        forall j | 0 <= j < i - n
          ensures m.cand[j].0 != e.0
        {
        }
      }
    }
  }

  /** The default thresholds `thres1` and `thres2`. */
  const DefaultThres1: real := 0.4
  const DefaultThres2: real := 0.5

  /**
   * At the default thresholds every result scores at least 0.5: an answer
   * between 0.4 and 0.5 can make its file a substring hit, but never a
   * similarity record.
   */
  lemma DefaultScores(queryWord: string, meta: seq<MetaRow>, index: seq<(string, seq<string>)>, hits: seq<(real, int)>)
    requires ValidHits(hits, meta, DefaultThres1)
    ensures forall h :: h in SearchResult(queryWord, meta, index, hits, DefaultThres1, DefaultThres2) ==>
      h.score >= DefaultThres2 && (h.score < 1.0 ==> h.matchType == SimilarityMatch)
  {
    ResultSpec(queryWord, meta, index, hits, DefaultThres1, DefaultThres2);
  }

  /**
   * `search_faiss_with_partial_and_similarity`, given the answer of the
   * vector index for the encoded query as `hits`.
   */
  method SearchFaissWithPartialAndSimilarity(queryWord: string, meta: seq<MetaRow>,
                                             fileTokenIndex: seq<(string, seq<string>)>,
                                             hits: seq<(real, int)>, thres1: real, thres2: real)
    returns (results: seq<Hit>)
    requires ValidHits(hits, meta, thres1)
    ensures results == SearchResult(queryWord, meta, fileTokenIndex, hits, thres1, thres2)
    ensures SortedByScore(results) && FilesUnique(results) && PartialsLead(results)
  {
    var queryNorm := NormalizeToken(queryWord);
    var candidateFiles: Dict := [];
    var partialHits: Dict := [];
    for f := 0 to |fileTokenIndex|
      invariant partialHits == IndexPass([], fileTokenIndex[..f], queryNorm)
    {
      assert fileTokenIndex[..f + 1][..f] == fileTokenIndex[..f];
      var fileName, normTokens := fileTokenIndex[f].0, fileTokenIndex[f].1;
      ghost var before := partialHits;
      for t := 0 to |normTokens|
        invariant partialHits == TokenPass(before, fileName, normTokens[..t], queryNorm)
      {
        assert normTokens[..t + 1][..t] == normTokens[..t];
        var token := normTokens[t];
        if StrictlyContains(token, queryNorm) {
          partialHits := Put(partialHits, fileName, NameHit(fileName));
        }
      }
      assert normTokens[..|normTokens|] == normTokens;
    }
    assert fileTokenIndex[..|fileTokenIndex|] == fileTokenIndex;
    ghost var start := Merge(partialHits, candidateFiles);
    for n := 0 to |hits|
      invariant Merge(partialHits, candidateFiles) == MergeRun(start, Resolve(hits[..n], meta, thres1), queryNorm, thres1, thres2)
    {
      assert hits[..n + 1][..n] == hits[..n];
      var dist, idx := hits[n].0, hits[n].1;
      if dist < thres1 {
        assert ResolveRun(hits[..n + 1], meta, thres1) == ResolveRun(hits[..n], meta, thres1) + [];
        assert Resolve(hits[..n + 1], meta, thres1) == Resolve(hits[..n], meta, thres1);
        continue;
      }
      var row := Lookup(meta, idx);
      ghost var rows := Resolve(hits[..n], meta, thres1);
      assert Resolve(hits[..n + 1], meta, thres1) == rows + [(dist, row)];
      assert (rows + [(dist, row)])[..|rows|] == rows;
      assert MergeRun(start, rows + [(dist, row)], queryNorm, thres1, thres2)
          == MergeStep(Merge(partialHits, candidateFiles), dist, row, queryNorm, thres1, thres2);
      var fileName, wordNorm, wordRaw := row.file, row.wordNorm, row.wordRaw;
      if fileName in Keys(partialHits) {
        continue;
      }
      if StrictlyContains(wordNorm, queryNorm) {
        partialHits := Put(partialHits, fileName, Hit(fileName, wordRaw, 1.0, PartialMatch));
        candidateFiles := Pop(candidateFiles, fileName);
        continue;
      }
      if fileName !in Keys(candidateFiles) && dist >= thres2 {
        candidateFiles := Put(candidateFiles, fileName, Hit(fileName, wordRaw, dist, SimilarityMatch));
      }
    }
    assert hits[..|hits|] == hits;
    results := SortByScore(Values(partialHits) + Values(candidateFiles));
    ResultSpec(queryWord, meta, fileTokenIndex, hits, thres1, thres2);
  }
}
