/**
 * The text utilities of the SQL report agent: the Chinese-character test,
 * the extraction of `SELECT … ;` statements from an LLM answer, the
 * normalisation of spacing around `~`, the grouping of markdown table rows
 * that precedes their conversion to data frames, and the extraction of the
 * image captions `![…]`.
 */
module SqlReport {
  import opened Common
  import opened PyStr
  import opened PyRe

  // ---------------------------------------------------------------------
  // contains_chinese: re.search(r'[一-鿿]', text)

  /** A CJK Unified Ideograph of the basic block U+4E00..U+9FFF. */
  predicate IsCjk(c: char) {
    '\U{4E00}' <= c <= '\U{9FFF}'
  }

  /** The one-character pattern `[一-鿿]` tried at position `p`. */
  function CjkMatch(text: string, p: nat): (r: Option<nat>)
    ensures r.Some? <==> p < |text| && IsCjk(text[p])
    ensures r.Some? ==> r.value == p + 1
  {
    if p < |text| && IsCjk(text[p]) then Some(p + 1) else None
  }

  /** `bool(re.search(...))`: the scan finds a match somewhere. */
  function ContainsChinese(text: string): (r: bool)
    ensures r <==> exists i :: 0 <= i < |text| && IsCjk(text[i])
  {
    CjkSearch(text);
    FirstMatch(|text|, (q: nat) => CjkMatch(text, q), 0).Some?
  }

  lemma CjkSearch(text: string)
    ensures FirstMatch(|text|, (q: nat) => CjkMatch(text, q), 0).Some? <==> exists i :: 0 <= i < |text| && IsCjk(text[i])
  {
    var m := (q: nat) => CjkMatch(text, q);
    var f := FirstMatch(|text|, m, 0);
    if f.Some? {
      assert m(f.value).Some?;
      assert IsCjk(text[f.value]);
    } else {
      forall i | 0 <= i < |text|
        ensures !IsCjk(text[i])
      {
        assert m(i).None?;
      }
    }
  }

  // ---------------------------------------------------------------------
  // extract_select_queries: re.findall(r"(SELECT[\s\S]*?;)", text, flags=re.IGNORECASE)

  const SelectWord: string := "SELECT"

  /**
   * Character `c` matches the capital letter `u` of the pattern when case is
   * ignored. Besides the ASCII lower-case letter, Python's `re` also equates
   * U+017F LATIN SMALL LETTER LONG S with `s`.
   */
  predicate FoldEq(c: char, u: char) {
    c == u || c == LowerChar(u) || (u == 'S' && c == '\U{17F}')
  }

  /** The word SELECT, in any case, starts at position `p`. */
  predicate SelectWordAt(text: string, p: nat) {
    p + |SelectWord| <= |text| && forall i :: 0 <= i < |SelectWord| ==> FoldEq(text[p + i], SelectWord[i])
  }

  predicate IsSemicolon(c: char) {
    c == ';'
  }

  /**
   * The pattern tried at `p`: the word, then the lazy `[\s\S]*?` that
   * stops at the first `;` after the word.
   */
  function SelectMatch(text: string, p: nat): (r: Option<nat>)
    ensures r.Some? ==> p + |SelectWord| < r.value <= |text|
  {
    if !SelectWordAt(text, p) then None
    else
      match FirstWhere(text, IsSemicolon, p + |SelectWord|)
      case None => None
      case Some(j) => Some(j + 1)
  }

  function SelectSpans(text: string): seq<(nat, nat)> {
    Spans(|text|, (q: nat) => SelectMatch(text, q), 0)
  }

  /** `text[sp.0..sp.1]`, the text a span covers. */
  function Slice(text: string, sp: (nat, nat)): string {
    if sp.0 <= sp.1 <= |text| then text[sp.0..sp.1] else []
  }

  function ExtractSelectQueries(text: string): seq<string> {
    Map(sp => Slice(text, sp), SelectSpans(text))
  }

  /** What a single query looks like: the word, then text with no `;`, then one `;`. */
  predicate IsQuery(q: string) {
    && |q| > |SelectWord|
    && SelectWordAt(q, 0)
    && q[|q| - 1] == ';'
    && forall i :: 0 <= i < |q| - 1 ==> q[i] != ';'
  }

  /**
   * The queries are the texts of a left-to-right scan: every query has the
   * query shape, consecutive queries do not overlap, and no SELECT followed
   * later by a `;` is skipped between them or after the last one.
   */
  lemma SelectQueriesSpec(text: string)
    ensures IsScan(|text|, (q: nat) => SelectMatch(text, q), 0, SelectSpans(text))
    ensures |ExtractSelectQueries(text)| == |SelectSpans(text)|
    ensures forall k :: 0 <= k < |SelectSpans(text)| ==>
              ExtractSelectQueries(text)[k] == text[SelectSpans(text)[k].0..SelectSpans(text)[k].1]
    ensures forall k :: 0 <= k < |ExtractSelectQueries(text)| ==> IsQuery(ExtractSelectQueries(text)[k])
  {
    var m := (q: nat) => SelectMatch(text, q);
    SpansAreScan(|text|, m, 0);
    var sp := SelectSpans(text);
    var qs := ExtractSelectQueries(text);
    forall k | 0 <= k < |qs|
      ensures IsQuery(qs[k])
    {
      var s, e := sp[k].0, sp[k].1;
      assert m(s) == Some(e);
      QueryShape(text, s, e);
    }
  }

  lemma QueryShape(text: string, s: nat, e: nat)
    requires SelectMatch(text, s) == Some(e)
    ensures IsQuery(text[s..e])
  {
    var q := text[s..e];
    var j := FirstWhere(text, IsSemicolon, s + |SelectWord|).value;
    assert e == j + 1;
    forall i | 0 <= i < |SelectWord|
      ensures FoldEq(q[i], SelectWord[i])
    {
      assert q[i] == text[s + i];
    }
    forall i | 0 <= i < |q| - 1
      ensures q[i] != ';'
    {
      assert q[i] == text[s + i];
      if i < |SelectWord| {
        assert FoldEq(text[s + i], SelectWord[i]);
      }
    }
  }

  /** Every SELECT that some later `;` closes lies inside one of the queries found. */
  lemma SelectQueriesCover(text: string, p: nat)
    requires SelectWordAt(text, p)
    requires exists j :: p + |SelectWord| <= j < |text| && text[j] == ';'
    ensures exists k :: 0 <= k < |SelectSpans(text)| && SelectSpans(text)[k].0 <= p < SelectSpans(text)[k].1
  {
    var m := (q: nat) => SelectMatch(text, q);
    var j :| p + |SelectWord| <= j < |text| && text[j] == ';';
    assert IsSemicolon(text[j]);
    assert FirstWhere(text, IsSemicolon, p + |SelectWord|).Some?;
    assert m(p).Some?;
    SpansCover(|text|, m, 0, p);
    assert SelectSpans(text) == Spans(|text|, m, 0);
  }

  /** Every query ends with a `;` of the text. */
  lemma QueryEnd(text: string, s: nat, e: nat)
    requires SelectMatch(text, s) == Some(e)
    ensures text[e - 1] == ';'
  {
    var j := FirstWhere(text, IsSemicolon, s + |SelectWord|).value;
    assert e == j + 1;
  }

  /** A SELECT with no `;` after it yields no query that reaches it. */
  lemma NoSemicolonNoQuery(text: string, p: nat)
    requires forall j :: p <= j < |text| ==> text[j] != ';'
    ensures forall k :: 0 <= k < |SelectSpans(text)| ==> SelectSpans(text)[k].1 <= p
  {
    var m := (q: nat) => SelectMatch(text, q);
    SpansAreScan(|text|, m, 0);
    var sp := SelectSpans(text);
    assert sp == Spans(|text|, m, 0);
    forall k | 0 <= k < |sp|
      ensures sp[k].1 <= p
    {
      assert m(sp[k].0) == Some(sp[k].1);
      QueryEnd(text, sp[k].0, sp[k].1);
    }
  }

  // ---------------------------------------------------------------------
  // normalize_tilde_spacing: re.sub(r'\s*~\s*', ' ~ ', text)

  /**
   * The number of characters the substitution consumes at the front of `s`
   * in one step. The greedy `\s*~\s*` matches at a position exactly when the
   * maximal whitespace run there is followed by `~`, and then also takes the
   * whitespace run after the `~`. A whitespace run not followed by `~`
   * matches at none of its positions and is copied in one go; any other
   * character is copied alone.
   */
  function ChunkLen(s: string): (n: nat)
    requires s != []
    ensures 0 < n <= |s|
  {
    var k := LeadingSpaces(s);
    if k < |s| && s[k] == '~' then k + 1 + LeadingSpaces(s[k + 1..])
    else if k > 0 then k
    else 1
  }

  /** The front of `s` is a match of `\s*~\s*`. */
  predicate TildeAtFront(s: string) {
    LeadingSpaces(s) < |s| && s[LeadingSpaces(s)] == '~'
  }

  /** What the step writes: the replacement ` ~ ` for a match, the consumed text otherwise. */
  function ChunkOut(s: string): string
    requires s != []
  {
    if TildeAtFront(s) then " ~ " else s[..ChunkLen(s)]
  }

  /** `re.sub(r'\s*~\s*', ' ~ ', s)`. */
  function NormalizeTildeSpacing(s: string): string
    decreases |s|
  {
    if s == [] then [] else ChunkOut(s) + NormalizeTildeSpacing(s[ChunkLen(s)..])
  }

  /** A matched chunk: a whitespace run, the `~`, a whitespace run. */
  lemma TildeChunk(s: string)
    requires s != [] && TildeAtFront(s)
    ensures var k := LeadingSpaces(s);
      s[..ChunkLen(s)] == s[..k] + "~" + s[k + 1..][..LeadingSpaces(s[k + 1..])]
  {
    var k := LeadingSpaces(s);
    var j := LeadingSpaces(s[k + 1..]);
    assert s[..k + 1 + j] == s[..k] + [s[k]] + s[k + 1..][..j];
  }

  /** Every `~` of `r` has a space immediately before and after it. */
  predicate TildeSpaced(r: string) {
    forall i :: 0 <= i < |r| && r[i] == '~' ==> 0 < i < |r| - 1 && r[i - 1] == ' ' && r[i + 1] == ' '
  }

  lemma TildeSpacedAppend(a: string, b: string)
    requires TildeSpaced(a) && TildeSpaced(b)
    ensures TildeSpaced(a + b)
  {
    forall i | 0 <= i < |a + b| && (a + b)[i] == '~'
      ensures 0 < i < |a + b| - 1 && (a + b)[i - 1] == ' ' && (a + b)[i + 1] == ' '
    {
      if i < |a| {
        assert a[i] == '~';
      } else {
        assert b[i - |a|] == '~';
      }
    }
  }

  /** A copied chunk holds no `~`. */
  lemma CopiedChunkNoTilde(s: string)
    requires s != [] && !TildeAtFront(s)
    ensures forall i :: 0 <= i < |ChunkOut(s)| ==> ChunkOut(s)[i] != '~'
  {
    var k := LeadingSpaces(s);
    LeadingSpacesSpec(s);
    if k == 0 {
      assert ChunkOut(s) == [s[0]];
    } else {
      forall i | 0 <= i < k
        ensures s[..k][i] != '~'
      {
        assert IsSpace(s[i]);
      }
    }
  }

  lemma ChunkSpaced(s: string)
    requires s != []
    ensures TildeSpaced(ChunkOut(s))
  {
    if !TildeAtFront(s) {
      CopiedChunkNoTilde(s);
    }
  }

  /** After the substitution every `~` is surrounded by single spaces. */
  lemma {:induction false} TildeSpacedAfter(s: string)
    ensures TildeSpaced(NormalizeTildeSpacing(s))
    decreases |s|
  {
    if s != [] {
      TildeSpacedAfter(s[ChunkLen(s)..]);
      ChunkSpaced(s);
      TildeSpacedAppend(ChunkOut(s), NormalizeTildeSpacing(s[ChunkLen(s)..]));
    }
  }

  /** The number of `~` characters in `s`. */
  function Tildes(s: string): nat {
    multiset(s)['~']
  }

  lemma ChunkTildes(s: string)
    requires s != []
    ensures Tildes(ChunkOut(s)) == Tildes(s[..ChunkLen(s)])
  {
    if TildeAtFront(s) {
      var k := LeadingSpaces(s);
      var j := LeadingSpaces(s[k + 1..]);
      TildeChunk(s);
      LeadingRunAllSpace(s);
      LeadingRunAllSpace(s[k + 1..]);
      AllSpaceNoTilde(s[..k]);
      AllSpaceNoTilde(s[k + 1..][..j]);
      assert multiset(" ~ ")['~'] == 1;
    }
  }

  lemma AllSpaceNoTilde(w: string)
    requires AllSpace(w)
    ensures Tildes(w) == 0
    decreases |w|
  {
    if w != [] {
      AllSpaceNoTilde(w[1..]);
      assert w == [w[0]] + w[1..];
    }
  }

  /** The substitution keeps the number of `~` characters. */
  lemma {:induction false} TildeCountKept(s: string)
    ensures Tildes(NormalizeTildeSpacing(s)) == Tildes(s)
    decreases |s|
  {
    if s != [] {
      var n := ChunkLen(s);
      calc {
        Tildes(NormalizeTildeSpacing(s));
        Tildes(ChunkOut(s)) + Tildes(NormalizeTildeSpacing(s[n..]));
        { ChunkTildes(s); TildeCountKept(s[n..]); }
        Tildes(s[..n]) + Tildes(s[n..]);
        { assert s == s[..n] + s[n..]; }
        Tildes(s);
      }
    }
  }

  /** A string without `~` comes back unchanged. */
  lemma {:induction false} NoTildeUnchanged(s: string)
    requires forall i :: 0 <= i < |s| ==> s[i] != '~'
    ensures NormalizeTildeSpacing(s) == s
    decreases |s|
  {
    if s != [] {
      var n := ChunkLen(s);
      assert s[n..][0..] == s[n..];
      NoTildeUnchanged(s[n..]);
      assert s == s[..n] + s[n..];
    }
  }

  /** The characters of `s` other than whitespace, in order. */
  function NonSpace(s: string): string
    decreases |s|
  {
    if s == [] then [] else (if IsSpace(s[0]) then [] else [s[0]]) + NonSpace(s[1..])
  }

  lemma {:induction false} NonSpaceAppend(a: string, b: string)
    ensures NonSpace(a + b) == NonSpace(a) + NonSpace(b)
    decreases |a|
  {
    if a != [] {
      assert (a + b)[1..] == a[1..] + b;
      NonSpaceAppend(a[1..], b);
    } else {
      assert a + b == b;
    }
  }

  lemma {:induction false} AllSpaceVanish(w: string)
    requires AllSpace(w)
    ensures NonSpace(w) == []
    decreases |w|
  {
    if w != [] {
      AllSpaceVanish(w[1..]);
    }
  }

  lemma ChunkNonSpace(s: string)
    requires s != []
    ensures NonSpace(ChunkOut(s)) == NonSpace(s[..ChunkLen(s)])
  {
    if TildeAtFront(s) {
      var k := LeadingSpaces(s);
      var j := LeadingSpaces(s[k + 1..]);
      TildeChunk(s);
      LeadingRunAllSpace(s);
      LeadingRunAllSpace(s[k + 1..]);
      AllSpaceVanish(s[..k]);
      AllSpaceVanish(s[k + 1..][..j]);
      NonSpaceAppend(s[..k] + "~", s[k + 1..][..j]);
      NonSpaceAppend(s[..k], "~");
      assert NonSpace("~") == "~";
      assert NonSpace(" ~ ") == "~" by {
        assert " ~ "[1..] == "~ ";
        assert "~ "[1..] == " ";
        assert " "[1..] == [];
      }
    }
  }

  /**
   * The substitution only rewrites whitespace: the non-whitespace
   * characters of the result are those of the input, in the same order.
   */
  lemma {:induction false} NonSpaceKept(s: string)
    ensures NonSpace(NormalizeTildeSpacing(s)) == NonSpace(s)
    decreases |s|
  {
    if s != [] {
      var n := ChunkLen(s);
      calc {
        NonSpace(NormalizeTildeSpacing(s));
        NonSpace(ChunkOut(s) + NormalizeTildeSpacing(s[n..]));
        { NonSpaceAppend(ChunkOut(s), NormalizeTildeSpacing(s[n..])); }
        NonSpace(ChunkOut(s)) + NonSpace(NormalizeTildeSpacing(s[n..]));
        { ChunkNonSpace(s); NonSpaceKept(s[n..]); }
        NonSpace(s[..n]) + NonSpace(s[n..]);
        { NonSpaceAppend(s[..n], s[n..]); assert s == s[..n] + s[n..]; }
        NonSpace(s);
      }
    }
  }

  /** A whitespace run in front of a non-whitespace character ends before it. */
  lemma {:induction false} LeadingSpacesStop(a: string, r: string)
    requires r != [] && !IsSpace(r[0])
    ensures LeadingSpaces(a + r) == LeadingSpaces(a)
    decreases |a|
  {
    if a == [] {
      assert a + r == r;
    } else if IsSpace(a[0]) {
      assert (a + r)[1..] == a[1..] + r;
      LeadingSpacesStop(a[1..], r);
    }
  }

  /** A step that starts in `a` ends within `a` when `a` is followed by a character other than whitespace or `~`. */
  lemma ChunkStop(a: string, r: string)
    requires a != [] && r != [] && !IsSpace(r[0]) && r[0] != '~'
    ensures ChunkLen(a + r) == ChunkLen(a) && ChunkOut(a + r) == ChunkOut(a)
  {
    var s := a + r;
    LeadingSpacesStop(a, r);
    var k := LeadingSpaces(a);
    if k < |a| {
      assert s[k] == a[k];
      if a[k] == '~' {
        assert s[k + 1..] == a[k + 1..] + r;
        LeadingSpacesStop(a[k + 1..], r);
      }
      assert s[..ChunkLen(a)] == a[..ChunkLen(a)];
    } else {
      assert s[k] == r[0];
      assert s[..k] == a[..k];
    }
  }

  /** The rewrite of `a + r` is that of `a` followed by that of `r`, when `r` starts with neither whitespace nor `~`. */
  lemma {:induction false} TildeSplit(a: string, r: string)
    requires r != [] && !IsSpace(r[0]) && r[0] != '~'
    ensures NormalizeTildeSpacing(a + r) == NormalizeTildeSpacing(a) + NormalizeTildeSpacing(r)
    decreases |a|
  {
    if a == [] {
      assert a + r == r;
    } else {
      var n := ChunkLen(a);
      ChunkStop(a, r);
      assert (a + r)[n..] == a[n..] + r;
      TildeSplit(a[n..], r);
      calc {
        NormalizeTildeSpacing(a + r);
        ChunkOut(a + r) + NormalizeTildeSpacing((a + r)[ChunkLen(a + r)..]);
        ChunkOut(a) + NormalizeTildeSpacing(a[n..] + r);
        ChunkOut(a) + (NormalizeTildeSpacing(a[n..]) + NormalizeTildeSpacing(r));
        NormalizeTildeSpacing(a) + NormalizeTildeSpacing(r);
      }
    }
  }

  /**
   * The rewrite is local: a character that is neither whitespace nor `~`
   * is kept, and what lies on either side of it is rewritten on its own.
   * With NoTildeUnchanged, whitespace that does not touch a `~` through a
   * whitespace run is never changed.
   */
  lemma TildeLocal(a: string, c: char, b: string)
    requires !IsSpace(c) && c != '~'
    ensures NormalizeTildeSpacing(a + [c] + b) == NormalizeTildeSpacing(a) + [c] + NormalizeTildeSpacing(b)
  {
    assert a + [c] + b == a + ([c] + b);
    TildeSplit(a, [c] + b);
    var r := [c] + b;
    assert LeadingSpaces(r) == 0;
    assert ChunkLen(r) == 1 && ChunkOut(r) == [c];
    assert r[1..] == b;
  }

  // ---------------------------------------------------------------------
  // extract_all_markdown_tables, up to the conversion of each group

  /** The line boundaries of `str.splitlines()`. */
  predicate IsLineBreak(c: char) {
    || c == '\n' || c == '\r' || c == '\U{0B}' || c == '\U{0C}'
    || c == '\U{1C}' || c == '\U{1D}' || c == '\U{1E}'
    || c == '\U{85}' || c == '\U{2028}' || c == '\U{2029}'
  }

  /** `text.splitlines()`: `\r\n` is one boundary; a final boundary opens no empty line. */
  function SplitLines(s: string): (r: seq<string>)
    ensures forall k, j :: 0 <= k < |r| && 0 <= j < |r[k]| ==> !IsLineBreak(r[k][j])
    decreases |s|
  {
    if s == [] then []
    else
      match FirstWhere(s, IsLineBreak, 0)
      case None => [s]
      case Some(i) =>
        var w := if s[i] == '\r' && i + 1 < |s| && s[i + 1] == '\n' then 2 else 1;
        [s[..i]] + SplitLines(s[i + w..])
  }

  /** `re.match(r'^\|.*\|$', s)`: `.` matches anything but a newline. */
  predicate IsPipeRow(s: string) {
    |s| >= 2 && s[0] == '|' && s[|s| - 1] == '|' && forall i :: 0 <= i < |s| ==> s[i] != '\n'
  }

  /** `re.match(r'^\|\s*-+', s)`: a bar, optional whitespace, a dash. */
  predicate IsSeparator(s: string) {
    |s| >= 1 && s[0] == '|' && 1 + LeadingSpaces(s[1..]) < |s| && s[1 + LeadingSpaces(s[1..])] == '-'
  }

  /** A stripped line that is collected as a table row. */
  predicate IsDataRow(s: string) {
    IsPipeRow(s) && !IsSeparator(s)
  }

  /**
   * `re.sub(r'(?<=\d)\s+(?=\d)', '', s)`: a maximal whitespace run between
   * two digits is deleted. A shorter part of a run never matches, since the
   * look-ahead then sees whitespace and a later start sees whitespace behind.
   */
  function GlueDigits(s: string): (r: string)
    ensures s != [] ==> r != [] && r[0] == s[0]
    decreases |s|
  {
    if s == [] then [] else [s[0]] + GlueDigits(s[GlueSkip(s)..])
  }

  /**
   * How far the substitution moves past `s[0]`: over `s[0]` and the
   * whitespace run after it when that run sits between two digits, else
   * over `s[0]` alone.
   */
  function GlueSkip(s: string): (n: nat)
    requires s != []
    ensures 0 < n <= |s|
  {
    var k := LeadingSpaces(s[1..]);
    if IsDigit(s[0]) && 0 < k < |s| - 1 && IsDigit(s[1 + k]) then 1 + k else 1
  }

  /** The whitespace run at the front of `u` is not followed by a digit. */
  predicate RunNotBeforeDigit(u: string) {
    LeadingSpaces(u) == |u| || !IsDigit(u[LeadingSpaces(u)])
  }

  /** No whitespace run in `r` lies between two digits, checked position by position. */
  predicate NoDigitGap(r: string)
    decreases |r|
  {
    r == [] ||
    ((IsDigit(r[0]) && |r| > 1 && IsSpace(r[1]) ==> RunNotBeforeDigit(r[1..])) && NoDigitGap(r[1..]))
  }

  /** NoDigitGap says: after every digit followed by whitespace, the whitespace run is not followed by a digit. */
  lemma {:induction false} NoDigitGapMeaning(r: string)
    ensures NoDigitGap(r) <==>
      forall i :: 0 <= i < |r| - 1 && IsDigit(r[i]) && IsSpace(r[i + 1]) ==> RunNotBeforeDigit(r[i + 1..])
    decreases |r|
  {
    if r != [] {
      NoDigitGapMeaning(r[1..]);
      var u := r[1..];
      forall i | 1 <= i < |r| - 1
        ensures r[i] == u[i - 1] && r[i + 1] == u[i] && r[i + 1..] == u[i..]
      {
      }
    }
  }

  /** GlueDigits copies a prefix that holds no digit. */
  lemma {:induction false} GlueNoDigits(w: string, u: string)
    requires forall i :: 0 <= i < |w| ==> !IsDigit(w[i])
    ensures GlueDigits(w + u) == w + GlueDigits(u)
    decreases |w|
  {
    if w == [] {
      assert w + u == u;
    } else {
      var c, t := w[0], w[1..];
      assert w + u == [c] + (t + u);
      GlueNonDigit(c, t + u);
      GlueNoDigits(t, u);
      assert w == [c] + t;
      ConsAssoc(c, t, GlueDigits(u));
    }
  }

  lemma ConsAssoc(c: char, t: string, g: string)
    ensures [c] + (t + g) == ([c] + t) + g
  {
  }

  /** A whitespace text holds no digit. */
  lemma {:induction false} AllSpaceNoDigit(w: string)
    requires AllSpace(w)
    ensures forall i :: 0 <= i < |w| ==> !IsDigit(w[i])
    decreases |w|
  {
    if w != [] {
      SpaceNotDigit(w[0]);
      AllSpaceNoDigit(w[1..]);
      forall i | 1 <= i < |w|
        ensures !IsDigit(w[i])
      {
        assert w[i] == w[1..][i - 1];
      }
    }
  }

  /** A character that is not a digit is copied and the scan moves on by one. */
  lemma GlueNonDigit(c: char, t: string)
    requires !IsDigit(c)
    ensures GlueDigits([c] + t) == [c] + GlueDigits(t)
  {
    var s := [c] + t;
    assert s[0] == c && s[1..] == t;
    assert GlueSkip(s) == 1;
  }

  /** The leading whitespace of `w + u` for a whitespace `w` and a `u` that does not start with whitespace. */
  lemma {:induction false} LeadingSpacesPrefix(w: string, u: string)
    requires AllSpace(w)
    requires u == [] || !IsSpace(u[0])
    ensures LeadingSpaces(w + u) == |w|
    decreases |w|
  {
    if w == [] {
      assert w + u == u;
    } else {
      assert (w + u)[1..] == w[1..] + u;
      LeadingSpacesPrefix(w[1..], u);
    }
  }

  /**
   * Behind a digit, GlueDigits of a text whose leading whitespace run is not
   * followed by a digit leaves that run in place, still not followed by a digit.
   */
  lemma GapAfterDigit(t: string)
    requires 0 < LeadingSpaces(t)
    requires !(LeadingSpaces(t) < |t| && IsDigit(t[LeadingSpaces(t)]))
    ensures RunNotBeforeDigit(GlueDigits(t))
  {
    var k := LeadingSpaces(t);
    var w, v := t[..k], t[k..];
    assert t == w + v;
    LeadingSpacesSpec(t);
    LeadingRunAllSpace(t);
    AllSpaceNoDigit(w);
    GlueNoDigits(w, v);
    var gv := GlueDigits(v);
    LeadingSpacesPrefix(w, gv);
    var u := GlueDigits(t);
    assert u == w + gv;
    if k < |t| {
      assert u[k] == gv[0] == t[k];
    }
  }

  /** After GlueDigits no whitespace run is left between two digits. */
  lemma {:induction false} GlueDigitsNoGap(s: string)
    ensures NoDigitGap(GlueDigits(s))
    decreases |s|
  {
    if s != [] {
      var n := GlueSkip(s);
      var tail := GlueDigits(s[n..]);
      assert GlueDigits(s)[1..] == tail;
      GlueDigitsNoGap(s[n..]);
      if IsDigit(s[0]) && tail != [] && IsSpace(tail[0]) {
        var t := s[1..];
        var k := LeadingSpaces(t);
        if n == 1 {
          assert t == s[n..];
          GapAfterDigit(t);
        } else {
          SpaceNotDigit(tail[0]);
        }
      }
    }
  }

  /** The state of the line loop: the closed groups, the open group and the `in_table` flag. */
  datatype Grouping = Grouping(tables: seq<seq<string>>, current: seq<string>, inTable: bool)

  const NoGroups := Grouping([], [], false)

  /** One iteration of the loop over the lines. */
  function GroupStep(g: Grouping, line: string): Grouping {
    var stripped := Strip(line);
    if IsPipeRow(stripped) then
      if IsSeparator(stripped) then g
      else Grouping(g.tables, g.current + [GlueDigits(stripped)], true)
    else if g.inTable then
      if g.current != [] then Grouping(g.tables + [g.current], [], false)
      else Grouping(g.tables, g.current, false)
    else g
  }

  /** The loop run over `lines` from state `g`. */
  function RunFrom(g: Grouping, lines: seq<string>): Grouping
    decreases |lines|
  {
    if lines == [] then g
    else GroupStep(RunFrom(g, lines[..|lines| - 1]), lines[|lines| - 1])
  }

  /** The final `if current_table:` after the loop. */
  function Finish(g: Grouping): seq<seq<string>> {
    if g.current != [] then g.tables + [g.current] else g.tables
  }

  /** The row groups emitted for `lines`, each of which the source hands to convert_table. */
  function TableGroups(lines: seq<string>): seq<seq<string>> {
    Finish(RunFrom(NoGroups, lines))
  }

  /** The rows the loop collects, in input order. */
  function CollectedRows(lines: seq<string>): seq<string> {
    Map(GlueDigits, Filter(IsDataRow, Map(Strip, lines)))
  }

  /**
   * The loop of `extract_all_markdown_tables` over `text.splitlines()`,
   * returning the row groups (the data-frame conversion is not modelled).
   */
  method ExtractAllMarkdownTables(text: string) returns (tables: seq<seq<string>>)
    ensures tables == TableGroups(SplitLines(text))
  {
    var lines := SplitLines(text);
    tables := [];
    var currentTable: seq<string> := [];
    var inTable := false;
    for i := 0 to |lines|
      invariant Grouping(tables, currentTable, inTable) == RunFrom(NoGroups, lines[..i])
    {
      assert lines[..i + 1][..i] == lines[..i];
      var stripped := Strip(lines[i]);
      if IsPipeRow(stripped) {
        if IsSeparator(stripped) {
          continue;
        }
        stripped := GlueDigits(stripped);
        currentTable := currentTable + [stripped];
        inTable := true;
      } else if inTable {
        if currentTable != [] {
          tables := tables + [currentTable];
          currentTable := [];
        }
        inTable := false;
      }
    }
    assert lines[..|lines|] == lines;
    if currentTable != [] {
      tables := tables + [currentTable];
    }
  }

  /** The invariant of the loop state: the flag is set exactly when a group is open, no group is empty, rows are collected. */
  ghost predicate GroupingOk(g: Grouping, lines: seq<string>) {
    && (g.inTable <==> g.current != [])
    && (forall k :: 0 <= k < |g.tables| ==> g.tables[k] != [])
    && Flatten(g.tables) + g.current == CollectedRows(lines)
  }

  lemma CollectedSnoc(lines: seq<string>, x: string)
    ensures CollectedRows(lines + [x]) ==
            CollectedRows(lines) + (if IsDataRow(Strip(x)) then [GlueDigits(Strip(x))] else [])
  {
    MapAppend(Strip, lines, [x]);
    FilterAppend(IsDataRow, Map(Strip, lines), Map(Strip, [x]));
    assert Filter(IsDataRow, Map(Strip, [x])) == Filter(IsDataRow, [Strip(x)]);
    assert [Strip(x)][..0] == [];
    MapAppend(GlueDigits, Filter(IsDataRow, Map(Strip, lines)), Filter(IsDataRow, [Strip(x)]));
  }

  lemma {:induction false} RunFromOk(lines: seq<string>)
    ensures GroupingOk(RunFrom(NoGroups, lines), lines)
    decreases |lines|
  {
    if lines != [] {
      var init, x := lines[..|lines| - 1], lines[|lines| - 1];
      assert lines == init + [x];
      RunFromOk(init);
      CollectedSnoc(init, x);
      var g := RunFrom(NoGroups, init);
      if !IsPipeRow(Strip(x)) && g.inTable && g.current != [] {
        assert Flatten(g.tables + [g.current]) == Flatten(g.tables) + g.current by {
          assert (g.tables + [g.current])[..|g.tables|] == g.tables;
        }
      }
    } else {
      assert CollectedRows([]) == [];
    }
  }

  /** Every emitted group is non-empty, and together the groups are the collected rows in input order. */
  lemma GroupsAreRows(lines: seq<string>)
    ensures forall k :: 0 <= k < |TableGroups(lines)| ==> TableGroups(lines)[k] != []
    ensures Flatten(TableGroups(lines)) == CollectedRows(lines)
  {
    RunFromOk(lines);
    var g := RunFrom(NoGroups, lines);
    if g.current != [] {
      assert (g.tables + [g.current])[..|g.tables|] == g.tables;
    }
  }

  /** Each collected row is a glued data row, so no whitespace run is left between two digits. */
  lemma RowsHaveNoDigitGap(lines: seq<string>)
    ensures forall k :: 0 <= k < |CollectedRows(lines)| ==> NoDigitGap(CollectedRows(lines)[k])
  {
    forall k | 0 <= k < |CollectedRows(lines)|
      ensures NoDigitGap(CollectedRows(lines)[k])
    {
      GlueDigitsNoGap(Filter(IsDataRow, Map(Strip, lines))[k]);
    }
  }

  lemma {:induction false} RunFromAppend(g: Grouping, a: seq<string>, b: seq<string>)
    ensures RunFrom(g, a + b) == RunFrom(RunFrom(g, a), b)
    decreases |b|
  {
    if b == [] {
      assert a + b == a;
    } else {
      assert (a + b)[..|a + b| - 1] == a + b[..|b| - 1];
      RunFromAppend(g, a, b[..|b| - 1]);
    }
  }

  /** Closed groups before the run are carried along untouched. */
  lemma {:induction false} RunFromShift(ts: seq<seq<string>>, b: seq<string>)
    ensures RunFrom(Grouping(ts, [], false), b) ==
            var r := RunFrom(NoGroups, b); Grouping(ts + r.tables, r.current, r.inTable)
    decreases |b|
  {
    if b != [] {
      RunFromShift(ts, b[..|b| - 1]);
      var r := RunFrom(NoGroups, b[..|b| - 1]);
      assert (ts + r.tables) + [r.current] == ts + (r.tables + [r.current]);
    }
  }

  /** A line that is not a pipe row closes the open group: the groups on both sides are independent. */
  lemma NonTableLineCloses(a: seq<string>, x: string, b: seq<string>)
    requires !IsPipeRow(Strip(x))
    ensures TableGroups(a + [x] + b) == TableGroups(a) + TableGroups(b)
  {
    RunFromAppend(NoGroups, a + [x], b);
    RunFromAppend(NoGroups, a, [x]);
    RunFromOk(a);
    assert RunFrom(NoGroups, a + [x]) == Grouping(TableGroups(a), [], false);
    RunFromShift(TableGroups(a), b);
    var r := RunFrom(NoGroups, b);
    if r.current != [] {
      assert TableGroups(a) + r.tables + [r.current] == TableGroups(a) + (r.tables + [r.current]);
    }
  }

  /** A separator row neither opens nor closes a group: the result is as if it were absent. */
  lemma SeparatorIgnored(a: seq<string>, x: string, b: seq<string>)
    requires IsPipeRow(Strip(x)) && IsSeparator(Strip(x))
    ensures TableGroups(a + [x] + b) == TableGroups(a + b)
  {
    RunFromAppend(NoGroups, a + [x], b);
    RunFromAppend(NoGroups, a, [x]);
    RunFromAppend(NoGroups, a, b);
  }

  /** Data rows up to the end of the input form one group that is still emitted. */
  lemma {:induction false} OpenGroupEmitted(rows: seq<string>)
    requires rows != []
    requires forall k :: 0 <= k < |rows| ==> IsDataRow(Strip(rows[k]))
    ensures TableGroups(rows) == [Map(GlueDigits, Map(Strip, rows))]
  {
    OpenRun(rows);
  }

  lemma {:induction false} OpenRun(rows: seq<string>)
    requires forall k :: 0 <= k < |rows| ==> IsDataRow(Strip(rows[k]))
    ensures RunFrom(NoGroups, rows) == Grouping([], Map(GlueDigits, Map(Strip, rows)), rows != [])
    decreases |rows|
  {
    if rows == [] {
      assert Map(Strip, rows) == [];
      assert Map(GlueDigits, Map(Strip, rows)) == [];
    } else {
      var init, x := rows[..|rows| - 1], rows[|rows| - 1];
      forall k | 0 <= k < |init|
        ensures IsDataRow(Strip(init[k]))
      {
        assert init[k] == rows[k];
      }
      OpenRun(init);
      var g := RunFrom(NoGroups, init);
      assert RunFrom(NoGroups, rows) == GroupStep(g, x);
      DataRowStep(g, x);
      GluedSnoc(rows);
    }
  }

  /** A data row joins the open group. */
  lemma DataRowStep(g: Grouping, x: string)
    requires IsDataRow(Strip(x))
    ensures GroupStep(g, x) == Grouping(g.tables, g.current + [GlueDigits(Strip(x))], true)
  {
  }

  lemma GluedSnoc(rows: seq<string>)
    requires rows != []
    ensures Map(GlueDigits, Map(Strip, rows)) ==
            Map(GlueDigits, Map(Strip, rows[..|rows| - 1])) + [GlueDigits(Strip(rows[|rows| - 1]))]
  {
    var init, x := rows[..|rows| - 1], rows[|rows| - 1];
    assert rows == init + [x];
    assert Map(Strip, init + [x]) == Map(Strip, init) + [Strip(x)];
  }

  // ---------------------------------------------------------------------
  // the captions: re.findall(r'!\[(.*?)\]', response_print)

  predicate EndsCaption(c: char) {
    c == ']' || c == '\n'
  }

  /** `!\[(.*?)\]` tried at `p`: the lazy `.*?` stops at the first `]`, and cannot cross a newline. */
  function CaptionMatch(text: string, p: nat): (r: Option<nat>)
    ensures r.Some? ==> p + 3 <= r.value <= |text|
  {
    if p + 2 <= |text| && text[p] == '!' && text[p + 1] == '[' then
      match FirstWhere(text, EndsCaption, p + 2)
      case Some(j) => if text[j] == ']' then Some(j + 1) else None
      case None => None
    else None
  }

  function CaptionSpans(text: string): seq<(nat, nat)> {
    Spans(|text|, (q: nat) => CaptionMatch(text, q), 0)
  }

  /** The group `(.*?)` of a match span: the match without `![` and `]`. */
  function CaptionGroup(text: string, sp: (nat, nat)): string {
    if sp.0 + 2 <= sp.1 - 1 && sp.1 <= |text| then text[sp.0 + 2..sp.1 - 1] else []
  }

  function ImageCaptions(text: string): seq<string> {
    Map(sp => CaptionGroup(text, sp), CaptionSpans(text))
  }

  /**
   * The captions come from a left-to-right scan; each one is what sits
   * between `![` and the first `]` after it, and holds neither `]` nor a
   * newline.
   */
  lemma ImageCaptionsSpec(text: string)
    ensures IsScan(|text|, (q: nat) => CaptionMatch(text, q), 0, CaptionSpans(text))
    ensures |ImageCaptions(text)| == |CaptionSpans(text)|
    ensures forall k :: 0 <= k < |CaptionSpans(text)| ==>
              text[CaptionSpans(text)[k].0..CaptionSpans(text)[k].1] == "![" + ImageCaptions(text)[k] + "]"
    ensures forall k, i :: 0 <= k < |ImageCaptions(text)| && 0 <= i < |ImageCaptions(text)[k]| ==>
              !EndsCaption(ImageCaptions(text)[k][i])
  {
    var m := (q: nat) => CaptionMatch(text, q);
    SpansAreScan(|text|, m, 0);
    var sp := CaptionSpans(text);
    forall k | 0 <= k < |sp|
      ensures text[sp[k].0..sp[k].1] == "![" + ImageCaptions(text)[k] + "]"
      ensures forall i :: 0 <= i < |ImageCaptions(text)[k]| ==> !EndsCaption(ImageCaptions(text)[k][i])
    {
      CaptionAt(text, k);
    }
  }

  lemma CaptionAt(text: string, k: nat)
    requires k < |CaptionSpans(text)|
    ensures CaptionSpans(text)[k].0 + 3 <= CaptionSpans(text)[k].1 <= |text|
    ensures text[CaptionSpans(text)[k].0..CaptionSpans(text)[k].1] == "![" + ImageCaptions(text)[k] + "]"
    ensures forall i :: 0 <= i < |ImageCaptions(text)[k]| ==> !EndsCaption(ImageCaptions(text)[k][i])
  {
    var sp := CaptionSpans(text)[k];
    var s, e := sp.0, sp.1;
    CaptionSpanMatch(text, k);
    CaptionShape(text, s, e);
    var c := ImageCaptions(text)[k];
    assert c == CaptionGroup(text, sp);
    assert c == text[s + 2..e - 1];
    forall i | 0 <= i < |c|
      ensures !EndsCaption(c[i])
    {
      assert c[i] == text[s + 2 + i];
    }
  }

  /** Each span found is a match of the caption pattern. */
  lemma CaptionSpanMatch(text: string, k: nat)
    requires k < |CaptionSpans(text)|
    ensures CaptionMatch(text, CaptionSpans(text)[k].0) == Some(CaptionSpans(text)[k].1)
  {
    var m := (q: nat) => CaptionMatch(text, q);
    SpansAreScan(|text|, m, 0);
    assert m(CaptionSpans(text)[k].0) == Some(CaptionSpans(text)[k].1);
  }

  lemma CaptionShape(text: string, s: nat, e: nat)
    requires CaptionMatch(text, s) == Some(e)
    ensures text[s..e] == "![" + CaptionGroup(text, (s, e)) + "]"
    ensures forall i :: s + 2 <= i < e - 1 ==> !EndsCaption(text[i])
  {
    var j := FirstWhere(text, EndsCaption, s + 2).value;
    assert e == j + 1;
    assert text[s..e] == [text[s]] + [text[s + 1]] + text[s + 2..j] + [text[j]];
  }
}
