/**
 * The part of Python's xml.etree.ElementTree that the report assembly
 * uses: elements with a tag, an attribute map, optional text and ordered
 * children; addresses of sub-elements (index paths); `iter()` order;
 * `findall`/`find` with descendant steps and an `[@key='value']` predicate.
 * Elements are values here, so `copy.deepcopy` is the identity on them.
 *
 * The search functions carry no postconditions of their own; what they
 * return is stated by the lemmas after each of them, which keeps the
 * definitions cheap to unfold where they are used.
 */
module Markup {
  import opened Common

  /** The paragraph namespace that jbnu_report.py registers under the prefix `hp`. */
  const HpNs := "http://www.hancom.co.kr/hwpml/2011/paragraph"

  /** The expanded name `{uri}local` ElementTree stores for `hp:local`. */
  function Hp(local: string): string {
    "{" + HpNs + "}" + local
  }

  datatype Node = Node(tag: string, attrib: map<string, string>, text: Option<string>, children: seq<Node>)

  /** The address of a sub-element: child indices from the node downwards. */
  type Path = seq<nat>

  predicate ValidPath(n: Node, p: Path)
    decreases |p|
  {
    p == [] || (p[0] < |n.children| && ValidPath(n.children[p[0]], p[1..]))
  }

  /**
   * The sub-element at `p`. Only valid paths are ever followed; on an
   * invalid one the walk stops at the last element it reached.
   */
  function At(n: Node, p: Path): Node
    decreases |p|
  {
    if p == [] || p[0] >= |n.children| then n else At(n.children[p[0]], p[1..])
  }

  /** `n` with the sub-element at `p` replaced by `m`: an in-place update of that element. */
  function Replace(n: Node, p: Path, m: Node): (r: Node)
    ensures ValidPath(n, p) ==> ValidPath(r, p) && At(r, p) == m
    ensures p != [] ==> r.tag == n.tag && r.attrib == n.attrib && r.text == n.text
    ensures p != [] ==> |r.children| == |n.children|
    decreases |p|
  {
    if p == [] then m
    else if p[0] >= |n.children| then n
    else
      var r := n.(children := n.children[p[0] := Replace(n.children[p[0]], p[1..], m)]);
      assert r.children[p[0]] == Replace(n.children[p[0]], p[1..], m);
      r
  }

  /** Putting back what was at `p` gives the node back. */
  lemma {:induction false} ReplaceAtSelf(n: Node, p: Path)
    ensures Replace(n, p, At(n, p)) == n
    decreases |p|
  {
    if p != [] && p[0] < |n.children| {
      ReplaceAtSelf(n.children[p[0]], p[1..]);
      assert n.children[p[0] := n.children[p[0]]] == n.children;
    }
  }

  /** A second replacement at the same address undoes the first. */
  lemma {:induction false} ReplaceTwice(n: Node, p: Path, m1: Node, m2: Node)
    ensures Replace(Replace(n, p, m1), p, m2) == Replace(n, p, m2)
    decreases |p|
  {
    if p != [] && p[0] < |n.children| {
      ReplaceTwice(n.children[p[0]], p[1..], m1, m2);
      var r1 := Replace(n, p, m1);
      assert r1.children[p[0]] == Replace(n.children[p[0]], p[1..], m1);
      assert r1.children[p[0] := Replace(r1.children[p[0]], p[1..], m2)]
          == n.children[p[0] := Replace(n.children[p[0]], p[1..], m2)];
    }
  }

  /** Addresses compose: the path `b + d` reaches `d` inside the element at `b`. */
  lemma {:induction false} AtConcat(n: Node, b: Path, d: Path)
    requires ValidPath(n, b)
    ensures ValidPath(n, b + d) <==> ValidPath(At(n, b), d)
    ensures At(n, b + d) == At(At(n, b), d)
    decreases |b|
  {
    if b != [] {
      assert (b + d)[0] == b[0] && (b + d)[1..] == b[1..] + d;
      AtConcat(n.children[b[0]], b[1..], d);
    } else {
      assert b + d == d;
    }
  }

  /** Each path of `ps` prefixed with `b`, in order. */
  function Extend(b: Path, ps: seq<Path>): seq<Path> {
    seq(|ps|, k requires 0 <= k < |ps| => b + ps[k])
  }

  /** The paths of Extend(b, ds) are the paths `b + d` for `d` in `ds`. */
  lemma ExtendMembers(b: Path, ds: seq<Path>, q: Path)
    ensures q in Extend(b, ds) <==> exists d :: d in ds && q == b + d
  {
    if exists d :: d in ds && q == b + d {
      var d :| d in ds && q == b + d;
      var k :| 0 <= k < |ds| && ds[k] == d;
      assert Extend(b, ds)[k] == q;
    }
  }

  /**
   * The strict descendants of `n` in document order: `n.iter()` without
   * `n` itself, which is what every descendant step of ElementPath walks.
   */
  function Desc(n: Node): seq<Path>
    decreases n, 1
  {
    DescFrom(n, 0)
  }

  /** The descendants reached through children `i`, `i+1`, ... in document order. */
  function DescFrom(n: Node, i: nat): seq<Path>
    decreases n, 0, if i <= |n.children| then |n.children| - i else 0
  {
    if i >= |n.children| then []
    else [[i]] + Extend([i], Desc(n.children[i])) + DescFrom(n, i + 1)
  }

  /** Desc lists only addresses of sub-elements, none of them the node itself. */
  lemma {:induction false} DescValid(n: Node, q: Path)
    requires q in Desc(n)
    ensures |q| > 0 && ValidPath(n, q)
    decreases n, 1
  {
    DescFromValid(n, 0, q);
  }

  lemma {:induction false} DescFromValid(n: Node, i: nat, q: Path)
    requires q in DescFrom(n, i)
    ensures |q| > 0 && i <= q[0] && ValidPath(n, q)
    decreases n, 0, if i <= |n.children| then |n.children| - i else 0
  {
    var sub := Desc(n.children[i]);
    if q in Extend([i], sub) {
      var k :| 0 <= k < |sub| && Extend([i], sub)[k] == q;
      DescValid(n.children[i], sub[k]);
      assert q[0] == i && q[1..] == sub[k];
    } else if q != [i] {
      DescFromValid(n, i + 1, q);
    }
  }

  /** Every sub-element is visited: each valid non-empty path is in Desc. */
  lemma {:induction false} DescComplete(n: Node, q: Path)
    requires |q| > 0 && ValidPath(n, q)
    ensures q in Desc(n)
    decreases n, 1
  {
    DescFromComplete(n, 0, q);
  }

  lemma {:induction false} DescFromComplete(n: Node, i: nat, q: Path)
    requires |q| > 0 && ValidPath(n, q) && i <= q[0]
    ensures q in DescFrom(n, i)
    decreases n, 0, |n.children| - i
  {
    var sub := Desc(n.children[i]);
    if i == q[0] {
      if |q| > 1 {
        DescComplete(n.children[i], q[1..]);
        var k :| 0 <= k < |sub| && sub[k] == q[1..];
        assert Extend([i], sub)[k] == q;
      } else {
        assert q == [i];
      }
    } else {
      DescFromComplete(n, i + 1, q);
    }
  }

  /** Desc is exactly the set of addresses of sub-elements. */
  lemma DescExact(n: Node, q: Path)
    ensures q in Desc(n) <==> |q| > 0 && ValidPath(n, q)
  {
    if q in Desc(n) {
      DescValid(n, q);
    }
    if |q| > 0 && ValidPath(n, q) {
      DescComplete(n, q);
    }
  }

  /**
   * One descendant step of an ElementPath expression: a tag, optionally
   * with an `[@key='value']` predicate.
   */
  datatype Step = Step(tag: string, attr: Option<(string, string)>)

  /** `elem.get(key) == value`, the `[@key='value']` predicate of ElementPath. */
  predicate HasAttr(e: Node, key: string, value: string) {
    key in e.attrib && e.attrib[key] == value
  }

  /** `elem.attrib.get(key, default)`. */
  function GetAttr(e: Node, key: string, dflt: string): string {
    if key in e.attrib then e.attrib[key] else dflt
  }

  predicate Matches(e: Node, step: Step) {
    e.tag == step.tag && (step.attr.Some? ==> HasAttr(e, step.attr.value.0, step.attr.value.1))
  }

  /** The paths of `ps` whose element matches `step`, in their order. */
  function Select(n: Node, ps: seq<Path>, step: Step): seq<Path>
    decreases |ps|
  {
    if ps == [] then []
    else
      var last := ps[|ps| - 1];
      Select(n, ps[..|ps| - 1], step) + (if Matches(At(n, last), step) then [last] else [])
  }

  /** Select keeps exactly the matching paths, as a subsequence. */
  lemma {:induction false} SelectExact(n: Node, ps: seq<Path>, step: Step)
    ensures forall q :: q in Select(n, ps, step) <==> q in ps && Matches(At(n, q), step)
    ensures IsSubseq(Select(n, ps, step), ps)
    decreases |ps|
  {
    if ps != [] {
      var init, last := ps[..|ps| - 1], ps[|ps| - 1];
      assert ps == init + [last];
      SelectExact(n, init, step);
      var opt := if Matches(At(n, last), step) then [last] else [];
      assert IsSubseq(opt, [last]) by {
        var none: seq<Path> := [];
        assert [last][..0] == none;
        if opt != [] { assert opt[..0] == none; }
      }
      SubseqAppend(Select(n, init, step), init, opt, [last]);
    }
  }

  /**
   * The first path Select keeps is the first matching path of `ps`: it
   * sits at some index `k` of `ps` and no path before `k` matches.
   */
  lemma {:induction false} SelectFirst(n: Node, ps: seq<Path>, step: Step)
    requires Select(n, ps, step) != []
    ensures exists k :: (0 <= k < |ps| && ps[k] == Select(n, ps, step)[0] && Matches(At(n, ps[k]), step)
      && forall j :: 0 <= j < k ==> !Matches(At(n, ps[j]), step))
    decreases |ps|
  {
    var init, last := ps[..|ps| - 1], ps[|ps| - 1];
    if Select(n, init, step) != [] {
      SelectFirst(n, init, step);
      var k :| 0 <= k < |init| && init[k] == Select(n, init, step)[0] && Matches(At(n, init[k]), step)
        && forall j :: 0 <= j < k ==> !Matches(At(n, init[j]), step);
      assert ps[k] == init[k];
      assert forall j :: 0 <= j < k ==> ps[j] == init[j];
    } else {
      SelectExact(n, init, step);
      assert forall j :: 0 <= j < |init| ==> init[j] in init && init[j] == ps[j];
      assert ps[|ps| - 1] == Select(n, ps, step)[0];
    }
  }

  /** `n.findall(".//tag[@key='value']")` as paths: the matching strict descendants in document order. */
  function FindAll(n: Node, step: Step): seq<Path> {
    Select(n, Desc(n), step)
  }

  /** FindAll finds every matching sub-element and nothing else, in document order. */
  lemma FindAllExact(n: Node, step: Step, q: Path)
    ensures q in FindAll(n, step) <==> |q| > 0 && ValidPath(n, q) && Matches(At(n, q), step)
    ensures IsSubseq(FindAll(n, step), Desc(n))
  {
    SelectExact(n, Desc(n), step);
    DescExact(n, q);
  }

  /** Every path FindAll returns is a valid address whose element matches. */
  lemma FindAllValid(n: Node, step: Step)
    ensures forall q :: q in FindAll(n, step) ==> |q| > 0 && ValidPath(n, q) && Matches(At(n, q), step)
  {
    forall q | q in FindAll(n, step)
      ensures |q| > 0 && ValidPath(n, q) && Matches(At(n, q), step)
    {
      FindAllExact(n, step, q);
    }
  }

  /** `n.find(".//tag")`: the first match in document order, or None. */
  function FindFirst(n: Node, tag: string): Option<Path> {
    var all := FindAll(n, Step(tag, None));
    if all == [] then None else Some(all[0])
  }

  /**
   * What `find` returns: None exactly when no sub-element has the tag;
   * otherwise the address of one that has it, and no sub-element before it
   * in document order has it.
   */
  lemma FindFirstSpec(n: Node, tag: string)
    ensures FindFirst(n, tag).None? <==> forall q :: |q| > 0 && ValidPath(n, q) ==> At(n, q).tag != tag
    ensures FindFirst(n, tag).Some? ==>
      var q := FindFirst(n, tag).value;
      && |q| > 0 && ValidPath(n, q) && At(n, q).tag == tag
      && exists k :: (0 <= k < |Desc(n)| && Desc(n)[k] == q
        && forall j :: 0 <= j < k ==> At(n, Desc(n)[j]).tag != tag)
  {
    var step := Step(tag, None);
    FindAllValid(n, step);
    if FindFirst(n, tag).None? {
      forall q | |q| > 0 && ValidPath(n, q)
        ensures At(n, q).tag != tag
      {
        FindAllExact(n, step, q);
      }
    } else {
      assert FindAll(n, step)[0] in FindAll(n, step);
      SelectFirst(n, Desc(n), step);
    }
  }

  /**
   * The paths an ElementPath expression `.//t1//t2//...//tk` selects from
   * `n`: for every `t1` descendant in document order, the paths the rest of
   * the expression selects below it. ElementPath does not remove duplicates
   * between the steps, and neither does this. The empty expression selects
   * `n` itself.
   */
  function Chain(n: Node, tags: seq<string>): seq<Path>
    decreases |tags|, 1
  {
    if tags == [] then [[]] else ChainFrom(n, FindAll(n, Step(tags[0], None)), tags[1..])
  }

  /** The rest of the expression, applied below each of `ds` in order. */
  function ChainFrom(n: Node, ds: seq<Path>, rest: seq<string>): seq<Path>
    decreases |rest| + 1, 0, |ds|
  {
    if ds == [] then []
    else
      var d := ds[|ds| - 1];
      ChainFrom(n, ds[..|ds| - 1], rest) + Extend(d, Chain(At(n, d), rest))
  }

  /** Chain selects only valid addresses of elements carrying the last tag. */
  lemma {:induction false} ChainValid(n: Node, tags: seq<string>, q: Path)
    requires q in Chain(n, tags)
    ensures ValidPath(n, q)
    ensures tags != [] ==> |q| > 0 && At(n, q).tag == tags[|tags| - 1]
    decreases |tags|, 1
  {
    if tags != [] {
      FindAllValid(n, Step(tags[0], None));
      ChainFromValid(n, FindAll(n, Step(tags[0], None)), tags[0], tags[1..], q);
      assert tags == [tags[0]] + tags[1..];
    }
  }

  lemma {:induction false} ChainFromValid(n: Node, ds: seq<Path>, tag: string, rest: seq<string>, q: Path)
    requires forall d :: d in ds ==> |d| > 0 && ValidPath(n, d) && At(n, d).tag == tag
    requires q in ChainFrom(n, ds, rest)
    ensures ValidPath(n, q) && |q| > 0
    ensures At(n, q).tag == (if rest == [] then tag else rest[|rest| - 1])
    decreases |rest| + 1, 0, |ds|
  {
    var d := ds[|ds| - 1];
    var sub := Chain(At(n, d), rest);
    if q in Extend(d, sub) {
      var k :| 0 <= k < |sub| && Extend(d, sub)[k] == q;
      ChainValid(At(n, d), rest, sub[k]);
      AtConcat(n, d, sub[k]);
      if rest == [] {
        assert sub == [[]];
        assert q == d + [] == d;
      }
    } else {
      ChainFromValid(n, ds[..|ds| - 1], tag, rest, q);
    }
  }

  /** A one-step expression is a plain `findall`. */
  lemma ChainSingle(n: Node, tag: string)
    ensures Chain(n, [tag]) == FindAll(n, Step(tag, None))
  {
    assert [tag][0] == tag && [tag][1..] == [];
    ChainFromNone(n, FindAll(n, Step(tag, None)));
  }

  lemma {:induction false} ChainFromNone(n: Node, ds: seq<Path>)
    ensures ChainFrom(n, ds, []) == ds
    decreases |ds|
  {
    if ds != [] {
      var d := ds[|ds| - 1];
      ChainFromNone(n, ds[..|ds| - 1]);
      assert Chain(At(n, d), []) == [[]];
      assert Extend(d, [[]]) == [d + []];
      assert d + [] == d;
      assert ds == ds[..|ds| - 1] + [d];
    }
  }

  /** `n` with `x` appended to its children: `n.append(x)`. */
  function AppendChild(n: Node, x: Node): (r: Node)
    ensures r.tag == n.tag && r.attrib == n.attrib && r.text == n.text
    ensures |r.children| == |n.children| + 1 && r.children[|n.children|] == x
    ensures r.children[..|n.children|] == n.children
  {
    n.(children := n.children + [x])
  }

  /** Appending a child leaves every old sub-element where it was. */
  lemma {:induction false} AtAppendChild(n: Node, x: Node, q: Path)
    requires |q| > 0 && ValidPath(n, q)
    ensures ValidPath(AppendChild(n, x), q) && At(AppendChild(n, x), q) == At(n, q)
  {
    var c := AppendChild(n, x).children[q[0]];
    assert c == n.children[q[0]];
  }

  /** The one new sub-element reachable in AppendChild(n, x) is `x` itself and its descendants. */
  lemma {:induction false} AtAppendedChild(n: Node, x: Node, q: Path)
    requires ValidPath(AppendChild(n, x), q) && |q| > 0
    ensures q[0] < |n.children| ==> ValidPath(n, q) && At(AppendChild(n, x), q) == At(n, q)
    ensures q[0] == |n.children| ==> ValidPath(x, q[1..]) && At(AppendChild(n, x), q) == At(x, q[1..])
  {
    assert AppendChild(n, x).children[q[0]] == (n.children + [x])[q[0]];
  }

  /**
   * The first descendant with tag `tag` reached through children `i`,
   * `i+1`, ...: a child that has the tag comes before anything below it,
   * and everything below a child comes before the next child. FindFirst is
   * this walk from child 0 (FindFirstWalk).
   */
  function FirstFrom(n: Node, tag: string, i: nat): (r: Option<Path>)
    ensures r.Some? ==> |r.value| > 0 && i <= r.value[0] < |n.children|
    decreases n, if i <= |n.children| then |n.children| - i else 0
  {
    if i >= |n.children| then None
    else if n.children[i].tag == tag then Some([i])
    else match FirstFrom(n.children[i], tag, 0)
      case Some(p) => Some([i] + p)
      case None => FirstFrom(n, tag, i + 1)
  }

  function FirstOf(ps: seq<Path>): Option<Path> {
    if ps == [] then None else Some(ps[0])
  }

  lemma {:induction false} SelectAppend(n: Node, a: seq<Path>, b: seq<Path>, step: Step)
    ensures Select(n, a + b, step) == Select(n, a, step) + Select(n, b, step)
    decreases |b|
  {
    if b == [] {
      assert a + b == a;
    } else {
      assert (a + b)[..|a + b| - 1] == a + b[..|b| - 1];
      SelectAppend(n, a, b[..|b| - 1], step);
    }
  }

  /** Selecting below child `i` is selecting in that child and prefixing `[i]`. */
  lemma {:induction false} SelectExtend(n: Node, i: nat, ps: seq<Path>, step: Step)
    requires i < |n.children|
    ensures Select(n, Extend([i], ps), step) == Extend([i], Select(n.children[i], ps, step))
    decreases |ps|
  {
    if ps != [] {
      var init, last := ps[..|ps| - 1], ps[|ps| - 1];
      assert Extend([i], ps)[..|ps| - 1] == Extend([i], init);
      SelectExtend(n, i, init, step);
      assert ([i] + last)[0] == i && ([i] + last)[1..] == last;
      assert At(n, [i] + last) == At(n.children[i], last);
      var opt := if Matches(At(n.children[i], last), step) then [last] else [];
      assert Extend([i], Select(n.children[i], init, step) + opt)
          == Extend([i], Select(n.children[i], init, step)) + Extend([i], opt);
    }
  }

  lemma {:induction false} FirstDesc(n: Node, tag: string)
    ensures FirstOf(Select(n, Desc(n), Step(tag, None))) == FirstFrom(n, tag, 0)
    decreases n, 1
  {
    FirstDescFrom(n, tag, 0);
  }

  lemma FirstOfAppend(a: seq<Path>, b: seq<Path>)
    ensures FirstOf(a + b) == if a != [] then FirstOf(a) else FirstOf(b)
  {
    if a == [] {
      assert a + b == b;
    }
  }

  lemma FirstOfExtend(i: nat, ps: seq<Path>)
    ensures FirstOf(Extend([i], ps)) == if ps == [] then None else Some([i] + ps[0])
  {
  }

  /** Select over DescFrom(n, i): the child itself, then below it, then the later children. */
  lemma SelectDescFrom(n: Node, tag: string, i: nat)
    requires i < |n.children|
    ensures Select(n, DescFrom(n, i), Step(tag, None))
      == (if n.children[i].tag == tag then [[i]] else [])
        + Extend([i], Select(n.children[i], Desc(n.children[i]), Step(tag, None)))
        + Select(n, DescFrom(n, i + 1), Step(tag, None))
  {
    var step, c := Step(tag, None), n.children[i];
    SelectAppend(n, [[i]] + Extend([i], Desc(c)), DescFrom(n, i + 1), step);
    SelectAppend(n, [[i]], Extend([i], Desc(c)), step);
    assert [[i]][..0] == [];
    assert At(n, [i]) == c;
    SelectExtend(n, i, Desc(c), step);
  }

  lemma {:induction false} FirstDescFrom(n: Node, tag: string, i: nat)
    ensures FirstOf(Select(n, DescFrom(n, i), Step(tag, None))) == FirstFrom(n, tag, i)
    decreases n, 0, if i <= |n.children| then |n.children| - i else 0
  {
    if i < |n.children| {
      var step, c := Step(tag, None), n.children[i];
      var s1 := if c.tag == tag then [[i]] else [];
      var s2 := Extend([i], Select(c, Desc(c), step));
      var s3 := Select(n, DescFrom(n, i + 1), step);
      SelectDescFrom(n, tag, i);
      FirstOfAppend(s1 + s2, s3);
      FirstOfAppend(s1, s2);
      FirstOfExtend(i, Select(c, Desc(c), step));
      FirstDesc(c, tag);
      FirstDescFrom(n, tag, i + 1);
    }
  }

  /** `find` is the document-order walk FirstFrom. */
  lemma FindFirstWalk(n: Node, tag: string)
    ensures FindFirst(n, tag) == FirstFrom(n, tag, 0)
  {
    FirstDesc(n, tag);
  }

  /** Appending a child does not move the first match, when there is one. */
  lemma {:induction false} FirstFromAppend(n: Node, x: Node, tag: string, i: nat)
    requires FirstFrom(n, tag, i).Some?
    ensures FirstFrom(AppendChild(n, x), tag, i) == FirstFrom(n, tag, i)
    decreases |n.children| - i
  {
    assert AppendChild(n, x).children[i] == n.children[i];
    if n.children[i].tag != tag && FirstFrom(n.children[i], tag, 0).None? {
      FirstFromAppend(n, x, tag, i + 1);
    }
  }

  /** Replacing the first match by another element with the same tag leaves it first. */
  lemma {:induction false} FirstFromReplace(n: Node, tag: string, i: nat, q: Path, m: Node)
    requires FirstFrom(n, tag, i) == Some(q) && m.tag == tag
    ensures FirstFrom(Replace(n, q, m), tag, i) == Some(q)
    decreases n, |n.children| - i
  {
    var r := Replace(n, q, m);
    var c := n.children[i];
    assert r.children == n.children[q[0] := Replace(n.children[q[0]], q[1..], m)];
    if i < q[0] {
      assert r.children[i] == c;
      FirstFromReplace(n, tag, i + 1, q, m);
    } else if c.tag == tag {
      assert q == [i] && q[1..] == [];
    } else {
      var p := FirstFrom(c, tag, 0).value;
      assert q == [i] + p && q[1..] == p;
      FirstFromReplace(c, tag, 0, p, m);
    }
  }
}
