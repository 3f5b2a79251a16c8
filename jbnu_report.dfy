/**
 * hwpx_report/jbnu_report.py: choosing paragraph templates out of a
 * section document (`extract`), cloning the topic template with a new
 * label (`clone_table_para_with_topic`) and assembling the report into the
 * section tree (`process_jbnu_report`).
 */
module JbnuReport {
  import opened Common
  import opened PyStr
  import opened Markup

  const TagP := Hp("p")
  const TagTbl := Hp("tbl")
  const TagTr := Hp("tr")
  const TagTc := Hp("tc")
  const TagT := Hp("t")
  const TagBody := Hp("body")

  /** The attribute that names a paragraph's style: the template key. */
  const ParaRef := "paraPrIDRef"

  /** The templates process_jbnu_report asks for: title, topic, sub-title, detail, table/image paragraph. */
  const TemplateIds: seq<string> := ["4", "2", "6", "11", "7"]

  function NodesAt(n: Node, ps: seq<Path>): seq<Node> {
    seq(|ps|, k requires 0 <= k < |ps| => At(n, ps[k]))
  }

  // ---------------------------------------------------------------- extract

  /** `root.findall(".//hp:p[@paraPrIDRef='pid']")`: the candidates for template `pid`, in document order. */
  function Candidates(root: Node, pid: string): seq<Node> {
    NodesAt(root, FindAll(root, Step(TagP, Some((ParaRef, pid)))))
  }

  /** `p.findall(".//hp:tbl//hp:tr//hp:tc")`: the table cells of `p`, in document order. */
  function CellPaths(p: Node): seq<Path> {
    Chain(p, [TagTbl, TagTr, TagTc])
  }

  /**
   * The text slot of a topic paragraph: the first `hp:t` inside its second
   * cell, when it has at least two cells and that cell holds an `hp:t`.
   */
  function TopicSlot(p: Node): Option<Path> {
    var tcs := CellPaths(p);
    if |tcs| >= 2 then
      match FindFirst(At(p, tcs[1]), TagT)
      case Some(q) => Some(tcs[1] + q)
      case None => None
    else None
  }

  /**
   * Where the topic slot lies: it exists exactly when there are two cells
   * and the second holds an `hp:t`; it is that `hp:t`, the first one in the
   * second cell, addressed from the paragraph.
   */
  lemma TopicSlotSpec(p: Node)
    ensures TopicSlot(p).Some? <==> |CellPaths(p)| >= 2 && FindFirst(At(p, CellPaths(p)[1]), TagT).Some?
    ensures TopicSlot(p).Some? ==>
      var tc := CellPaths(p)[1];
      var q := TopicSlot(p).value;
      && ValidPath(p, tc) && At(p, tc).tag == TagTc
      && ValidPath(p, q) && At(p, q).tag == TagT
      && At(p, q) == At(At(p, tc), FindFirst(At(p, tc), TagT).value)
  {
    var tcs := CellPaths(p);
    if |tcs| >= 2 {
      assert tcs[1] in tcs;
      ChainValid(p, [TagTbl, TagTr, TagTc], tcs[1]);
      var sub := At(p, tcs[1]);
      FindFirstSpec(sub, TagT);
      if FindFirst(sub, TagT).Some? {
        AtConcat(p, tcs[1], FindFirst(sub, TagT).value);
      }
    }
  }

  /** The tier-one test of `extract`: the slot text is non-empty and its upper-case form contains "TOPIC". */
  predicate IsTopicTemplate(c: Node) {
    match TopicSlot(c)
    case Some(q) =>
      var t := At(c, q).text;
      t.Some? && t.value != "" && Contains(Upper(t.value), "TOPIC")
    case None => false
  }

  /**
   * The TOPIC test in terms of the tree: there are two cells, the second
   * holds an `hp:t`, and the first such `hp:t` has a text in whose
   * upper-case form "TOPIC" occurs. A candidate that fails any of these is
   * no match, and no error is raised.
   */
  lemma TopicTestMeaning(c: Node)
    ensures IsTopicTemplate(c) <==>
      && |CellPaths(c)| >= 2
      && FindFirst(At(c, CellPaths(c)[1]), TagT).Some?
      && var t := At(At(c, CellPaths(c)[1]), FindFirst(At(c, CellPaths(c)[1]), TagT).value).text;
         t.Some? && exists i :: 0 <= i <= |t.value| && OccursAt(Upper(t.value), "TOPIC", i)
  {
    TopicSlotSpec(c);
    match TopicSlot(c)
    case Some(q) =>
      var t := At(c, q).text;
      if t.Some? {
        ContainsOccurs(Upper(t.value), "TOPIC");
      }
    case None =>
  }

  /** Candidate `i` is the first one, in document order, to pass the TOPIC test. */
  predicate IsFirstTopic(cands: seq<Node>, i: int) {
    0 <= i < |cands| && IsTopicTemplate(cands[i]) && forall j :: 0 <= j < i ==> !IsTopicTemplate(cands[j])
  }

  /**
   * The two-tier choice of `extract`: the first candidate that passes the
   * TOPIC test; failing that the first candidate; nothing when there is no
   * candidate at all.
   */
  function ChooseTemplate(cands: seq<Node>): (r: Option<Node>)
    ensures r.None? <==> cands == []
    ensures forall i :: IsFirstTopic(cands, i) ==> r == Some(cands[i])
    ensures cands != [] && (forall j :: 0 <= j < |cands| ==> !IsTopicTemplate(cands[j])) ==> r == Some(cands[0])
  {
    match FirstWhere(cands, IsTopicTemplate, 0)
    case Some(i) => Some(cands[i])
    case None => if cands == [] then None else Some(cands[0])
  }

  /** The candidates for `pid` are exactly the `hp:p` elements below the root whose paraPrIDRef is `pid`. */
  lemma CandidatesExact(root: Node, pid: string, q: Path)
    ensures q in FindAll(root, Step(TagP, Some((ParaRef, pid)))) <==>
      |q| > 0 && ValidPath(root, q) && At(root, q).tag == TagP && HasAttr(At(root, q), ParaRef, pid)
  {
    FindAllExact(root, Step(TagP, Some((ParaRef, pid))), q);
  }

  /** The templates `extract(…, paraIds)` returns, as a map. */
  function ExtractSpec(root: Node, paraIds: seq<string>): map<string, Node> {
    map pid | pid in paraIds && Candidates(root, pid) != [] :: ChooseTemplate(Candidates(root, pid)).value
  }

  /**
   * `extract`: for every identifier with candidates, the chosen template;
   * identifiers without candidates are absent, and no error is raised.
   * Parsing the file is left to the caller, which passes its root.
   */
  method Extract(root: Node, paraIds: seq<string>) returns (templates: map<string, Node>)
    ensures forall pid :: pid in templates <==> pid in paraIds && Candidates(root, pid) != []
    ensures forall pid :: pid in templates ==> ChooseTemplate(Candidates(root, pid)) == Some(templates[pid])
    ensures templates == ExtractSpec(root, paraIds)
  {
    templates := map[];
    for k := 0 to |paraIds|
      invariant forall pid :: pid in templates <==> pid in paraIds[..k] && Candidates(root, pid) != []
      invariant forall pid :: pid in templates ==> ChooseTemplate(Candidates(root, pid)) == Some(templates[pid])
    {
      var pid := paraIds[k];
      var chosen := PickTemplate(Candidates(root, pid));
      if chosen.Some? {
        templates := templates[pid := chosen.value];
      }
      assert paraIds[..k + 1] == paraIds[..k] + [pid];
    }
    assert paraIds[..|paraIds|] == paraIds;
  }

  /**
   * The body of `extract`'s loop for one identifier: scan the candidates
   * with the `matched` flag, stop at the first TOPIC template, and fall
   * back to the first candidate.
   */
  method PickTemplate(candidates: seq<Node>) returns (chosen: Option<Node>)
    ensures chosen == ChooseTemplate(candidates)
  {
    chosen := None;
    var matched := false;
    var i := 0;
    while i < |candidates|
      invariant 0 <= i <= |candidates|
      invariant forall j :: 0 <= j < i ==> !IsTopicTemplate(candidates[j])
      invariant chosen == None && !matched
    {
      var c := candidates[i];
      TopicSlotSpec(c);
      var tcElements := CellPaths(c);
      if |tcElements| >= 2 {
        var secondTc := tcElements[1];
        var tElem := FindFirst(At(c, secondTc), TagT);
        if tElem.Some? {
          var text := At(At(c, secondTc), tElem.value).text;
          if text.Some? && text.value != "" && Contains(Upper(text.value), "TOPIC") {
            assert IsFirstTopic(candidates, i);
            chosen := Some(c);
            matched := true;
            break;
          }
        }
      }
      assert !IsTopicTemplate(c);
      i := i + 1;
    }
    // fallback to the first candidate
    if !matched && |candidates| > 0 {
      chosen := Some(candidates[0]);
    }
  }

  // ---------------------------------------------------- clone_table_para_with_topic

  /**
   * What `clone_table_para_with_topic(template, topicText)` returns: when
   * the template has a topic slot, the template with exactly that
   * element's text set to `strip(topicText)`; otherwise the template.
   */
  function TopicClone(template: Node, topicText: string): (p: Node)
    ensures TopicSlot(template).None? ==> p == template
    ensures TopicSlot(template).Some? ==>
      var q := TopicSlot(template).value;
      && ValidPath(p, q)
      && At(p, q) == At(template, q).(text := Some(Strip(topicText)))
      && Replace(p, q, At(template, q)) == template
  {
    match TopicSlot(template)
    case None => template
    case Some(q) =>
      var slot := At(template, q).(text := Some(Strip(topicText)));
      TopicSlotSpec(template);
      ReplaceTwice(template, q, slot, At(template, q));
      ReplaceAtSelf(template, q);
      Replace(template, q, slot)
  }

  /**
   * `clone_table_para_with_topic`: works on a copy (a value here, so the
   * template cannot change) and ignores `pageBreak`, whose use is
   * commented out in the source.
   */
  method CloneTableParaWithTopic(template: Node, topicText: string, pageBreak: bool) returns (p: Node)
    ensures p == TopicClone(template, topicText)
  {
    p := template;
    TopicSlotSpec(p);
    var tcElements := CellPaths(p);
    if |tcElements| >= 2 {
      var secondTc := tcElements[1];
      var tElem := FindFirst(At(p, secondTc), TagT);
      if tElem.Some? {
        AtConcat(p, secondTc, tElem.value);
        var slot := secondTc + tElem.value;
        p := Replace(p, slot, At(p, slot).(text := Some(Strip(topicText))));
      }
    }
  }

  // ---------------------------------------------------- process_jbnu_report

  /** The report outline that the JSON file holds (the `Title` model and its parts). */
  datatype Detail = Detail(content: string)
  datatype TableItem = TableItem(table: seq<seq<string>>, caption: string)
  datatype ImageItem = ImageItem(filename: string, caption: string)
  datatype MainPoint = MainPoint(subTitle: string, details: seq<Detail>, tables: Option<seq<TableItem>>, images: Option<seq<ImageItem>>)
  datatype Topic = Topic(topic: string, mainPoints: seq<MainPoint>)
  datatype Title = Title(title: string, topics: seq<Topic>)

  /** `xs or []` for an optional list. */
  function OrEmpty<T>(xs: Option<seq<T>>): seq<T> {
    if xs.Some? then xs.value else []
  }

  /**
   * The helpers of hwp_xml.py that process_jbnu_report calls, whose code is
   * not part of this model, and the paragraphs its `find_*` helpers read
   * out of the template file (every call reads the same file, so every call
   * returns the same element).
   */
  datatype HwpXml = HwpXml(
    clonePara: (Node, string) -> Node,
    updateTextOnly: (Node, string, string) -> Node,
    fillTblInPara: (Node, seq<seq<string>>, string, Node, Node, string) -> Node,
    fillPicInPara: (Node, string, string) -> Node,
    duplicateLinesegV2: (Node, int) -> Node,
    tableRowTemplate: Node,
    tcTemplate: Node,
    paraWithTable: Node,
    paraWithImage: Node)

  /** The content modes (`sel_inc`) that emit tables, and those that emit images. */
  const TableModes: seq<string> := ["표", "표+그래프"]
  const ImageModes: seq<string> := ["그래프", "표+그래프"]

  // The filter over the top-level children

  /** `p.attrib.get("paraPrIDRef", "") in {"4"}`: the paragraph uses the title style. */
  predicate IsTitlePara(p: Node) {
    GetAttr(p, ParaRef, "") == "4"
  }

  /** A top-level block survives the filter when some `hp:p` below it is a title paragraph. */
  predicate KeepBlock(child: Node) {
    var paras := FindAll(child, Step(TagP, None));
    exists j :: 0 <= j < |paras| && IsTitlePara(At(child, paras[j]))
  }

  /** KeepBlock in terms of the tree: a strict descendant `hp:p` whose paraPrIDRef is "4". */
  lemma KeepBlockMeaning(child: Node)
    ensures KeepBlock(child) <==>
      exists q :: |q| > 0 && ValidPath(child, q) && At(child, q).tag == TagP && HasAttr(At(child, q), ParaRef, "4")
  {
    var paras := FindAll(child, Step(TagP, None));
    if KeepBlock(child) {
      var j :| 0 <= j < |paras| && IsTitlePara(At(child, paras[j]));
      FindAllExact(child, Step(TagP, None), paras[j]);
    }
    if exists q :: |q| > 0 && ValidPath(child, q) && At(child, q).tag == TagP && HasAttr(At(child, q), ParaRef, "4") {
      var q :| |q| > 0 && ValidPath(child, q) && At(child, q).tag == TagP && HasAttr(At(child, q), ParaRef, "4");
      FindAllExact(child, Step(TagP, None), q);
      var j :| 0 <= j < |paras| && paras[j] == q;
    }
  }

  /** The inner loop of the filter: scan the paragraphs of one block, stopping at the first title paragraph. */
  method KeepsBlock(child: Node) returns (keep: bool)
    ensures keep == KeepBlock(child)
  {
    var paras := FindAll(child, Step(TagP, None));
    keep := false;
    var j := 0;
    while j < |paras|
      invariant 0 <= j <= |paras|
      invariant forall i :: 0 <= i < j ==> !IsTitlePara(At(child, paras[i]))
    {
      var paraId := GetAttr(At(child, paras[j]), ParaRef, "");
      if paraId == "4" {
        keep := true;
        break;
      }
      j := j + 1;
    }
  }

  /** The root after the filter: the kept top-level children, in their order. */
  function Filtered(root: Node): (r: Node)
    ensures r.tag == root.tag && r.attrib == root.attrib && r.text == root.text
  {
    root.(children := Filter(KeepBlock, root.children))
  }

  /** After the filter the root holds exactly the original children that pass KeepBlock, in their original order. */
  lemma FilteredExact(root: Node)
    ensures forall c :: c in Filtered(root).children <==> c in root.children && KeepBlock(c)
    ensures IsSubseq(Filtered(root).children, root.children)
  {
    FilterMembers(KeepBlock, root.children);
  }

  // The appends

  /** What each appended paragraph is for; tables and images go to the body, the rest to the root. */
  datatype Kind = TopicPara | SubTitlePara | DetailPara | TablePara | ImagePara

  predicate ToBody(k: Kind) {
    k.TablePara? || k.ImagePara?
  }

  datatype Emission = Emission(kind: Kind, node: Node)

  function Tag(k: Kind, ns: seq<Node>): seq<Emission> {
    Map((n: Node) => Emission(k, n), ns)
  }

  /** The nodes of kind `k` among `ems`, in order. */
  function Of(k: Kind, ems: seq<Emission>): (r: seq<Node>)
    decreases |ems|
  {
    if ems == [] then []
    else Of(k, ems[..|ems| - 1]) + (if ems[|ems| - 1].kind == k then [ems[|ems| - 1].node] else [])
  }

  lemma {:induction false} OfAppend(k: Kind, a: seq<Emission>, b: seq<Emission>)
    ensures Of(k, a + b) == Of(k, a) + Of(k, b)
    decreases |b|
  {
    if b == [] {
      assert a + b == a;
    } else {
      assert (a + b)[..|a + b| - 1] == a + b[..|b| - 1];
      OfAppend(k, a, b[..|b| - 1]);
    }
  }

  lemma {:induction false} OfTag(k: Kind, k2: Kind, ns: seq<Node>)
    ensures Of(k, Tag(k2, ns)) == if k == k2 then ns else []
    decreases |ns|
  {
    if ns != [] {
      var init := ns[..|ns| - 1];
      assert Tag(k2, ns) == Tag(k2, init) + [Emission(k2, ns[|ns| - 1])];
      assert Tag(k2, ns)[..|ns| - 1] == Tag(k2, init);
      OfTag(k, k2, init);
      assert ns == init + [ns[|ns| - 1]];
    }
  }

  /** The table paragraph `fill_tbl_in_para` builds for `t`. */
  function FillTable(h: HwpXml, t: TableItem): Node {
    h.fillTblInPara(h.paraWithTable, t.table, t.caption, h.tableRowTemplate, h.tcTemplate, "4")
  }

  /** The image paragraph `fill_pic_in_para` builds for `i`. */
  function FillImage(h: HwpXml, i: ImageItem): Node {
    h.fillPicInPara(h.paraWithImage, i.filename, i.caption)
  }

  /** The paragraphs `clone_para` makes for the details `ds` from the template `tpl`. */
  function DetailParas(h: HwpXml, tpl: Node, ds: seq<Detail>): seq<Node> {
    Map((d: Detail) => h.clonePara(tpl, d.content), ds)
  }

  /** The sub-title paragraphs `clone_para` makes for the main points `ms` from the template `tpl`. */
  function SubTitleParas(h: HwpXml, tpl: Node, ms: seq<MainPoint>): seq<Node> {
    Map((m: MainPoint) => h.clonePara(tpl, m.subTitle), ms)
  }

  function TableParas(h: HwpXml, ts: seq<TableItem>): seq<Node> {
    Map((x: TableItem) => FillTable(h, x), ts)
  }

  function ImageParas(h: HwpXml, ims: seq<ImageItem>): seq<Node> {
    Map((x: ImageItem) => FillImage(h, x), ims)
  }

  /** The topic paragraphs made from the template `tpl` for the topics `ts`. */
  function TopicParas(tpl: Node, ts: seq<Topic>): seq<Node> {
    Map((tp: Topic) => TopicClone(tpl, tp.topic), ts)
  }

  /** What one main point appends: its sub-title, its details, its tables, its images. */
  function MainEmissions(t: map<string, Node>, h: HwpXml, selInc: string, m: MainPoint): seq<Emission> {
    SubEmission(t, h, m) + DetailEmissions(t, h, m.details) + GatedTables(h, selInc, m) + GatedImages(h, selInc, m)
  }

  function DetailEmissions(t: map<string, Node>, h: HwpXml, ds: seq<Detail>): seq<Emission> {
    if "11" in t then Tag(DetailPara, DetailParas(h, t["11"], ds)) else []
  }

  function TableEmissions(h: HwpXml, ts: seq<TableItem>): seq<Emission> {
    Tag(TablePara, TableParas(h, ts))
  }

  function ImageEmissions(h: HwpXml, ims: seq<ImageItem>): seq<Emission> {
    Tag(ImagePara, ImageParas(h, ims))
  }

  function MainsEmissions(t: map<string, Node>, h: HwpXml, selInc: string, ms: seq<MainPoint>): seq<Emission>
    decreases |ms|
  {
    if ms == [] then []
    else MainsEmissions(t, h, selInc, ms[..|ms| - 1]) + MainEmissions(t, h, selInc, ms[|ms| - 1])
  }

  /** What one topic appends: its topic paragraph, then its main points in order. */
  function TopicEmissions(t: map<string, Node>, h: HwpXml, selInc: string, tp: Topic): seq<Emission> {
    TopicHead(t, tp) + MainsEmissions(t, h, selInc, tp.mainPoints)
  }

  /** The topic paragraph, when template "2" exists. */
  function TopicHead(t: map<string, Node>, tp: Topic): seq<Emission> {
    if "2" in t then [Emission(TopicPara, TopicClone(t["2"], tp.topic))] else []
  }

  /** Everything the topic loop appends, in the order it appends it. */
  function ReportEmissions(t: map<string, Node>, h: HwpXml, selInc: string, ts: seq<Topic>): seq<Emission>
    decreases |ts|
  {
    if ts == [] then []
    else ReportEmissions(t, h, selInc, ts[..|ts| - 1]) + TopicEmissions(t, h, selInc, ts[|ts| - 1])
  }

  /** All main points of the topics `ts`, topic by topic. */
  function AllMains(ts: seq<Topic>): seq<MainPoint> {
    Flatten(Map((tp: Topic) => tp.mainPoints, ts))
  }

  /** All details of the main points `ms`, in order. */
  function DetailsOf(ms: seq<MainPoint>): seq<Detail> {
    Flatten(Map((m: MainPoint) => m.details, ms))
  }

  /** All tables of the main points `ms`, in order; a missing list counts as empty. */
  function TablesOf(ms: seq<MainPoint>): seq<TableItem> {
    Flatten(Map((m: MainPoint) => OrEmpty(m.tables), ms))
  }

  /** All images of the main points `ms`, in order; a missing list counts as empty. */
  function ImagesOf(ms: seq<MainPoint>): seq<ImageItem> {
    Flatten(Map((m: MainPoint) => OrEmpty(m.images), ms))
  }

  /**
   * The paragraphs of kind `k` that the main points `ms` should append:
   * one sub-title per main point when template "6" exists; one paragraph
   * per detail when template "11" exists; one per table only in a table
   * mode, one per image only in an image mode.
   */
  function MainsExpected(k: Kind, t: map<string, Node>, h: HwpXml, selInc: string, ms: seq<MainPoint>): seq<Node> {
    match k
    case TopicPara => []
    case SubTitlePara => if "6" in t then SubTitleParas(h, t["6"], ms) else []
    case DetailPara => if "11" in t then DetailParas(h, t["11"], DetailsOf(ms)) else []
    case TablePara => if selInc in TableModes then TableParas(h, TablesOf(ms)) else []
    case ImagePara => if selInc in ImageModes then ImageParas(h, ImagesOf(ms)) else []
  }

  /** The paragraphs of kind `k` that the topic loop should append for the topics `ts`. */
  function Expected(k: Kind, t: map<string, Node>, h: HwpXml, selInc: string, ts: seq<Topic>): seq<Node> {
    if k == TopicPara then (if "2" in t then TopicParas(t["2"], ts) else [])
    else MainsExpected(k, t, h, selInc, AllMains(ts))
  }

  lemma FlattenMapSnoc<A, B>(f: A -> seq<B>, xs: seq<A>, x: A)
    ensures Flatten(Map(f, xs + [x])) == Flatten(Map(f, xs)) + f(x)
  {
    MapAppend(f, xs, [x]);
    FlattenAppend(Map(f, xs), Map(f, [x]));
    assert Map(f, [x]) == [f(x)];
    assert Flatten([f(x)]) == Flatten([f(x)][..0]) + [f(x)][0];
  }

  lemma MainsExpectedSnoc(k: Kind, t: map<string, Node>, h: HwpXml, selInc: string, ms: seq<MainPoint>, m: MainPoint)
    ensures MainsExpected(k, t, h, selInc, ms + [m]) == MainsExpected(k, t, h, selInc, ms) + MainsExpected(k, t, h, selInc, [m])
  {
    FlattenMapSnoc((x: MainPoint) => x.details, ms, m);
    FlattenMapSnoc((x: MainPoint) => OrEmpty(x.tables), ms, m);
    FlattenMapSnoc((x: MainPoint) => OrEmpty(x.images), ms, m);
    FlattenMapSnoc((x: MainPoint) => x.details, [], m);
    FlattenMapSnoc((x: MainPoint) => OrEmpty(x.tables), [], m);
    FlattenMapSnoc((x: MainPoint) => OrEmpty(x.images), [], m);
    assert [] + [m] == [m];
    if "6" in t {
      MapAppend((x: MainPoint) => h.clonePara(t["6"], x.subTitle), ms, [m]);
    }
  }

  lemma MainsExpectedAppend(k: Kind, t: map<string, Node>, h: HwpXml, selInc: string, a: seq<MainPoint>, b: seq<MainPoint>)
    ensures MainsExpected(k, t, h, selInc, a + b) == MainsExpected(k, t, h, selInc, a) + MainsExpected(k, t, h, selInc, b)
  {
    match k
    case TopicPara =>
    case SubTitlePara =>
      if "6" in t {
        MapAppend((m: MainPoint) => h.clonePara(t["6"], m.subTitle), a, b);
      }
    case DetailPara =>
      if "11" in t {
        FlattenMapAppend((x: MainPoint) => x.details, a, b);
        MapAppend((d: Detail) => h.clonePara(t["11"], d.content), DetailsOf(a), DetailsOf(b));
      }
    case TablePara =>
      if selInc in TableModes {
        FlattenMapAppend((x: MainPoint) => OrEmpty(x.tables), a, b);
        MapAppend((x: TableItem) => FillTable(h, x), TablesOf(a), TablesOf(b));
      }
    case ImagePara =>
      if selInc in ImageModes {
        FlattenMapAppend((x: MainPoint) => OrEmpty(x.images), a, b);
        MapAppend((x: ImageItem) => FillImage(h, x), ImagesOf(a), ImagesOf(b));
      }
  }

  lemma FlattenMapAppend<A, B>(f: A -> seq<B>, a: seq<A>, b: seq<A>)
    ensures Flatten(Map(f, a + b)) == Flatten(Map(f, a)) + Flatten(Map(f, b))
  {
    MapAppend(f, a, b);
    FlattenAppend(Map(f, a), Map(f, b));
  }

  /** The four parts of what one main point appends. */
  function SubEmission(t: map<string, Node>, h: HwpXml, m: MainPoint): seq<Emission> {
    if "6" in t then [Emission(SubTitlePara, h.clonePara(t["6"], m.subTitle))] else []
  }

  function GatedTables(h: HwpXml, selInc: string, m: MainPoint): seq<Emission> {
    if selInc in TableModes then TableEmissions(h, OrEmpty(m.tables)) else []
  }

  function GatedImages(h: HwpXml, selInc: string, m: MainPoint): seq<Emission> {
    if selInc in ImageModes then ImageEmissions(h, OrEmpty(m.images)) else []
  }

  lemma OfParts(k: Kind, t: map<string, Node>, h: HwpXml, selInc: string, m: MainPoint)
    ensures Of(k, SubEmission(t, h, m)) == (if k == SubTitlePara && "6" in t then [h.clonePara(t["6"], m.subTitle)] else [])
    ensures Of(k, DetailEmissions(t, h, m.details)) == (if k == DetailPara && "11" in t then DetailParas(h, t["11"], m.details) else [])
    ensures Of(k, GatedTables(h, selInc, m)) == (if k == TablePara && selInc in TableModes then TableParas(h, OrEmpty(m.tables)) else [])
    ensures Of(k, GatedImages(h, selInc, m)) == (if k == ImagePara && selInc in ImageModes then ImageParas(h, OrEmpty(m.images)) else [])
  {
    var sub := SubEmission(t, h, m);
    if "6" in t {
      assert sub[..0] == [];
    }
    if "11" in t {
      OfTag(k, DetailPara, DetailParas(h, t["11"], m.details));
    }
    OfTag(k, TablePara, TableParas(h, OrEmpty(m.tables)));
    OfTag(k, ImagePara, ImageParas(h, OrEmpty(m.images)));
  }

  lemma ExpectedOne(k: Kind, t: map<string, Node>, h: HwpXml, selInc: string, m: MainPoint)
    ensures MainsExpected(k, t, h, selInc, [m]) ==
      (if k == SubTitlePara && "6" in t then [h.clonePara(t["6"], m.subTitle)] else [])
      + (if k == DetailPara && "11" in t then DetailParas(h, t["11"], m.details) else [])
      + (if k == TablePara && selInc in TableModes then TableParas(h, OrEmpty(m.tables)) else [])
      + (if k == ImagePara && selInc in ImageModes then ImageParas(h, OrEmpty(m.images)) else [])
  {
    FlattenMapSnoc((x: MainPoint) => x.details, [], m);
    FlattenMapSnoc((x: MainPoint) => OrEmpty(x.tables), [], m);
    FlattenMapSnoc((x: MainPoint) => OrEmpty(x.images), [], m);
    assert [] + [m] == [m];
  }

  /** What one main point appends, kind by kind. */
  lemma OfMain(k: Kind, t: map<string, Node>, h: HwpXml, selInc: string, m: MainPoint)
    ensures Of(k, MainEmissions(t, h, selInc, m)) == MainsExpected(k, t, h, selInc, [m])
  {
    var sub := SubEmission(t, h, m);
    var dets := DetailEmissions(t, h, m.details);
    var tbls := GatedTables(h, selInc, m);
    var imgs := GatedImages(h, selInc, m);
    OfAppend(k, sub + dets + tbls, imgs);
    OfAppend(k, sub + dets, tbls);
    OfAppend(k, sub, dets);
    OfParts(k, t, h, selInc, m);
    ExpectedOne(k, t, h, selInc, m);
  }

  lemma {:induction false} OfMains(k: Kind, t: map<string, Node>, h: HwpXml, selInc: string, ms: seq<MainPoint>)
    ensures Of(k, MainsEmissions(t, h, selInc, ms)) == MainsExpected(k, t, h, selInc, ms)
    decreases |ms|
  {
    if ms != [] {
      var init, m := ms[..|ms| - 1], ms[|ms| - 1];
      assert ms == init + [m];
      calc {
        Of(k, MainsEmissions(t, h, selInc, ms));
        Of(k, MainsEmissions(t, h, selInc, init) + MainEmissions(t, h, selInc, m));
        { OfAppend(k, MainsEmissions(t, h, selInc, init), MainEmissions(t, h, selInc, m)); }
        Of(k, MainsEmissions(t, h, selInc, init)) + Of(k, MainEmissions(t, h, selInc, m));
        { OfMains(k, t, h, selInc, init); OfMain(k, t, h, selInc, m); }
        MainsExpected(k, t, h, selInc, init) + MainsExpected(k, t, h, selInc, [m]);
        { MainsExpectedSnoc(k, t, h, selInc, init, m); }
        MainsExpected(k, t, h, selInc, ms);
      }
    }
  }

  lemma OfHead(k: Kind, t: map<string, Node>, tp: Topic)
    ensures Of(k, TopicHead(t, tp)) == if k == TopicPara && "2" in t then [TopicClone(t["2"], tp.topic)] else []
  {
    if "2" in t {
      assert TopicHead(t, tp)[..0] == [];
    }
  }

  lemma ExpectedSnoc(k: Kind, t: map<string, Node>, h: HwpXml, selInc: string, ts: seq<Topic>, tp: Topic)
    ensures Expected(k, t, h, selInc, ts + [tp]) ==
      Expected(k, t, h, selInc, ts)
      + (if k == TopicPara && "2" in t then [TopicClone(t["2"], tp.topic)] else [])
      + MainsExpected(k, t, h, selInc, tp.mainPoints)
  {
    if k == TopicPara {
      if "2" in t {
        MapAppend((x: Topic) => TopicClone(t["2"], x.topic), ts, [tp]);
      }
    } else {
      FlattenMapSnoc((x: Topic) => x.mainPoints, ts, tp);
      MainsExpectedAppend(k, t, h, selInc, AllMains(ts), tp.mainPoints);
    }
  }

  /**
   * The topic loop appends, of each kind, exactly the expected paragraphs
   * in outline order: one topic paragraph per topic when template "2"
   * exists, and per main point what MainsExpected says. Nothing is
   * reordered, merged or dropped.
   */
  lemma {:induction false} ReportProjection(k: Kind, t: map<string, Node>, h: HwpXml, selInc: string, ts: seq<Topic>)
    ensures Of(k, ReportEmissions(t, h, selInc, ts)) == Expected(k, t, h, selInc, ts)
    decreases |ts|
  {
    if ts != [] {
      var init, tp := ts[..|ts| - 1], ts[|ts| - 1];
      assert ts == init + [tp];
      var head := if k == TopicPara && "2" in t then [TopicClone(t["2"], tp.topic)] else [];
      calc {
        Of(k, ReportEmissions(t, h, selInc, ts));
        Of(k, ReportEmissions(t, h, selInc, init) + TopicEmissions(t, h, selInc, tp));
        { OfAppend(k, ReportEmissions(t, h, selInc, init), TopicEmissions(t, h, selInc, tp)); }
        Of(k, ReportEmissions(t, h, selInc, init)) + Of(k, TopicEmissions(t, h, selInc, tp));
        { OfAppend(k, TopicHead(t, tp), MainsEmissions(t, h, selInc, tp.mainPoints)); }
        Of(k, ReportEmissions(t, h, selInc, init)) + (Of(k, TopicHead(t, tp)) + Of(k, MainsEmissions(t, h, selInc, tp.mainPoints)));
        { ReportProjection(k, t, h, selInc, init); OfHead(k, t, tp); OfMains(k, t, h, selInc, tp.mainPoints); }
        Expected(k, t, h, selInc, init) + (head + MainsExpected(k, t, h, selInc, tp.mainPoints));
        { ExpectedSnoc(k, t, h, selInc, init, tp); }
        Expected(k, t, h, selInc, ts);
      }
    }
  }

  /** Of(k, ems) is empty exactly when no element of `ems` has kind `k`. */
  lemma {:induction false} OfEmpty(k: Kind, ems: seq<Emission>)
    ensures Of(k, ems) == [] <==> forall e :: e in ems ==> e.kind != k
    decreases |ems|
  {
    if ems != [] {
      OfEmpty(k, ems[..|ems| - 1]);
      assert ems == ems[..|ems| - 1] + [ems[|ems| - 1]];
    }
  }

  /**
   * The content mode gates tables and images independently: no table
   * paragraph is appended unless the mode is "표" or "표+그래프", no image
   * paragraph unless it is "그래프" or "표+그래프"; so "없음" or any other
   * value appends neither, and everything then goes to the root.
   */
  lemma ContentGating(t: map<string, Node>, h: HwpXml, selInc: string, ts: seq<Topic>)
    ensures selInc !in TableModes ==> forall e :: e in ReportEmissions(t, h, selInc, ts) ==> e.kind != TablePara
    ensures selInc !in ImageModes ==> forall e :: e in ReportEmissions(t, h, selInc, ts) ==> e.kind != ImagePara
    ensures selInc !in TableModes && selInc !in ImageModes ==>
      forall e :: e in ReportEmissions(t, h, selInc, ts) ==> !ToBody(e.kind)
  {
    if selInc !in TableModes {
      assert Expected(TablePara, t, h, selInc, ts) == [];
      NoneOfKind(TablePara, t, h, selInc, ts);
    }
    if selInc !in ImageModes {
      assert Expected(ImagePara, t, h, selInc, ts) == [];
      NoneOfKind(ImagePara, t, h, selInc, ts);
    }
  }

  lemma NoneOfKind(k: Kind, t: map<string, Node>, h: HwpXml, selInc: string, ts: seq<Topic>)
    requires Expected(k, t, h, selInc, ts) == []
    ensures forall e :: e in ReportEmissions(t, h, selInc, ts) ==> e.kind != k
  {
    ReportProjection(k, t, h, selInc, ts);
    OfEmpty(k, ReportEmissions(t, h, selInc, ts));
  }

  /**
   * `root.find(".//hp:body") or root`: the first `hp:body` below the root
   * when it exists and has children (an element without children is false
   * in Python), otherwise the root itself.
   */
  function BodyTarget(n: Node): (r: Path)
    ensures ValidPath(n, r) && (r != [] ==> r[0] < |n.children|)
  {
    FindFirstSpec(n, TagBody);
    match FindFirst(n, TagBody)
    case Some(q) => if |At(n, q).children| != 0 then q else []
    case None => []
  }

  /**
   * The append target is the root or a valid address of an `hp:body` with
   * children; it is the root exactly when there is no `hp:body` below the
   * root or the first one in document order has no children.
   */
  lemma BodyTargetSpec(n: Node)
    ensures ValidPath(n, BodyTarget(n))
    ensures BodyTarget(n) != [] ==> At(n, BodyTarget(n)).tag == TagBody && |At(n, BodyTarget(n)).children| > 0
    ensures BodyTarget(n) == [] <==>
      (forall q :: |q| > 0 && ValidPath(n, q) ==> At(n, q).tag != TagBody)
      || (FindFirst(n, TagBody).Some? && |At(n, FindFirst(n, TagBody).value).children| == 0)
  {
    FindFirstSpec(n, TagBody);
  }

  /** `parent.append(x)` where `parent` is the element at `p`. */
  function AppendUnder(n: Node, p: Path, x: Node): Node {
    Replace(n, p, AppendChild(At(n, p), x))
  }

  /** One append of the topic loop. */
  function Apply(n: Node, e: Emission): Node {
    if ToBody(e.kind) then AppendUnder(n, BodyTarget(n), e.node) else AppendChild(n, e.node)
  }

  function ApplyAll(n: Node, ems: seq<Emission>): Node
    decreases |ems|
  {
    if ems == [] then n else Apply(ApplyAll(n, ems[..|ems| - 1]), ems[|ems| - 1])
  }

  lemma {:induction false} ApplyAllAppend(n: Node, a: seq<Emission>, b: seq<Emission>)
    ensures ApplyAll(n, a + b) == ApplyAll(ApplyAll(n, a), b)
    decreases |b|
  {
    if b == [] {
      assert a + b == a;
    } else {
      assert (a + b)[..|a + b| - 1] == a + b[..|b| - 1];
      ApplyAllAppend(n, a, b[..|b| - 1]);
    }
  }

  /**
   * `process_jbnu_report` on the parsed section root `doc` and the parsed
   * outline: pick the templates, filter the top-level children, set the
   * title, append the topics, recompute the line segments.
   */
  function ReportSpec(doc: Node, parsed: Title, selInc: string, h: HwpXml): Node {
    var templates := ExtractSpec(doc, TemplateIds);
    var titled := h.updateTextOnly(Filtered(doc), "4", parsed.title);
    h.duplicateLinesegV2(ApplyAll(titled, ReportEmissions(templates, h, selInc, parsed.topics)), 75)
  }

  /** All the nodes of `ems`, in order. */
  function Nodes(ems: seq<Emission>): seq<Node> {
    Map((e: Emission) => e.node, ems)
  }

  /**
   * With nothing bound for the body, every paragraph is appended to the
   * root: the old children stay in front, the new paragraphs follow in
   * emission order.
   */
  lemma {:induction false} AllAtRoot(n: Node, ems: seq<Emission>)
    requires forall e :: e in ems ==> !ToBody(e.kind)
    ensures ApplyAll(n, ems) == n.(children := n.children + Nodes(ems))
    decreases |ems|
  {
    if ems != [] {
      var init, e := ems[..|ems| - 1], ems[|ems| - 1];
      assert ems == init + [e];
      AllAtRoot(n, init);
      MapAppend((x: Emission) => x.node, init, [e]);
    }
  }

  lemma ApplySnoc(n: Node, ems: seq<Emission>, e: Emission)
    ensures ApplyAll(n, ems + [e]) == Apply(ApplyAll(n, ems), e)
  {
    assert (ems + [e])[..|ems|] == ems;
  }

  predicate BodyBound(e: Emission) {
    ToBody(e.kind)
  }

  predicate RootBound(e: Emission) {
    !ToBody(e.kind)
  }

  /** Once the root has an `hp:body` with children, no append moves the target. */
  lemma BodyTargetApply(n: Node, e: Emission)
    requires BodyTarget(n) != []
    ensures BodyTarget(Apply(n, e)) == BodyTarget(n)
  {
    var q := BodyTarget(n);
    BodyTargetSpec(n);
    FindFirstWalk(n, TagBody);
    FindFirstWalk(Apply(n, e), TagBody);
    if ToBody(e.kind) {
      FirstFromReplace(n, TagBody, 0, q, AppendChild(At(n, q), e.node));
    } else {
      FirstFromAppend(n, e.node, TagBody, 0);
      AtAppendChild(n, e.node, q);
    }
  }

  /**
   * `r` is `n` with `bodyAdds` appended to the element at `q` (a child of
   * the root or below one) and `rootAdds` appended to the root; the root's
   * other children and the rest of the element at `q` are as in `n`.
   */
  predicate Placed(n: Node, r: Node, q: Path, bodyAdds: seq<Node>, rootAdds: seq<Node>)
    requires q != [] && ValidPath(n, q)
  {
    && ValidPath(r, q)
    && r.tag == n.tag && r.attrib == n.attrib && r.text == n.text
    && At(r, q) == At(n, q).(children := At(n, q).children + bodyAdds)
    && r.children[..q[0]] == n.children[..q[0]]
    && r.children[q[0] + 1..] == n.children[q[0] + 1..] + rootAdds
  }

  lemma PlacedNothing(n: Node, q: Path)
    requires q != [] && ValidPath(n, q)
    ensures Placed(n, n, q, [], [])
  {
    assert n.children[q[0] + 1..] + [] == n.children[q[0] + 1..];
    assert At(n, q).children + [] == At(n, q).children;
  }

  lemma PlacedTrans(n: Node, m: Node, r: Node, q: Path, b1: seq<Node>, t1: seq<Node>, b2: seq<Node>, t2: seq<Node>)
    requires q != [] && ValidPath(n, q)
    requires Placed(n, m, q, b1, t1) && Placed(m, r, q, b2, t2)
    ensures Placed(n, r, q, b1 + b2, t1 + t2)
  {
    assert At(n, q).children + b1 + b2 == At(n, q).children + (b1 + b2);
    assert n.children[q[0] + 1..] + t1 + t2 == n.children[q[0] + 1..] + (t1 + t2);
  }

  /**
   * One append once the target is an `hp:body` at `q`: a table or image
   * paragraph goes to the end of that body and nothing else changes at the
   * root; any other paragraph goes to the end of the root's children and
   * the body is untouched.
   */
  lemma ApplyStep(n: Node, e: Emission)
    requires BodyTarget(n) != []
    ensures var q := BodyTarget(n);
      && BodyTarget(Apply(n, e)) == q
      && Placed(n, Apply(n, e), q, if BodyBound(e) then [e.node] else [], if RootBound(e) then [e.node] else [])
  {
    var q := BodyTarget(n);
    BodyTargetSpec(n);
    BodyTargetApply(n, e);
    if ToBody(e.kind) {
      var r := Replace(n, q, AppendChild(At(n, q), e.node));
      assert r.children == n.children[q[0] := Replace(n.children[q[0]], q[1..], AppendChild(At(n, q), e.node))];
    } else {
      AtAppendChild(n, e.node, q);
    }
  }

  lemma NodesFilterSnoc(p: Emission -> bool, ems: seq<Emission>)
    requires ems != []
    ensures Nodes(Filter(p, ems)) == Nodes(Filter(p, ems[..|ems| - 1]))
      + (if p(ems[|ems| - 1]) then [ems[|ems| - 1].node] else [])
  {
    var e := ems[|ems| - 1];
    MapAppend((x: Emission) => x.node, Filter(p, ems[..|ems| - 1]), if p(e) then [e] else []);
  }

  /**
   * Where the topic paragraphs land once the section has an `hp:body` with
   * children: the target stays that body for the whole loop; the body keeps
   * its own children and gains the table and image paragraphs in emission
   * order; the root keeps its other children and gains every other
   * paragraph, in emission order, after them.
   */
  lemma {:induction false} BodyPlacement(n: Node, ems: seq<Emission>)
    requires BodyTarget(n) != []
    ensures var q := BodyTarget(n);
      && BodyTarget(ApplyAll(n, ems)) == q
      && Placed(n, ApplyAll(n, ems), q, Nodes(Filter(BodyBound, ems)), Nodes(Filter(RootBound, ems)))
    decreases |ems|
  {
    var q := BodyTarget(n);
    if ems == [] {
      PlacedNothing(n, q);
    } else {
      var init, e := ems[..|ems| - 1], ems[|ems| - 1];
      BodyPlacement(n, init);
      var r0 := ApplyAll(n, init);
      assert ApplyAll(n, ems) == Apply(r0, e);
      ApplyStep(r0, e);
      NodesFilterSnoc(BodyBound, ems);
      NodesFilterSnoc(RootBound, ems);
      PlacedTrans(n, r0, ApplyAll(n, ems), q,
        Nodes(Filter(BodyBound, init)), Nodes(Filter(RootBound, init)),
        if BodyBound(e) then [e.node] else [], if RootBound(e) then [e.node] else []);
    }
  }

  lemma TagSnoc(k: Kind, ns: seq<Node>, i: nat)
    requires i < |ns|
    ensures Tag(k, ns[..i + 1]) == Tag(k, ns[..i]) + [Emission(k, ns[i])]
  {
    MapSnoc((n: Node) => Emission(k, n), ns, i);
  }

  /** The section root: the element whose children the assembly removes and appends in place. */
  class Element {
    var tag: string
    var attrib: map<string, string>
    var text: Option<string>
    var children: seq<Node>

    function Value(): Node
      reads this
    {
      Node(tag, attrib, text, children)
    }

    constructor (n: Node)
      ensures Value() == n
    {
      tag, attrib, text, children := n.tag, n.attrib, n.text, n.children;
    }

    /**
     * `root.remove(child)` where `child` is the `i`-th current child:
     * ElementTree removes that very element; the other children keep their order.
     */
    method Remove(i: nat)
      requires i < |children|
      modifies this
      ensures children == old(children[..i] + children[i + 1..])
      ensures tag == old(tag) && attrib == old(attrib) && text == old(text)
    {
      children := children[..i] + children[i + 1..];
    }

    /** `root.append(x)`. */
    method Append(x: Node)
      modifies this
      ensures Value() == AppendChild(old(Value()), x)
    {
      children := children + [x];
    }

    /** `parent.append(x)` for the element `parent` at `p` below the root (the root itself when `p` is empty). */
    method AppendAt(p: Path, x: Node)
      modifies this
      ensures Value() == AppendUnder(old(Value()), p, x)
    {
      var v := AppendUnder(Value(), p, x);
      tag, attrib, text, children := v.tag, v.attrib, v.text, v.children;
    }

    /** An hwp_xml helper that rewrites the tree in place, given by the tree it leaves. */
    method Become(n: Node)
      modifies this
      ensures Value() == n
    {
      tag, attrib, text, children := n.tag, n.attrib, n.text, n.children;
    }
  }

  /** The filter loop: every top-level child without a title paragraph below it is removed. */
  method FilterBlocks(root: Element)
    modifies root
    ensures root.Value() == Filtered(old(root.Value()))
  {
    var snapshot := root.children;
    var kept := 0;
    for k := 0 to |snapshot|
      invariant root.tag == old(root.tag) && root.attrib == old(root.attrib) && root.text == old(root.text)
      invariant kept == |Filter(KeepBlock, snapshot[..k])|
      invariant root.children == Filter(KeepBlock, snapshot[..k]) + snapshot[k..]
    {
      kept := FilterOne(root, snapshot, k, kept);
    }
    assert snapshot[..|snapshot|] == snapshot;
  }

  /** One iteration of the filter loop: keep `snapshot[k]`, or remove it from its current index `kept`. */
  method FilterOne(root: Element, snapshot: seq<Node>, k: nat, kept: nat) returns (kept': nat)
    requires k < |snapshot|
    requires kept == |Filter(KeepBlock, snapshot[..k])|
    requires root.children == Filter(KeepBlock, snapshot[..k]) + snapshot[k..]
    modifies root
    ensures root.tag == old(root.tag) && root.attrib == old(root.attrib) && root.text == old(root.text)
    ensures kept' == |Filter(KeepBlock, snapshot[..k + 1])|
    ensures root.children == Filter(KeepBlock, snapshot[..k + 1]) + snapshot[k + 1..]
  {
    FilterScanStep(KeepBlock, snapshot, k);
    var keep := KeepsBlock(snapshot[k]);
    if keep {
      kept' := kept + 1;
    } else {
      root.Remove(kept);
      kept' := kept;
    }
  }

  /** The appends for one main point: sub-title, details, then tables and images when the mode allows them. */
  method AppendMainPoint(root: Element, templates: map<string, Node>, h: HwpXml, selInc: string, main: MainPoint)
    modifies root
    ensures root.Value() == ApplyAll(old(root.Value()), MainEmissions(templates, h, selInc, main))
  {
    ghost var s0 := root.Value();
    if "6" in templates {
      root.Append(h.clonePara(templates["6"], main.subTitle));
      ApplySnoc(s0, [], Emission(SubTitlePara, h.clonePara(templates["6"], main.subTitle)));
    }
    AppendDetails(root, templates, h, main.details);
    if selInc in TableModes {
      AppendTables(root, h, OrEmpty(main.tables));
    }
    if selInc in ImageModes {
      AppendImages(root, h, OrEmpty(main.images));
    }
    ApplyAllAppend(s0, SubEmission(templates, h, main), DetailEmissions(templates, h, main.details));
    ApplyAllAppend(s0, SubEmission(templates, h, main) + DetailEmissions(templates, h, main.details), GatedTables(h, selInc, main));
    ApplyAllAppend(s0, SubEmission(templates, h, main) + DetailEmissions(templates, h, main.details) + GatedTables(h, selInc, main), GatedImages(h, selInc, main));
  }

  /** One turn of the detail loop appends the next detail paragraph, or nothing without template "11". */
  lemma DetailStep(templates: map<string, Node>, h: HwpXml, details: seq<Detail>, di: nat)
    requires di < |details| && "11" in templates
    ensures DetailEmissions(templates, h, details[..di + 1])
      == DetailEmissions(templates, h, details[..di]) + [Emission(DetailPara, h.clonePara(templates["11"], details[di].content))]
  {
    assert forall i :: 0 <= i < di ==> details[..di + 1][i] == details[..di][i];
  }

  /** `for detail in main.details`: one detail paragraph each, to the root, when template "11" exists. */
  method AppendDetails(root: Element, templates: map<string, Node>, h: HwpXml, details: seq<Detail>)
    modifies root
    ensures root.Value() == ApplyAll(old(root.Value()), DetailEmissions(templates, h, details))
  {
    ghost var s0 := root.Value();
    for di := 0 to |details|
      invariant root.Value() == ApplyAll(s0, DetailEmissions(templates, h, details[..di]))
    {
      if "11" in templates {
        var detail := details[di];
        DetailStep(templates, h, details, di);
        ApplySnoc(s0, DetailEmissions(templates, h, details[..di]), Emission(DetailPara, h.clonePara(templates["11"], detail.content)));
        root.Append(h.clonePara(templates["11"], detail.content));
      }
    }
    assert details[..|details|] == details;
  }

  /** One turn of the table loop appends the next table paragraph where Apply puts it. */
  lemma TableStep(h: HwpXml, tables: seq<TableItem>, j: nat)
    requires j < |tables|
    ensures TableEmissions(h, tables[..j + 1]) == TableEmissions(h, tables[..j]) + [Emission(TablePara, FillTable(h, tables[j]))]
  {
    assert forall i :: 0 <= i < j ==> tables[..j + 1][i] == tables[..j][i];
  }

  /** `for tbl in main.tables or []`: one filled table paragraph each, to the body or the root. */
  method AppendTables(root: Element, h: HwpXml, tables: seq<TableItem>)
    modifies root
    ensures root.Value() == ApplyAll(old(root.Value()), TableEmissions(h, tables))
  {
    ghost var s0 := root.Value();
    for j := 0 to |tables|
      invariant root.Value() == ApplyAll(s0, TableEmissions(h, tables[..j]))
    {
      var tbl := tables[j];
      var pWithTable := h.paraWithTable;
      var filled := h.fillTblInPara(pWithTable, tbl.table, tbl.caption, h.tableRowTemplate, h.tcTemplate, "4");
      var parent := BodyTarget(root.Value());
      TableStep(h, tables, j);
      ApplySnoc(s0, TableEmissions(h, tables[..j]), Emission(TablePara, filled));
      root.AppendAt(parent, filled);
    }
    assert tables[..|tables|] == tables;
  }

  /** One turn of the image loop appends the next picture paragraph where Apply puts it. */
  lemma ImageStep(h: HwpXml, images: seq<ImageItem>, j: nat)
    requires j < |images|
    ensures ImageEmissions(h, images[..j + 1]) == ImageEmissions(h, images[..j]) + [Emission(ImagePara, FillImage(h, images[j]))]
  {
    assert forall i :: 0 <= i < j ==> images[..j + 1][i] == images[..j][i];
  }

  /** `for image in main.images or []`: one filled picture paragraph each, to the body or the root. */
  method AppendImages(root: Element, h: HwpXml, images: seq<ImageItem>)
    modifies root
    ensures root.Value() == ApplyAll(old(root.Value()), ImageEmissions(h, images))
  {
    ghost var s0 := root.Value();
    for j := 0 to |images|
      invariant root.Value() == ApplyAll(s0, ImageEmissions(h, images[..j]))
    {
      var image := images[j];
      var pWithImage := h.paraWithImage;
      var filled := h.fillPicInPara(pWithImage, image.filename, image.caption);
      var parent := BodyTarget(root.Value());
      ImageStep(h, images, j);
      ApplySnoc(s0, ImageEmissions(h, images[..j]), Emission(ImagePara, filled));
      root.AppendAt(parent, filled);
    }
    assert images[..|images|] == images;
  }

  /** The appends for one topic: the topic paragraph, then its main points in order. */
  method AppendTopic(root: Element, templates: map<string, Node>, h: HwpXml, selInc: string, topic: Topic, isFirst: bool)
    modifies root
    ensures root.Value() == ApplyAll(old(root.Value()), TopicEmissions(templates, h, selInc, topic))
  {
    ghost var s0 := root.Value();
    if "2" in templates {
      var filled := CloneTableParaWithTopic(templates["2"], topic.topic, !isFirst);
      root.Append(filled);
      ApplySnoc(s0, [], Emission(TopicPara, filled));
    }
    ghost var s1 := root.Value();
    for mi := 0 to |topic.mainPoints|
      invariant root.Value() == ApplyAll(s1, MainsEmissions(templates, h, selInc, topic.mainPoints[..mi]))
    {
      var main := topic.mainPoints[mi];
      AppendMainPoint(root, templates, h, selInc, main);
      assert topic.mainPoints[..mi + 1][..mi] == topic.mainPoints[..mi];
      ApplyAllAppend(s1, MainsEmissions(templates, h, selInc, topic.mainPoints[..mi]), MainEmissions(templates, h, selInc, main));
    }
    assert topic.mainPoints[..|topic.mainPoints|] == topic.mainPoints;
    ApplyAllAppend(s0, TopicHead(templates, topic), MainsEmissions(templates, h, selInc, topic.mainPoints));
  }

  lemma ReportSnoc(n: Node, t: map<string, Node>, h: HwpXml, selInc: string, ts: seq<Topic>, i: nat)
    requires i < |ts|
    ensures ApplyAll(n, ReportEmissions(t, h, selInc, ts[..i + 1]))
      == ApplyAll(ApplyAll(n, ReportEmissions(t, h, selInc, ts[..i])), TopicEmissions(t, h, selInc, ts[i]))
  {
    assert ts[..i + 1][..i] == ts[..i];
    ApplyAllAppend(n, ReportEmissions(t, h, selInc, ts[..i]), TopicEmissions(t, h, selInc, ts[i]));
  }

  /**
   * `process_jbnu_report` on the parsed section root `doc`, the parsed
   * outline and the content mode; returns the tree it writes out.
   */
  method ProcessJbnuReport(doc: Node, parsed: Title, selInc: string, h: HwpXml) returns (out: Node)
    ensures out == ReportSpec(doc, parsed, selInc, h)
  {
    var templates := Extract(doc, TemplateIds);
    var root := new Element(doc);
    FilterBlocks(root);
    root.Become(h.updateTextOnly(root.Value(), "4", parsed.title));
    ghost var titled := root.Value();
    for ti := 0 to |parsed.topics|
      invariant root.Value() == ApplyAll(titled, ReportEmissions(templates, h, selInc, parsed.topics[..ti]))
    {
      var topic := parsed.topics[ti];
      var isFirst := ti == 0;
      AppendTopic(root, templates, h, selInc, topic, isFirst);
      ReportSnoc(titled, templates, h, selInc, parsed.topics, ti);
    }
    assert parsed.topics[..|parsed.topics|] == parsed.topics;
    root.Become(h.duplicateLinesegV2(root.Value(), 75));
    out := root.Value();
  }
}
