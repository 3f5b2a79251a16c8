# A verified model of the report and search helpers of an LLM data-report agent

The system turns questions about a database into written reports. An LLM writes SQL and then a
markdown answer. The answer's tables, captions and JSON outline feed a report in the
HWPX (Hancom word processor) format. A small vector search finds the files that a query word
belongs to. This project models four pieces of deterministic logic in that pipeline and proves
what they promise.

- **Report assembly** (`hwpx_report/jbnu_report.py`, modules `Markup` and `JbnuReport`).
  - `Markup` models the ElementTree part that is used: a document tree, addresses of
    sub-elements, document order, and `findall`/`find` with descendant steps and an
    `[@key='value']` filter.
  - `JbnuReport` models three things:
    - `extract`, which picks a template per style id, first by a "TOPIC" test on the second
      table cell and then by falling back to the first candidate;
    - `clone_table_para_with_topic`;
    - `process_jbnu_report`:
      - the in-place removal of top-level blocks without a title paragraph;
      - the ordered append loop over topics, main points, details, tables and images;
      - the gating of tables and images by the content mode;
      - the choice of `root.find(".//hp:body") or root` as the append target.
  - The section root is a class `Element` whose children the methods remove and append in place.
- **Text utilities of the SQL agent** (`llm_agent/sql_report.py`, modules `PyStr`, `PyRe` and
  `SqlReport`):
  - the Chinese-character test;
  - the case-insensitive, lazy `SELECT … ;` scan;
  - the `~` spacing rewrite;
  - the line-grouping state machine that collects markdown table rows, as a method with its loop;
  - the `![caption]` scan.

  `PyRe` states once what a left-to-right, non-overlapping `findall` scan is. Both scans are
  proved to be such a scan.
- **JSON block extraction** (`hwpx_report/model_json.py`, module `ModelJson`). The greedy search
  `\{[\s\S]*\}` is "the slice from the first `{` to the last `}`, or a `ValueError`". The proof
  checks this against the leftmost-longest match semantics of `re.search`.
- **Token normalisation and hit merging** (`llm_agent/search.py`, module `Search`). This covers
  `normalize_token` and the search method:
  - its two loops fill the `partial_hits` and `candidate_files` dictionaries. These are
    insertion-ordered maps, modelled as sequences of key/value pairs with `Put` and `Pop`;
  - then it sorts with Python's stable `sorted(..., reverse=True)`.

  The method is proved equal to a fold over the index's answers. The lemmas then state which
  files become substring hits or similarity candidates, with which record, and in which order
  they come back.

Each method is proved equal to a specification function. The properties are proved about those
functions.

## Model

| member | source | states |
|---|---|---|
| Markup.FindAllExact | hwpx_report/jbnu_report.py:49 | `findall(".//tag[@key='value']")` returns exactly the strict descendants with that tag and attribute value, as a subsequence of document order |
| Markup.SelectExact | hwpx_report/jbnu_report.py:49 | the `[@paraPrIDRef='pid']` filter keeps exactly the matching elements, in their order |
| Markup.DescExact | hwpx_report/jbnu_report.py:110 | the `.//` descendant walk visits exactly the sub-elements, never the context node itself |
| Markup.FindFirstSpec | hwpx_report/jbnu_report.py:28 | `find(".//hp:t")` is None exactly when no strict descendant has the tag; otherwise it is the first one in document order |
| Markup.ChainValid | hwpx_report/jbnu_report.py:25 | `.//hp:tbl//hp:tr//hp:tc` selects only valid addresses of elements tagged `hp:tc` |
| Markup.ChainSingle | hwpx_report/jbnu_report.py:25 | a one-step path expression is a plain `findall` |
| Markup.Replace | hwpx_report/jbnu_report.py:31 | updating one element in place puts the new element at its address and leaves the root's tag, attributes, text and child count as they were |
| Markup.ReplaceAtSelf | hwpx_report/jbnu_report.py:31 | writing back the element already at an address changes nothing |
| Markup.ReplaceTwice | hwpx_report/jbnu_report.py:31 | a second update at the same address overrides the first |
| Markup.AppendChild | hwpx_report/jbnu_report.py:136 | `append` adds the element as the last child and keeps the old children, tag, attributes and text |
| Markup.AtAppendChild | hwpx_report/jbnu_report.py:136 | after an append every old sub-element is still at its old address |
| Markup.AtAppendedChild | hwpx_report/jbnu_report.py:136 | the only new addresses after an append are the appended element and its descendants |
| JbnuReport.TopicSlotSpec | hwpx_report/jbnu_report.py:25-28 | the text slot exists exactly when there are at least two cells and the second has an `hp:t`; it is then the first `hp:t` of the second cell |
| JbnuReport.TopicTestMeaning | hwpx_report/jbnu_report.py:55-59 | a candidate passes the TOPIC test exactly when it has two cells, an `hp:t` in the second, non-empty text, and "TOPIC" in that text's upper-case form |
| JbnuReport.ChooseTemplate | hwpx_report/jbnu_report.py:52-68 | no template exactly when there are no candidates; otherwise the first candidate that passes the TOPIC test, or else the first candidate |
| JbnuReport.CandidatesExact | hwpx_report/jbnu_report.py:49 | the candidates are exactly the `hp:p` elements below the root whose `paraPrIDRef` is the id |
| JbnuReport.PickTemplate | hwpx_report/jbnu_report.py:52-68 | the scan with the `matched` flag, the `break` and the fallback picks the template ChooseTemplate names |
| JbnuReport.Extract | hwpx_report/jbnu_report.py:43-70 | an id is a key of the result exactly when it is asked for and has a candidate, and its value is the chosen template |
| JbnuReport.TopicClone | hwpx_report/jbnu_report.py:21-40 | without a text slot the clone is the template; with one, the clone is the template with exactly that text replaced by `topic_text.strip()` |
| JbnuReport.CloneTableParaWithTopic | hwpx_report/jbnu_report.py:21-40 | the method returns TopicClone whatever `page_break` is |
| JbnuReport.KeepBlockMeaning | hwpx_report/jbnu_report.py:110-116 | a block is kept exactly when some strict-descendant `hp:p` has `paraPrIDRef` "4" |
| JbnuReport.KeepsBlock | hwpx_report/jbnu_report.py:110-116 | the inner loop with its `break` decides KeepBlock |
| JbnuReport.Filtered | hwpx_report/jbnu_report.py:108-118 | the filter keeps the root's tag, attributes and text |
| JbnuReport.FilteredExact | hwpx_report/jbnu_report.py:108-118 | after the filter the root holds exactly the original children that pass KeepBlock, as a subsequence in their original order |
| JbnuReport.FilterOne | hwpx_report/jbnu_report.py:108-118 | one loop turn keeps the block or removes it from its current index; the children are then the kept prefix followed by the unscanned rest |
| JbnuReport.FilterBlocks | hwpx_report/jbnu_report.py:108-118 | removing children in place while looping over a snapshot leaves the root equal to Filtered of the old root |
| JbnuReport.Element.constructor | hwpx_report/jbnu_report.py:102 | the root element holds the parsed tree |
| JbnuReport.Element.Remove | hwpx_report/jbnu_report.py:118 | `root.remove(child)` drops that child; the other children keep their order |
| JbnuReport.Element.Append | hwpx_report/jbnu_report.py:136 | `root.append(x)` on the element |
| JbnuReport.Element.AppendAt | hwpx_report/jbnu_report.py:155-156 | `parent.append(filled)` for the element at an address below the root |
| JbnuReport.Element.Become | hwpx_report/jbnu_report.py:124 | an opaque helper that rewrites the tree in place leaves the tree it returns |
| JbnuReport.BodyTargetSpec | hwpx_report/jbnu_report.py:155 | the append target is the root exactly when there is no `hp:body` below it or the first one has no children; otherwise it is that `hp:body` |
| JbnuReport.ReportProjection | hwpx_report/jbnu_report.py:129-167 | for every kind of paragraph, the appended paragraphs of that kind are the expected ones in the outline's order, with no reordering or dropping |
| JbnuReport.ContentGating | hwpx_report/jbnu_report.py:146-167 | no table is appended unless the mode is "표" or "표+그래프", and no image unless it is "그래프" or "표+그래프"; with neither, nothing goes to the body |
| JbnuReport.AllAtRoot | hwpx_report/jbnu_report.py:134-144 | paragraphs bound for the root are appended after the old children, in emission order |
| Markup.FindFirstWalk | hwpx_report/jbnu_report.py:155 | `find` returns the first match of a document-order walk: a child is tried before anything below it, and everything below a child before the next child |
| JbnuReport.BodyTargetApply | hwpx_report/jbnu_report.py:155-156 | once the first `hp:body` has children, no append changes the target that `find` picks |
| JbnuReport.ApplyStep | hwpx_report/jbnu_report.py:134-167 | with an `hp:body` target, a table or image paragraph goes to the end of that body and any other paragraph to the end of the root; nothing else changes |
| JbnuReport.BodyPlacement | hwpx_report/jbnu_report.py:134-167 | with an `hp:body` target, the target stays the same for the whole loop; the body gains exactly the table and image paragraphs, in order, after its own children; the root keeps its other children and gains every other paragraph after them, in order |
| JbnuReport.AppendDetails | hwpx_report/jbnu_report.py:142-144 | one detail paragraph per detail, at the root, when template "11" exists |
| JbnuReport.AppendTables | hwpx_report/jbnu_report.py:147-156 | one filled table paragraph per table, in order, at the body target |
| JbnuReport.AppendImages | hwpx_report/jbnu_report.py:160-167 | one filled picture paragraph per image, in order, at the body target |
| JbnuReport.AppendMainPoint | hwpx_report/jbnu_report.py:138-167 | sub-title, details, then the gated tables and images of one main point |
| JbnuReport.AppendTopic | hwpx_report/jbnu_report.py:129-167 | the topic paragraph when template "2" exists, then the main points in order |
| JbnuReport.ProcessJbnuReport | hwpx_report/jbnu_report.py:91-175 | the assembled tree is ReportSpec: templates, filter, title, the ordered appends, then the line-segment pass |
| PyStr.ContainsOccurs | llm_agent/search.py:34 | Python's `q in s` holds exactly when `q` occurs at some index of `s` |
| PyStr.StripSpec | llm_agent/sql_report.py:321 | `strip()` returns the slice starting after the leading whitespace; it starts and ends with non-whitespace, and everything outside it is whitespace |
| PyStr.StripNoSpace | llm_agent/search.py:20 | a string without whitespace is its own strip |
| PyRe.SpansAreScan | llm_agent/sql_report.py:307 | the computed spans are a left-to-right, non-overlapping findall scan |
| PyRe.ScanUnique | llm_agent/sql_report.py:307 | such a scan is unique |
| PyRe.SpansCover | llm_agent/sql_report.py:307 | every position where the pattern matches lies inside some span that was found |
| SqlReport.CjkMatch | llm_agent/sql_report.py:292 | `[一-鿿]` matches one character exactly when it is in U+4E00..U+9FFF |
| SqlReport.ContainsChinese | llm_agent/sql_report.py:291-292 | true exactly when some character is in U+4E00..U+9FFF |
| SqlReport.CjkSearch | llm_agent/sql_report.py:292 | `re.search` finds a match exactly when such a character exists |
| SqlReport.SelectQueriesSpec | llm_agent/sql_report.py:306-307 | the queries are the findall scan of `SELECT[\s\S]*?;`, one per span, each a well-formed query |
| SqlReport.QueryShape | llm_agent/sql_report.py:307 | each query starts with SELECT in any case, has exactly one `;`, and that `;` is its last character |
| SqlReport.QueryEnd | llm_agent/sql_report.py:307 | each query ends at a `;` of the text |
| SqlReport.SelectQueriesCover | llm_agent/sql_report.py:307 | every SELECT with a later `;` lies inside one of the extracted queries |
| SqlReport.NoSemicolonNoQuery | llm_agent/sql_report.py:307 | a SELECT with no later `;` yields no query that reaches it |
| SqlReport.TildeSpacedAfter | llm_agent/sql_report.py:310-311 | after the rewrite every `~` has a space right before and right after it |
| SqlReport.TildeCountKept | llm_agent/sql_report.py:310-311 | the rewrite keeps the number of `~` characters |
| SqlReport.NoTildeUnchanged | llm_agent/sql_report.py:310-311 | a string without `~` comes back unchanged |
| SqlReport.NonSpaceKept | llm_agent/sql_report.py:310-311 | the non-whitespace characters of the input, `~` included, come back unchanged and in the same order; only whitespace changes |
| SqlReport.TildeSplit | llm_agent/sql_report.py:310-311 | rewriting two strings joined together is rewriting each one and joining the results |
| SqlReport.TildeLocal | llm_agent/sql_report.py:310-311 | a character that is neither whitespace nor `~` cuts the string: each side is rewritten on its own, so only whitespace next to a `~` is ever rewritten |
| SqlReport.SplitLines | llm_agent/sql_report.py:315 | no line of `splitlines()` holds a line boundary |
| SqlReport.GlueDigitsNoGap | llm_agent/sql_report.py:326 | after `re.sub(r'(?<=\d)\s+(?=\d)', '', …)` no whitespace run lies between two digits |
| SqlReport.ExtractAllMarkdownTables | llm_agent/sql_report.py:314-340 | the loop over the lines returns TableGroups of the text's lines |
| SqlReport.GroupsAreRows | llm_agent/sql_report.py:320-338 | every emitted group is non-empty, and together the groups are the collected rows in input order |
| SqlReport.RowsHaveNoDigitGap | llm_agent/sql_report.py:326 | no collected row has whitespace between two digits |
| SqlReport.NonTableLineCloses | llm_agent/sql_report.py:329-334 | a line that is not a pipe row closes the open group: the groups on both sides of it are independent |
| SqlReport.SeparatorIgnored | llm_agent/sql_report.py:323-324 | a separator row neither opens nor closes a group |
| SqlReport.OpenGroupEmitted | llm_agent/sql_report.py:336-338 | data rows that reach the end of the input form one group that is still emitted |
| SqlReport.ImageCaptionsSpec | llm_agent/sql_report.py:433 | the captions are the findall scan of `!\[(.*?)\]`; each span is `![` caption `]`, and no caption holds `]` or a newline |
| SqlReport.CaptionAt | llm_agent/sql_report.py:433 | the `k`-th span of the text is `![` + the `k`-th caption + `]` |
| ModelJson.ExtractJsonBlock | hwpx_report/model_json.py:87-95 | success gives a block of at least two characters that starts with `{` and ends with `}`; failure carries the `ValueError` message |
| ModelJson.ExtractIsSearch | hwpx_report/model_json.py:91-95 | failure happens exactly when the pattern matches nowhere; success returns the leftmost, longest match of `re.search` |
| ModelJson.ErrorExactly | hwpx_report/model_json.py:91-95 | the `ValueError` is raised exactly when no `}` follows the first `{`, including when there is no `{` |
| ModelJson.BlockIsSlice | hwpx_report/model_json.py:91-93 | the block sits at an index with no `{` before it and no `}` after it |
| ModelJson.BlockIsSubstring | hwpx_report/model_json.py:91-93 | the block is a substring of the input, so it is never longer |
| ModelJson.ExtractIdempotent | hwpx_report/model_json.py:91-93 | extracting again from the block returns the block |
| Search.NormalizeToken | llm_agent/search.py:16-20 | the result is never longer than the input |
| Search.NormalizeIsFilter | llm_agent/search.py:16-20 | the result is the lower-cased text with every whitespace character and every `·`, `_`, `-`, `/` deleted: it only lower-cases and deletes |
| Search.NormalizeChars | llm_agent/search.py:16-20 | the result holds no whitespace and none of `·`, `_`, `-`, `/`, and is a subsequence of the lower-cased text |
| Search.NormalizeIdempotent | llm_agent/search.py:16-20 | normalising a normalised token changes nothing |
| Search.PutSpec | llm_agent/search.py:35-40 | `d[k] = v` keeps the keys distinct, adds `k`, maps `k` to `v` and leaves the other keys' values alone |
| Search.PopSpec | llm_agent/search.py:57 | `d.pop(k, None)` removes `k` and leaves the other keys and values alone |
| Search.SortSpec | llm_agent/search.py:68 | the sort returns a permutation ordered by non-increasing score that keeps the input order among records of equal score |
| Search.SortFilesUnique | llm_agent/search.py:68 | sorting keeps every file at most once |
| Search.SortPartialsLead | llm_agent/search.py:67-68 | when the substring hits come first in the input, they stay ahead of similarity records of the same score |
| Search.TokenPassSpec | llm_agent/search.py:33-40 | the token loop of one file records that file, under its own name, exactly when one of its tokens strictly contains the query |
| Search.IndexPassSpec | llm_agent/search.py:32-40 | after the first loop the substring hits are exactly the files with a token that strictly contains the query, each recorded under its own name |
| Search.MergeRunOk | llm_agent/search.py:44-65 | the second loop keeps both dictionaries well formed: distinct keys, no file in both, substring hits scoring 1.0, candidates clearing both thresholds |
| Search.BelowThresholdIgnored | llm_agent/search.py:44-46 | the second loop ends the same when every answer below `thres1` is removed first |
| Search.MergeRunPartialKeys | llm_agent/search.py:48-58 | a file is a substring hit after the loop exactly when it was one before, or some answer that clears `thres1` has a `word_norm` strictly containing the query |
| Search.MergeRunCandKeys | llm_agent/search.py:48-65 | a file is a candidate after the loop exactly when it is no substring hit, and it was a candidate before or some qualifying answer names it |
| Search.MergeRunPartialGet | llm_agent/search.py:48-56 | a file that became a substring hit in the loop carries the raw word of the first answer that made it one; earlier records are kept |
| Search.MergeRunCandGet | llm_agent/search.py:59-65 | a candidate carries the raw word and score of the first qualifying answer for its file |
| Search.JoinedUnique | llm_agent/search.py:67 | the joined values hold one record per file, with all substring hits before all candidates |
| Search.JoinedFiles | llm_agent/search.py:67 | a file has a substring-hit record in the joined values exactly when it is a key of `partial_hits`, and a similarity record exactly when it is a key of `candidate_files` |
| Search.JoinedScores | llm_agent/search.py:67 | every joined record is a substring hit scoring 1.0 or a similarity record that clears both thresholds |
| Search.ResolveSpec | llm_agent/search.py:44-47 | the second loop reads exactly the answers that clear `thres1`, in index order, each with the `meta` row its index names, a negative index counting from the end |
| Search.ResultSpec | llm_agent/search.py:24-68 | the results are the joined records, each file once, sorted by non-increasing score, with substring hits ahead of similarity records of equal score |
| Search.PartialIff | llm_agent/search.py:32-58 | a file comes back as a substring hit exactly when one of its tokens, or the `word_norm` of an answer that clears `thres1`, strictly contains the normalised query |
| Search.PartialValue | llm_agent/search.py:32-56 | such a hit carries the file name when a token matched; otherwise it carries the raw word of the first matching answer |
| Search.CandidateIff | llm_agent/search.py:44-65 | a file comes back as a similarity record exactly when it is no substring hit and some answer for it clears both thresholds without strictly containing the query |
| Search.CandidateFirst | llm_agent/search.py:59-65 | a similarity record carries the raw word and score of the first such answer, in index order |
| Search.SearchFaissWithPartialAndSimilarity | llm_agent/search.py:24-68 | the two loops and the sort return SearchResult; the results are sorted, hold each file once, and put substring hits ahead of equal-score candidates |
| Search.DefaultScores | llm_agent/search.py:24-68 | with the default thresholds 0.4 and 0.5, every result scores at least 0.5, and a result scoring below 1.0 is a similarity record |

## Left out

- The helpers star-imported from `hwp_xml` are not part of this model. The record `HwpXml` passes them in as opaque functions, and nothing is claimed about them:
  - `clone_para`, `update_text_only`, `fill_tbl_in_para`, `fill_pic_in_para` and `duplicate_lineseg_v2`;
  - the `find_*` template readers. Each of these reads the same file, so each call returns the same element, and they become fixed nodes.
- File and process I/O is left out:
  - `ET.parse` and `tree.write`;
  - the JSON load and the pydantic validation (the outline is given as the `Title` datatype);
  - the namespace registration;
  - `zip_as_hwpx` and `copy_folder`;
  - every `print`.
- ElementTree's `tail` text is not part of `Node`. Nothing in the report assembly reads or writes it. `root.remove` takes a child's tail with it, and `deepcopy` copies it, so dropping it loses nothing the model states.
- `copy.deepcopy` is the identity, because elements are values. Element identity and aliasing are not modelled. `root.remove(child)` removes the child at the index where the loop finds it. In the source it removes the first child equal to it, which is the same element because the loop iterates a snapshot of the children.
- The LLM client, the database, the sentence encoder and the FAISS index are not modelled. The search takes the index's answer as a sequence of (score, meta index) pairs.
- `convert_table` (pandas), `correct_sql_table_names` (difflib), `run_sql_analysis` and the
  report generators are not part of this model. The grouping stops at the row groups that `convert_table` would receive.
- Case mapping models only the ASCII letters, in `str.upper()`, `str.lower()` and the case-insensitive SELECT. Beyond ASCII, the one extra fold is U+017F LONG S matching `s`, which Python's `re` adds. `\d` is the ASCII digits. `\s` and `strip()` use the whitespace set of `str.isspace`.
- Scores are real numbers. The float32 rounding of FAISS scores and its comparison with `0.4` and `0.5` as doubles are not modelled.
- SearchFaissWithPartialAndSimilarity requires that every answer clearing `thres1` has an index in `-len(meta) .. len(meta) - 1`. Answers below `thres1` are skipped before `meta` is read, so their index is never checked. A negative index reads from the end of `meta`, as in Python; the FAISS padding index `-1` therefore reads the last row. An index outside that range would raise `IndexError` in the source; the model does not model that exception.
- Python's dictionaries are modelled as sequences of key/value pairs in insertion order. The `file_token_index` dictionary is a sequence of (file, tokens) pairs, and duplicate files in it behave as repeated assignment.
- Python's `sorted` (Timsort) is modelled by a stable insertion sort. Both are stable, so for the key `score` with `reverse=True` they produce the same list.
