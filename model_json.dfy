/**
 * hwpx_report/model_json.py: `extract_json_block`, which cuts the JSON
 * object out of a model's answer with `re.search(r"\{[\s\S]*\}", text)` and
 * raises `ValueError` when there is none.
 */
module ModelJson {
  import opened Common
  import opened PyStr

  /** The message of the `ValueError` raised when no block is found. */
  const NoBlockMessage := "JSON 블록을 찾을 수 없습니다."

  predicate IsOpen(c: char) {
    c == '{'
  }

  /** The index of the last `c` in `text`. */
  function LastIndex(text: string, c: char): (r: Option<nat>)
    ensures r.Some? ==> r.value < |text| && text[r.value] == c
    ensures r.Some? ==> forall j :: r.value < j < |text| ==> text[j] != c
    ensures r.None? ==> forall j :: 0 <= j < |text| ==> text[j] != c
    decreases |text|
  {
    if text == [] then None
    else if text[|text| - 1] == c then Some(|text| - 1)
    else LastIndex(text[..|text| - 1], c)
  }

  /**
   * `extract_json_block(text)`: the text from the first `{` through the
   * last `}`, or the `ValueError` when no `}` comes after the first `{`.
   */
  function ExtractJsonBlock(text: string): (r: Result<string, string>)
    ensures r.Ok? ==> 2 <= |r.value| && r.value[0] == '{' && r.value[|r.value| - 1] == '}'
    ensures r.Err? ==> r.error == NoBlockMessage
  {
    match FirstWhere(text, IsOpen, 0)
    case None => Err(NoBlockMessage)
    case Some(i) =>
      match LastIndex(text, '}')
      case Some(j) => if i < j then Ok(text[i..j + 1]) else Err(NoBlockMessage)
      case None => Err(NoBlockMessage)
  }

  // ------------------------------------------------------------------
  // the regular expression itself

  /** `\{[\s\S]*\}` matches `text[p..e]`: a `{`, anything at all, a `}`. */
  predicate BlockAt(text: string, p: int, e: int) {
    0 <= p && p + 2 <= e <= |text| && text[p] == '{' && text[e - 1] == '}'
  }

  /**
   * The match `re.search` reports: the leftmost start at which the pattern
   * matches, and there the longest match, because the greedy `[\s\S]*`
   * first runs to the end of the text and then gives characters back.
   */
  ghost predicate IsSearchMatch(text: string, p: int, e: int) {
    && BlockAt(text, p, e)
    && (forall p', e' :: 0 <= p' < p && BlockAt(text, p', e') ==> false)
    && (forall e' :: e < e' <= |text| ==> !BlockAt(text, p, e'))
  }

  /**
   * ExtractJsonBlock is `re.search`: it fails exactly when the pattern
   * matches nowhere, and otherwise returns the text of the search match.
   */
  lemma ExtractIsSearch(text: string)
    ensures ExtractJsonBlock(text).Err? <==> forall p, e :: !BlockAt(text, p, e)
    ensures ExtractJsonBlock(text).Ok? ==>
      exists p, e :: IsSearchMatch(text, p, e) && ExtractJsonBlock(text).value == text[p..e]
    ensures forall p, e :: IsSearchMatch(text, p, e) ==> ExtractJsonBlock(text) == Ok(text[p..e])
  {
    match FirstWhere(text, IsOpen, 0)
    case None =>
      forall p, e | BlockAt(text, p, e)
        ensures false
      {
        assert IsOpen(text[p]);
      }
    case Some(i) =>
      match LastIndex(text, '}')
      case None =>
        forall p, e | BlockAt(text, p, e)
          ensures false
        {
        }
      case Some(j) =>
        if i < j {
          assert BlockAt(text, i, j + 1);
          forall p', e' | 0 <= p' < i && BlockAt(text, p', e')
            ensures false
          {
          }
          assert IsSearchMatch(text, i, j + 1);
          forall p, e | IsSearchMatch(text, p, e)
            ensures p == i && e == j + 1
          {
          }
        } else {
          forall p, e | BlockAt(text, p, e)
            ensures false
          {
          }
        }
  }

  /**
   * The `ValueError` is raised exactly when no `}` follows the first `{`,
   * which includes a text without any `{`.
   */
  lemma ErrorExactly(text: string)
    ensures ExtractJsonBlock(text).Err? <==>
      match FirstWhere(text, IsOpen, 0)
      case None => true
      case Some(i) => forall j :: i < j < |text| ==> text[j] != '}'
  {
  }

  /**
   * On success the block is the slice from the first `{` of the text to the
   * last `}` of the text.
   */
  lemma BlockIsSlice(text: string)
    requires ExtractJsonBlock(text).Ok?
    ensures var r := ExtractJsonBlock(text).value;
      exists i :: && OccursAt(text, r, i)
                  && (forall k :: 0 <= k < i ==> text[k] != '{')
                  && (forall k :: i + |r| <= k < |text| ==> text[k] != '}')
  {
    var i := FirstWhere(text, IsOpen, 0).value;
    var j := LastIndex(text, '}').value;
    var r := ExtractJsonBlock(text).value;
    assert r == text[i..j + 1];
    assert OccursAt(text, r, i);
    forall k | 0 <= k < i
      ensures text[k] != '{'
    {
      assert !IsOpen(text[k]);
    }
  }

  /** The block is a substring of the input, so never longer. */
  lemma BlockIsSubstring(text: string)
    requires ExtractJsonBlock(text).Ok?
    ensures var r := ExtractJsonBlock(text).value;
      |r| <= |text| && exists i :: OccursAt(text, r, i)
  {
    BlockIsSlice(text);
  }

  /** Extracting again from an extracted block gives the block back. */
  lemma ExtractIdempotent(text: string)
    requires ExtractJsonBlock(text).Ok?
    ensures ExtractJsonBlock(ExtractJsonBlock(text).value) == ExtractJsonBlock(text)
  {
    var r := ExtractJsonBlock(text).value;
    assert IsOpen(r[0]);
    assert FirstWhere(r, IsOpen, 0) == Some(0);
    assert LastIndex(r, '}') == Some(|r| - 1);
    assert r[0..|r|] == r;
  }
}
