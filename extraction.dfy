/**
 * The selection rules of `extract_article_fields`. Parsing the HTML is
 * library work: a page arrives as its elements in document order, each with
 * its tag name, its text as `get_text(" ", strip=True)` renders it, and its
 * `datetime` attribute when it has one.
 */
module Extraction {
  import opened Wrappers
  import opened Text

  datatype Element = Element(tag: string, text: string, datetime: Option<string>)

  /** The record `extract_article_fields` returns. */
  datatype ArticleFields = ArticleFields(url: string, title: string, publishedRaw: string, firstParagraph: string)

  /** A paragraph is picked only when it is longer than this. */
  const MinParagraphLength := 60

  /** `soup.find(tag)`: the position of the first element with that tag. */
  function FindFirst(page: seq<Element>, tag: string): (r: Option<nat>)
    ensures r.Some? ==> r.value < |page| && page[r.value].tag == tag
    ensures forall j :: 0 <= j < |page| && (r.None? || j < r.value) ==> page[j].tag != tag
  {
    if page == [] then None
    else if page[0].tag == tag then Some(0)
    else match FindFirst(page[1..], tag)
      case None => None
      case Some(k) => Some(k + 1)
  }

  /** `soup.find_all(tag)`, each element given by its text. */
  function TextsOf(page: seq<Element>, tag: string): (r: seq<string>)
    ensures forall t :: t in r <==> exists j :: 0 <= j < |page| && page[j].tag == tag && page[j].text == t
  {
    if page == [] then []
    else
      var rest := TextsOf(page[1..], tag);
      assert forall j :: 0 <= j < |page| - 1 ==> page[1..][j] == page[j + 1];
      if page[0].tag == tag then [page[0].text] + rest else rest
  }

  /** The title: the text of the first `h1`, or empty. */
  function Title(page: seq<Element>): string {
    match FindFirst(page, "h1")
    case None => ""
    case Some(k) => page[k].text
  }

  /**
   * The raw publication time: the first `time` element's `datetime`
   * attribute, its text when the attribute is missing or empty, stripped.
   */
  function PublishedRaw(page: seq<Element>): string {
    match FindFirst(page, "time")
    case None => ""
    case Some(k) =>
      var t := page[k];
      Strip(if t.datetime.Some? && t.datetime.value != "" then t.datetime.value else t.text)
  }

  /** The first text longer than `MinParagraphLength`, or empty. */
  function FirstLong(texts: seq<string>): string {
    if texts == [] then ""
    else if |texts[0]| > MinParagraphLength then texts[0]
    else FirstLong(texts[1..])
  }

  /**
   * The picked paragraph is empty exactly when no text is long enough, and
   * otherwise is the first long one.
   */
  lemma {:induction false} FirstLongRule(texts: seq<string>)
    ensures FirstLong(texts) == "" <==> forall j :: 0 <= j < |texts| ==> |texts[j]| <= MinParagraphLength
    ensures FirstLong(texts) != "" ==> exists k :: (0 <= k < |texts| && texts[k] == FirstLong(texts)
      && |texts[k]| > MinParagraphLength && forall j :: 0 <= j < k ==> |texts[j]| <= MinParagraphLength)
  {
    if texts != [] && |texts[0]| <= MinParagraphLength {
      var rest := texts[1..];
      FirstLongRule(rest);
      assert forall j :: 0 <= j < |rest| ==> rest[j] == texts[j + 1];
      if FirstLong(rest) != "" {
        var k :| 0 <= k < |rest| && rest[k] == FirstLong(rest) && |rest[k]| > MinParagraphLength
          && forall j :: 0 <= j < k ==> |rest[j]| <= MinParagraphLength;
        assert texts[k + 1] == FirstLong(texts);
      } else {
        forall j | 0 <= j < |texts|
          ensures |texts[j]| <= MinParagraphLength
        {
          if j > 0 {
            assert texts[j] == rest[j - 1];
          }
        }
      }
    }
  }

  /** The fields the selection rules pick from a page. */
  function Extracted(page: seq<Element>, url: string): ArticleFields {
    ArticleFields(url, Title(page), PublishedRaw(page), FirstLong(TextsOf(page, "p")))
  }

  /**
   * `extract_article_fields`: the title and raw time by their rules, then
   * the paragraphs scanned in order until one is long enough.
   */
  method ExtractArticleFields(page: seq<Element>, url: string) returns (fields: ArticleFields)
    ensures fields == Extracted(page, url)
  {
    var title := Title(page);
    var publishedRaw := PublishedRaw(page);
    var firstPara := "";
    var paragraphs := TextsOf(page, "p");
    var i := 0;
    while i < |paragraphs|
      invariant 0 <= i <= |paragraphs|
      invariant firstPara == ""
      invariant FirstLong(paragraphs[i..]) == FirstLong(paragraphs)
    {
      assert paragraphs[i..][1..] == paragraphs[i + 1..];
      var txt := paragraphs[i];
      if txt != "" && |txt| > MinParagraphLength {
        firstPara := txt;
        break;
      }
      i := i + 1;
    }
    fields := ArticleFields(url, title, publishedRaw, firstPara);
  }

  // ---------------------------------------------------------------------
  // Properties of the rules
  // ---------------------------------------------------------------------

  /** The title is the first `h1`'s text, and empty when the page has none. */
  lemma TitleRule(page: seq<Element>)
    ensures (forall j :: 0 <= j < |page| ==> page[j].tag != "h1") ==> Title(page) == ""
    ensures forall k :: (0 <= k < |page| && page[k].tag == "h1" && (forall j :: 0 <= j < k ==> page[j].tag != "h1")
      ==> Title(page) == page[k].text)
  {
  }

  /**
   * The raw time is always stripped; it is empty without a `time` element,
   * comes from a non-empty `datetime` attribute when there is one, and from
   * the element's text otherwise.
   */
  lemma PublishedRawRule(page: seq<Element>, k: nat)
    requires k < |page| && page[k].tag == "time" && forall j :: 0 <= j < k ==> page[j].tag != "time"
    ensures IsStripped(PublishedRaw(page))
    ensures page[k].datetime.Some? && page[k].datetime.value != "" ==> PublishedRaw(page) == Strip(page[k].datetime.value)
    ensures page[k].datetime.None? || page[k].datetime.value == "" ==> PublishedRaw(page) == Strip(page[k].text)
  {
  }

  /** Without a `time` element the raw time is empty. */
  lemma NoTimeElement(page: seq<Element>)
    requires forall j :: 0 <= j < |page| ==> page[j].tag != "time"
    ensures PublishedRaw(page) == ""
  {
  }

  /** `p` is a paragraph long enough to be picked. */
  predicate LongParagraph(e: Element) {
    e.tag == "p" && |e.text| > MinParagraphLength
  }

  /**
   * The first paragraph in page order whose text is longer than 60
   * characters is the one picked, and nothing is picked when no paragraph
   * is that long.
   */
  lemma {:induction false} FirstParagraphRule(page: seq<Element>)
    ensures (forall j :: 0 <= j < |page| ==> !LongParagraph(page[j])) ==> FirstLong(TextsOf(page, "p")) == ""
    ensures forall k :: (0 <= k < |page| && LongParagraph(page[k]) && (forall j :: 0 <= j < k ==> !LongParagraph(page[j]))
      ==> FirstLong(TextsOf(page, "p")) == page[k].text)
  {
    if page != [] {
      var rest := page[1..];
      FirstParagraphRule(rest);
      ParagraphStep(page);
      if forall j :: 0 <= j < |page| ==> !LongParagraph(page[j]) {
        forall j | 0 <= j < |rest|
          ensures !LongParagraph(rest[j])
        {
          assert rest[j] == page[j + 1];
        }
      }
      forall k | 0 < k < |page| && LongParagraph(page[k]) && (forall j :: 0 <= j < k ==> !LongParagraph(page[j]))
        ensures FirstLong(TextsOf(page, "p")) == page[k].text
      {
        assert !LongParagraph(page[0]);
        assert rest[k - 1] == page[k];
        forall j | 0 <= j < k - 1
          ensures !LongParagraph(rest[j])
        {
          assert rest[j] == page[j + 1];
        }
      }
    }
  }

  /** The paragraph picked from a page: its first element when that is a long paragraph, else the one picked from the rest. */
  lemma ParagraphStep(page: seq<Element>)
    requires page != []
    ensures FirstLong(TextsOf(page, "p"))
      == if LongParagraph(page[0]) then page[0].text else FirstLong(TextsOf(page[1..], "p"))
  {
    var rest := TextsOf(page[1..], "p");
    if page[0].tag == "p" {
      var texts := [page[0].text] + rest;
      assert TextsOf(page, "p") == texts;
      assert texts[0] == page[0].text && texts[1..] == rest;
    }
  }

  /** The first paragraph an extracted page gets, by the page's elements in order. */
  lemma ExtractedParagraph(page: seq<Element>, url: string)
    ensures (forall j :: 0 <= j < |page| ==> !LongParagraph(page[j])) ==> Extracted(page, url).firstParagraph == ""
    ensures forall k :: (0 <= k < |page| && LongParagraph(page[k]) && (forall j :: 0 <= j < k ==> !LongParagraph(page[j]))
      ==> Extracted(page, url).firstParagraph == page[k].text)
  {
    FirstParagraphRule(page);
  }

  /** A lower-case needle survives lower-casing the text around it. */
  lemma LowerKeepsNeedle(before: string, needle: string, after: string)
    requires forall i :: 0 <= i < |needle| ==> LowerKeeps(needle[i])
    ensures Contains(Lower(before + needle + after), needle)
  {
    LowerConcat(before + needle, after);
    LowerConcat(before, needle);
    LowerOfKept(needle);
    ContainsMiddle(Lower(before), needle, Lower(after));
  }

  /** The fields of a page made of one `h1`, one `time` and one paragraph. */
  lemma ThreeElementPage(title: string, stamp: string, para: string)
    requires IsStripped(stamp) && stamp != "" && |para| > MinParagraphLength
    ensures var page := [Element("h1", title, None), Element("time", "", Some(stamp)), Element("p", para, None)];
      && Title(page) == title && PublishedRaw(page) == stamp && FirstLong(TextsOf(page, "p")) == para
  {
    var page := [Element("h1", title, None), Element("time", "", Some(stamp)), Element("p", para, None)];
    assert FindFirst(page, "time") == Some(1);
    StripStripped(stamp);
    assert page[2..] == [page[2]] && page[2..][1..] == [];
    assert TextsOf(page[2..], "p") == [para];
    assert page[1..][1..] == page[2..];
  }

  /**
   * The page of the extraction test: a title, a `time` element whose
   * `datetime` attribute is an ISO instant, and one long paragraph.
   */
  lemma ExtractionTestScenario(title: string, stamp: string, before: string, needle: string, after: string)
    requires title == "Test Title" && stamp == "2026-02-25T04:32:30Z" && needle == "long paragraph"
    requires before == "This is a " && after == " that should be picked as the first paragraph because it is definitely longer than sixty characters."
    ensures var page := [Element("h1", title, None), Element("time", "", Some(stamp)), Element("p", before + needle + after, None)];
      && Title(page) == "Test Title"
      && PublishedRaw(page) == "2026-02-25T04:32:30Z"
      && Contains(Lower(FirstLong(TextsOf(page, "p"))), needle)
  {
    ScenarioInputs(stamp, before, needle, after);
    ThreeElementPage(title, stamp, before + needle + after);
    LowerKeepsNeedle(before, needle, after);
  }

  /** The test's time is stripped, its paragraph long enough and its needle already lower-case. */
  lemma ScenarioInputs(stamp: string, before: string, needle: string, after: string)
    requires stamp == "2026-02-25T04:32:30Z" && needle == "long paragraph"
    requires before == "This is a " && after == " that should be picked as the first paragraph because it is definitely longer than sixty characters."
    ensures IsStripped(stamp) && |before + needle + after| > MinParagraphLength
    ensures forall i :: 0 <= i < |needle| ==> LowerKeeps(needle[i])
  {
  }
}
