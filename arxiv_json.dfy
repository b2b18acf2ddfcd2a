/** The deterministic parts of the newsletter generator (arxiv/generate_arxivnews_json.py): the
    arXiv and S3 addresses it builds, the token budget applied to a paper's pages, and the
    per-paper keep-or-skip loop. The tokenizer enters as token sequences, one per page; the
    arXiv lookup, the language model, the PDF rendering and the upload enter as per-paper
    inputs. */
module ArxivJson {
  import opened Py
  import Seqs
  import Ranking

  // ---------------------------------------------------------------------------------------
  // Addresses

  const AbsPrefix: string := "https://arxiv.org/abs/"
  const PdfPrefix: string := "https://arxiv.org/pdf/"
  const PdfSuffix: string := ".pdf"

  /** `make_url` */
  function MakeUrl(paperId: string): string {
    AbsPrefix + paperId
  }

  /** The `pdf_url` of `download_pdf_content`. */
  function PdfUrl(arxivId: string): string {
    PdfPrefix + arxivId + PdfSuffix
  }

  /** The id an abstract page address names, if it is one. */
  function AbsUrlId(url: string): Option<string> {
    if |url| >= |AbsPrefix| && url[..|AbsPrefix|] == AbsPrefix then Some(url[|AbsPrefix|..])
    else None
  }

  /** The id a PDF address names, if it is one. */
  function PdfUrlId(url: string): Option<string> {
    if |url| >= |PdfPrefix| + |PdfSuffix| && url[..|PdfPrefix|] == PdfPrefix
       && url[|url| - |PdfSuffix|..] == PdfSuffix
    then Some(url[|PdfPrefix|..|url| - |PdfSuffix|])
    else None
  }

  /** The abstract page address gives back the id it was built from. */
  lemma MakeUrlRoundTrip(paperId: string)
    ensures AbsUrlId(MakeUrl(paperId)) == Some(paperId)
  {
    assert MakeUrl(paperId)[..|AbsPrefix|] == AbsPrefix;
    assert MakeUrl(paperId)[|AbsPrefix|..] == paperId;
  }

  /** The PDF address gives back the id it was built from. */
  lemma PdfUrlRoundTrip(arxivId: string)
    ensures PdfUrlId(PdfUrl(arxivId)) == Some(arxivId)
  {
    var u := PdfUrl(arxivId);
    assert u[..|PdfPrefix|] == PdfPrefix;
    assert u[|u| - |PdfSuffix|..] == PdfSuffix;
    assert u[|PdfPrefix|..|u| - |PdfSuffix|] == arxivId;
  }

  /** Different papers get different addresses, and no abstract page address is a PDF
      address. */
  lemma UrlsDistinct(a: string, b: string)
    ensures MakeUrl(a) == MakeUrl(b) <==> a == b
    ensures PdfUrl(a) == PdfUrl(b) <==> a == b
    ensures MakeUrl(a) != PdfUrl(b)
  {
    MakeUrlRoundTrip(a);
    MakeUrlRoundTrip(b);
    PdfUrlRoundTrip(a);
    PdfUrlRoundTrip(b);
    assert MakeUrl(a)[18] == 'a' && PdfUrl(b)[18] == 'p';
  }

  const Bucket: string := "arxivgptnewsletter"

  /** `output_image_path` */
  function OutputImagePath(uniqueId: string): string {
    "output_" + uniqueId + ".png"
  }

  /** The address `upload_image_to_s3` reports for a successful upload. */
  function S3Url(bucket: string, objectName: string): string {
    "https://" + bucket + ".s3.amazonaws.com/" + objectName
  }

  /** The `image_url` recorded for every kept paper, whether or not the upload went through. */
  function ImageUrl(uniqueId: string): string {
    "https://arxivgptnewsletter.s3.amazonaws.com/" + OutputImagePath(uniqueId)
  }

  /** The recorded `image_url` is the address a successful upload of the image would
      report. */
  lemma ImageUrlIsUploadUrl(uniqueId: string)
    ensures ImageUrl(uniqueId) == S3Url(Bucket, OutputImagePath(uniqueId))
  {
    assert "https://" + Bucket + ".s3.amazonaws.com/" == "https://arxivgptnewsletter.s3.amazonaws.com/";
  }

  /** Different image ids give different image addresses. */
  lemma ImageUrlInjective(a: string, b: string)
    requires ImageUrl(a) == ImageUrl(b)
    ensures a == b
  {
    var p := "https://arxivgptnewsletter.s3.amazonaws.com/output_";
    assert ImageUrl(a) == p + a + ".png";
    assert ImageUrl(b) == p + b + ".png";
    Unwrap(p, a, b, ".png");
  }

  /** The middle of `pre + u + suf` is determined. */
  lemma Unwrap(pre: string, u: string, v: string, suf: string)
    requires pre + u + suf == pre + v + suf
    ensures u == v
  {
    assert |u| == |v|;
    assert u == (pre + u + suf)[|pre|..|pre| + |u|];
    assert v == (pre + v + suf)[|pre|..|pre| + |v|];
  }

  // ---------------------------------------------------------------------------------------
  // The token budget

  /** All pages' tokens, in page order. */
  function Concat(pages: seq<seq<int>>): seq<int> {
    if pages == [] then [] else pages[0] + Concat(pages[1..])
  }

  /** The tokens the loop holds at its end when it holds `acc` before the pages `pages`: each
      page is added whole while the total stays within `limit`; the first page that would pass
      it is cut to `new_tokens[:limit - len(tokens)]` and ends the loop. */
  function TakeTokens(acc: seq<int>, pages: seq<seq<int>>, limit: int): seq<int>
    decreases |pages|
  {
    if pages == [] then acc
    else if |acc| + |pages[0]| > limit then acc + Ranking.Prefix(pages[0], limit - |acc|)
    else TakeTokens(acc + pages[0], pages[1..], limit)
  }

  /** The token list `download_and_extract_paper_info` decodes. */
  function Truncate(pages: seq<seq<int>>, limit: int): seq<int> {
    TakeTokens([], pages, limit)
  }

  /** Lines 158-169 of `download_and_extract_paper_info`: extend the token list page by page
      and cut the first page that would pass the budget. */
  method CollectTokens(pages: seq<seq<int>>, tokenLimit: int) returns (tokens: seq<int>)
    ensures tokens == Truncate(pages, tokenLimit)
  {
    tokens := [];
    var i := 0;
    while i < |pages|
      invariant 0 <= i <= |pages|
      invariant TakeTokens(tokens, pages[i..], tokenLimit) == Truncate(pages, tokenLimit)
    {
      var newTokens := pages[i];
      assert pages[i..][0] == newTokens && pages[i..][1..] == pages[i + 1..];
      if |tokens| + |newTokens| > tokenLimit {
        var remaining := tokenLimit - |tokens|;
        tokens := tokens + Ranking.Prefix(newTokens, remaining);
        break;
      }
      tokens := tokens + newTokens;
      i := i + 1;
    }
  }

  lemma {:induction false} ConcatAppend(a: seq<seq<int>>, b: seq<seq<int>>)
    ensures Concat(a + b) == Concat(a) + Concat(b)
  {
    if a == [] {
      assert a + b == b;
    } else {
      ConcatAppend(a[1..], b);
      assert (a + b)[0] == a[0] && (a + b)[1..] == a[1..] + b;
      assert Concat(a + b) == a[0] + (Concat(a[1..]) + Concat(b));
      Seqs.AppendAssoc(a[0], Concat(a[1..]), Concat(b));
    }
  }

  lemma {:induction false} TakeTokensPrefix(acc: seq<int>, pages: seq<seq<int>>, limit: int)
    requires |acc| <= limit
    ensures var all := acc + Concat(pages);
      TakeTokens(acc, pages, limit) == all[..Ranking.Min(limit, |all|)]
    decreases |pages|
  {
    var all := acc + Concat(pages);
    if pages == [] {
      assert all == acc;
    } else {
      assert all == acc + pages[0] + Concat(pages[1..]);
      if |acc| + |pages[0]| > limit {
        assert all[..limit] == acc + pages[0][..limit - |acc|];
      } else {
        TakeTokensPrefix(acc + pages[0], pages[1..], limit);
      }
    }
  }

  /** With a budget of at least zero, the kept tokens are exactly the first `token_limit`
      tokens of all pages together, or all of them when there are fewer: never more than the
      budget, always a prefix of the pages in page order, every page whole when the total fits
      (a page that reaches the budget exactly is kept whole, since the test is a strict `>`),
      and exactly `token_limit` tokens when it does not. */
  lemma TruncateSpec(pages: seq<seq<int>>, limit: int)
    requires limit >= 0
    ensures var r := Truncate(pages, limit); var all := Concat(pages);
      && |r| <= limit
      && Ranking.IsPrefix(r, all)
      && (|all| <= limit ==> r == all)
      && (|all| > limit ==> |r| == limit)
  {
    TakeTokensPrefix([], pages, limit);
    assert [] + Concat(pages) == Concat(pages);
  }

  /** A negative budget is passed on to the slice of the first page, which then drops that
      many tokens from its end; no later page is read. */
  lemma TruncateNegative(pages: seq<seq<int>>, limit: int)
    requires limit < 0
    ensures Truncate(pages, limit) == if pages == [] then [] else Ranking.Prefix(pages[0], limit)
    ensures Ranking.IsPrefix(Truncate(pages, limit), Concat(pages))
  {
    if pages != [] {
      assert Concat(pages) == pages[0] + Concat(pages[1..]);
    }
  }

  /** Once the pages read so far pass the budget, no later page is consulted. */
  lemma {:induction false} TakeTokensStops(acc: seq<int>, pages: seq<seq<int>>, later: seq<seq<int>>, limit: int)
    requires |acc| <= limit < |acc| + |Concat(pages)|
    ensures TakeTokens(acc, pages + later, limit) == TakeTokens(acc, pages, limit)
    decreases |pages|
  {
    if pages == [] {
      assert false;
    } else {
      assert (pages + later)[0] == pages[0];
      assert (pages + later)[1..] == pages[1..] + later;
      if |acc| + |pages[0]| <= limit {
        assert Concat(pages) == pages[0] + Concat(pages[1..]);
        TakeTokensStops(acc + pages[0], pages[1..], later, limit);
      }
    }
  }

  lemma TruncateIgnoresLaterPages(pages: seq<seq<int>>, later: seq<seq<int>>, limit: int)
    requires 0 <= limit < |Concat(pages)|
    ensures Truncate(pages + later, limit) == Truncate(pages, limit)
  {
    TakeTokensStops([], pages, later, limit);
  }

  // ---------------------------------------------------------------------------------------
  // The per-paper loop

  /** What `get_paper_info` finds: `(None, None)`, or a title and an abstract. */
  datatype PaperLookup = NotFound | Found(title: string, abstractText: string)

  /** One entry of `paper_info_list` together with what the outside world answers for it: the
      arXiv lookup, the fresh `uuid4` and the language model's summary. */
  datatype PaperInput = PaperInput(paperId: string, lookup: PaperLookup, uniqueId: string,
                                   summary: string)

  /** One record of `papers_data`. */
  datatype PaperData = PaperData(title: string, paperUrl: string, imageUrl: string, aiSummary: string)

  /** `if abstract:` -- `None` and the empty string are both false. */
  predicate HasAbstract(p: PaperInput) {
    p.lookup.Found? && p.lookup.abstractText != ""
  }

  /** The record built for a paper whose abstract was found. */
  function Record(p: PaperInput): (d: PaperData)
    requires p.lookup.Found?
    ensures d.paperUrl == MakeUrl(p.paperId) && AbsUrlId(d.paperUrl) == Some(p.paperId)
    ensures d.title == p.lookup.title && d.aiSummary == p.summary
    ensures d.imageUrl == S3Url(Bucket, OutputImagePath(p.uniqueId))
  {
    MakeUrlRoundTrip(p.paperId);
    ImageUrlIsUploadUrl(p.uniqueId);
    PaperData(p.lookup.title, MakeUrl(p.paperId), ImageUrl(p.uniqueId), p.summary)
  }

  /** The records of the papers among `inputs` that have an abstract, in input order. */
  function Records(inputs: seq<PaperInput>): seq<PaperData> {
    if inputs == [] then []
    else
      var last := inputs[|inputs| - 1];
      Records(inputs[..|inputs| - 1]) + (if HasAbstract(last) then [Record(last)] else [])
  }

  /** `process_arxiv_papers_to_json`: one pass over the papers, appending a record for every
      paper whose abstract was found and skipping the rest. */
  method ProcessArxivPapersToJson(inputs: seq<PaperInput>) returns (papersData: seq<PaperData>)
    ensures papersData == Records(inputs)
  {
    papersData := [];
    var i := 0;
    while i < |inputs|
      invariant 0 <= i <= |inputs|
      invariant papersData == Records(inputs[..i])
    {
      var paperInfo := inputs[i];
      assert inputs[..i + 1][..i] == inputs[..i];
      if HasAbstract(paperInfo) {
        var paperData := Record(paperInfo);
        papersData := papersData + [paperData];
      }
      i := i + 1;
    }
    assert inputs[..|inputs|] == inputs;
  }

  /** The records are those of the papers with an abstract, one each, in input order: the
      `i`-th record is built from the `i`-th such paper. */
  lemma {:induction false} RecordsSpec(inputs: seq<PaperInput>)
    ensures var kept := Seqs.Filter(inputs, HasAbstract);
      && |Records(inputs)| == |kept|
      && forall i :: 0 <= i < |kept| ==> Records(inputs)[i] == Record(kept[i])
    decreases |inputs|
  {
    if inputs != [] {
      var init := inputs[..|inputs| - 1];
      var last := inputs[|inputs| - 1];
      assert inputs == init + [last];
      RecordsSpec(init);
      Seqs.FilterSnoc(init, last, HasAbstract);
      RecordsStep(init, last, Seqs.Filter(init, HasAbstract));
    }
  }

  lemma RecordsStep(init: seq<PaperInput>, last: PaperInput, keptInit: seq<PaperInput>)
    requires forall i :: 0 <= i < |keptInit| ==> keptInit[i].lookup.Found?
    requires |Records(init)| == |keptInit|
    requires forall i :: 0 <= i < |keptInit| ==> Records(init)[i] == Record(keptInit[i])
    ensures var kept := keptInit + (if HasAbstract(last) then [last] else []);
      && |Records(init + [last])| == |kept|
      && forall i :: 0 <= i < |kept| ==> Records(init + [last])[i] == Record(kept[i])
  {
    var inputs := init + [last];
    assert inputs[..|inputs| - 1] == init;
    assert inputs[|inputs| - 1] == last;
  }

  /** Every record carries the abstract page address of its paper and the S3 address of an
      `output_<uuid>.png` image. */
  lemma RecordsAddresses(inputs: seq<PaperInput>)
    ensures forall d :: d in Records(inputs) ==>
      exists p :: p in inputs && HasAbstract(p) && d == Record(p)
  {
    RecordsSpec(inputs);
    var kept := Seqs.Filter(inputs, HasAbstract);
    forall d | d in Records(inputs)
      ensures exists p :: p in inputs && HasAbstract(p) && d == Record(p)
    {
      var i :| 0 <= i < |Records(inputs)| && Records(inputs)[i] == d;
      Seqs.FilterMembers(inputs, HasAbstract, kept[i]);
    }
  }
}
