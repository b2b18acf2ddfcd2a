/** The selection rules of the arXiv pipeline (arxiv/arxivnews.py): version-suffix stripping of
    arXiv ids, the "already seen" test, the category filter, top-N ranking by Mendeley reader
    count, the composed filter, and the query string for last week's submissions. Papers and
    user records are plain values; the arXiv search, the reader-count lookup and the database
    are not part of this model. */
module ArxivNews {
  import opened Py
  import opened PyStr
  import Seqs
  import Ranking
  import Calendar

  /** One paper record: `{'paper_id', 'category', 'title'}` plus the `reader_count` key that the
      reader-count lookup adds (absent when it was never added). */
  datatype Paper = Paper(paperId: string, category: string, title: string, readerCount: Option<int>)

  /** The inner `user_data['categories']` record; its own `'categories'` key may be missing. */
  datatype UserCategories = UserCategories(categories: Option<seq<string>>)

  /** A user record: `'papers'` (missing and `None` read alike through `.get`) and
      `'categories'`, which may be missing. */
  datatype UserData = UserData(papers: Option<seq<string>>, categories: Option<UserCategories>)

  // ---------------------------------------------------------------------------------------
  // Version suffixes

  /** `strip_version`: the part of an id before its first `'v'`, the id itself when it has
      none. */
  function StripVersion(paperId: string): (r: string)
    ensures 'v' !in r
    ensures |r| <= |paperId| && r == paperId[..|r|]
    ensures 'v' in paperId ==> |r| < |paperId| && paperId[|r|] == 'v'
    ensures 'v' !in paperId ==> r == paperId
  {
    SplitHead(paperId, 'v');
    if 'v' in paperId then Split(paperId, 'v')[0] else paperId
  }

  /** Stripping twice is stripping once. */
  lemma StripVersionIdempotent(paperId: string)
    ensures StripVersion(StripVersion(paperId)) == StripVersion(paperId)
  {
  }

  /** Whatever follows the first `'v'` is dropped: `<base>v<anything>` strips to `<base>`. */
  lemma StripVersionAppend(base: string, suffix: string)
    requires 'v' !in base
    ensures StripVersion(base + ['v'] + suffix) == base
  {
    var s := base + ['v'] + suffix;
    assert s[|base|] == 'v';
    assert s[..|base|] == base;
  }

  /** `extract_paper_info`: the record built for one search result, its id stripped. */
  function ExtractPaperInfo(shortId: string, primaryCategory: string, title: string): (p: Paper)
    ensures 'v' !in p.paperId && p.paperId == StripVersion(shortId)
    ensures p.category == primaryCategory && p.title == title && p.readerCount.None?
  {
    Paper(StripVersion(shortId), primaryCategory, title, None)
  }

  // ---------------------------------------------------------------------------------------
  // Newness and categories

  /** `any(stripped == strip_version(up) for up in userPapers)` */
  function AnySameVersion(stripped: string, userPapers: seq<string>): (r: bool)
    ensures r <==> exists i :: 0 <= i < |userPapers| && StripVersion(userPapers[i]) == stripped
  {
    if userPapers == [] then false
    else stripped == StripVersion(userPapers[0]) || AnySameVersion(stripped, userPapers[1..])
  }

  /** `is_new_paper`: new when there is no record of seen papers, otherwise new exactly when
      no recorded id has the same version-stripped form. */
  function IsNewPaper(paperId: string, userPapers: Option<seq<string>>): (r: bool)
    ensures userPapers.None? ==> r
    ensures userPapers.Some? ==>
      (r <==> forall i :: 0 <= i < |userPapers.value| ==>
                StripVersion(userPapers.value[i]) != StripVersion(paperId))
  {
    match userPapers
    case None => true
    case Some(ups) => !AnySameVersion(StripVersion(paperId), ups)
  }

  /** A later version of a recorded paper is not new. */
  lemma LaterVersionNotNew(base: string, recorded: string, incoming: string, userPapers: seq<string>)
    requires 'v' !in base
    requires base + "v" + recorded in userPapers
    ensures !IsNewPaper(base + "v" + incoming, Some(userPapers))
  {
    StripVersionAppend(base, recorded);
    StripVersionAppend(base, incoming);
    var i :| 0 <= i < |userPapers| && userPapers[i] == base + "v" + recorded;
  }

  /** `filter_by_newness`: the papers that `is_new_paper` accepts, in input order. Without a
      user record (`None`), `user_data.get` raises AttributeError. */
  function FilterByNewness(papers: seq<Paper>, userData: Option<UserData>): (r: Result<seq<Paper>>)
    ensures r.Err? <==> userData.None?
    ensures r.Err? ==> r.error == AttributeError
    ensures r.Ok? ==> Seqs.IsSubsequence(r.value, papers)
    ensures r.Ok? ==> forall i :: 0 <= i < |r.value| ==> IsNewPaper(r.value[i].paperId, userData.value.papers)
    ensures r.Ok? ==> forall p :: multiset(r.value)[p] ==
                                  (if IsNewPaper(p.paperId, userData.value.papers)
                                   then multiset(papers)[p] else 0)
    ensures r.Ok? && userData.value.papers.None? ==> r.value == papers
  {
    match userData
    case None => Err(AttributeError)
    case Some(ud) =>
      var keep := (p: Paper) => IsNewPaper(p.paperId, ud.papers);
      Seqs.FilterMultiset(papers, keep);
      Seqs.FilterSubsequence(papers, keep);
      if ud.papers.None? then
        Seqs.FilterAll(papers, keep);
        Ok(Seqs.Filter(papers, keep))
      else
        Ok(Seqs.Filter(papers, keep))
  }

  /** `is_in_user_categories`: membership in `user_categories['categories']`, a KeyError when
      that key is missing. */
  function IsInUserCategories(paper: Paper, userCategories: UserCategories): (r: Result<bool>)
    ensures r.Err? <==> userCategories.categories.None?
    ensures r.Ok? ==> (r.value <==> paper.category in userCategories.categories.value)
  {
    match userCategories.categories
    case None => Err(KeyError("categories"))
    case Some(cs) => Ok(paper.category in cs)
  }

  /** `filter_by_categories`: the papers whose category the user chose, in input order. The
      comprehension looks the key up once per paper, so a missing key only raises when there is
      a paper to test. */
  function FilterByCategories(papers: seq<Paper>, userCategories: UserCategories): (r: Result<seq<Paper>>)
    ensures r.Err? <==> papers != [] && userCategories.categories.None?
    ensures r.Err? ==> r.error == KeyError("categories")
    ensures r.Ok? ==> Seqs.IsSubsequence(r.value, papers)
    ensures r.Ok? ==> forall i :: 0 <= i < |r.value| ==>
      r.value[i].category in userCategories.categories.value
    ensures r.Ok? && papers != [] ==>
      (forall p :: multiset(r.value)[p] ==
                     (if p.category in userCategories.categories.value then multiset(papers)[p] else 0))
  {
    if papers == [] then Ok([])
    else
      match userCategories.categories
      case None => Err(KeyError("categories"))
      case Some(cs) =>
        Seqs.FilterMultiset(papers, (p: Paper) => p.category in cs);
        Seqs.FilterSubsequence(papers, (p: Paper) => p.category in cs);
        Ok(Seqs.Filter(papers, (p: Paper) => p.category in cs))
  }

  // ---------------------------------------------------------------------------------------
  // Ranking

  /** `x.get('reader_count', 0)` */
  function ReaderCount(p: Paper): int {
    p.readerCount.GetOr(0)
  }

  /** `get_top_papers_by_reader_count` */
  function GetTopPapersByReaderCount(papers: seq<Paper>, topN: int): seq<Paper> {
    Ranking.TopN(papers, ReaderCount, topN)
  }

  /** The top papers are `min(topN, |papers|)` papers drawn from the input, most read first (a
      missing count is 0); every paper left out is read no more than every paper kept; equally
      read papers are taken in input order. */
  lemma TopPapersSpec(papers: seq<Paper>, topN: int)
    ensures var r := GetTopPapersByReaderCount(papers, topN);
      && (topN >= 0 ==> |r| == Ranking.Min(topN, |papers|))
      && multiset(r) <= multiset(papers)
      && (forall i, j :: 0 <= i < j < |r| ==> ReaderCount(r[j]) <= ReaderCount(r[i]))
      && (forall i, p :: 0 <= i < |r| && p in multiset(papers) - multiset(r) ==>
            ReaderCount(p) <= ReaderCount(r[i]))
      && (forall k :: Ranking.IsPrefix(Ranking.WithKey(r, ReaderCount, k),
                                       Ranking.WithKey(papers, ReaderCount, k)))
  {
    Ranking.TopNSpec(papers, ReaderCount, topN);
    Ranking.TopNLeftOut(papers, ReaderCount, topN);
  }

  /** `get_top_three_papers_by_reader_count` repeats the sort with the bound fixed at 3: it
      agrees with `get_top_papers_by_reader_count` at its default `top_n`. */
  function GetTopThreePapersByReaderCount(papers: seq<Paper>): (r: seq<Paper>)
    ensures r == GetTopPapersByReaderCount(papers, 3)
    ensures |r| == Ranking.Min(3, |papers|)
  {
    Ranking.TopN(papers, ReaderCount, 3)
  }

  /** `filter_arxiv_papers`: new papers, then the user's categories (read from
      `user_data['categories']`), then the three most read. */
  function FilterArxivPapers(userData: Option<UserData>, papers: seq<Paper>): Result<seq<Paper>> {
    match FilterByNewness(papers, userData)
    case Err(e) => Err(e)
    case Ok(newPapers) =>
      match userData.value.categories
      case None => Err(KeyError("categories"))
      case Some(uc) =>
        match FilterByCategories(newPapers, uc)
        case Err(e) => Err(e)
        case Ok(selected) => Ok(GetTopPapersByReaderCount(selected, 3))
  }

  /** Without a user record the newness test raises AttributeError; a missing `'categories'` key
      at either level raises KeyError (the inner one only when some new paper is left to test).
      Otherwise at most three papers come back, each one of the input papers, new to the user
      and in one of the user's categories. */
  lemma FilterArxivPapersSpec(userData: Option<UserData>, papers: seq<Paper>)
    ensures var r := FilterArxivPapers(userData, papers);
      && (userData.None? ==> r == Err(AttributeError))
      && (userData.Some? ==>
            var ud := userData.value;
            && (ud.categories.None? ==> r == Err(KeyError("categories")))
            && (ud.categories.Some? ==>
                  (r.Err? <==> (FilterByNewness(papers, userData).value != []
                                && ud.categories.value.categories.None?)))
            && (r.Err? ==> r.error == KeyError("categories"))
            && (r.Ok? ==> |r.value| <= 3)
            && (r.Ok? ==> forall i :: 0 <= i < |r.value| ==>
                  (r.value[i] in papers
                   && IsNewPaper(r.value[i].paperId, ud.papers)
                   && r.value[i].category in ud.categories.value.categories.value)))
  {
    if userData.Some? {
      var ud := userData.value;
      var newPapers := FilterByNewness(papers, userData).value;
      if ud.categories.Some? && FilterByCategories(newPapers, ud.categories.value).Ok? {
        var uc := ud.categories.value;
        var selected := FilterByCategories(newPapers, uc).value;
        var top := GetTopPapersByReaderCount(selected, 3);
        TopPapersSpec(selected, 3);
        forall i | 0 <= i < |top|
          ensures top[i] in papers && IsNewPaper(top[i].paperId, ud.papers)
            && top[i].category in uc.categories.value
        {
          assert top[i] in multiset(top);
          assert top[i] in selected;
          Seqs.FilterMembers(newPapers, (p: Paper) => p.category in uc.categories.value, top[i]);
          Seqs.FilterMembers(papers, (p: Paper) => IsNewPaper(p.paperId, ud.papers), top[i]);
        }
      }
    }
  }

  // ---------------------------------------------------------------------------------------
  // The query

  /** `get_date_range`: yesterday, and the day seven days before it. Leaving the range of
      `date` raises OverflowError. */
  function GetDateRange(today: Calendar.Day): (r: Result<(Calendar.Day, Calendar.Day)>)
    ensures r.Err? <==> today <= 8
    ensures r.Err? ==> r.error == OverflowError
    ensures r.Ok? ==> r.value.1 == today - 1 && r.value.0 == r.value.1 - 7
  {
    if today - 8 >= 1 then Ok((today - 8, today - 1)) else Err(OverflowError)
  }

  const QueryPrefix: string := "cat:cs.AI AND submittedDate:["

  /** `create_arxiv_query` */
  function CreateArxivQuery(start: Calendar.Day, end: Calendar.Day): string {
    QueryPrefix + Calendar.FormatYmd(Calendar.FromOrdinal(start)) + "2359 TO "
      + Calendar.FormatYmd(Calendar.FromOrdinal(end)) + "2359]"
  }

  /** The query is the fixed category clause followed by the date range
      `[<start YYYYMMDD>2359 TO <end YYYYMMDD>2359]`; the two eight-digit fields read back as
      the start and end dates. */
  lemma QueryLayout(start: Calendar.Day, end: Calendar.Day)
    ensures var q := CreateArxivQuery(start, end);
      && |q| == 58
      && q[..29] == QueryPrefix
      && q[29..37] == Calendar.FormatYmd(Calendar.FromOrdinal(start))
      && Calendar.ParseYmd(q[29..37]) == Calendar.FromOrdinal(start)
      && q[37..45] == "2359 TO "
      && q[45..53] == Calendar.FormatYmd(Calendar.FromOrdinal(end))
      && Calendar.ParseYmd(q[45..53]) == Calendar.FromOrdinal(end)
      && q[53..] == "2359]"
  {
    var s := Calendar.FormatYmd(Calendar.FromOrdinal(start));
    var e := Calendar.FormatYmd(Calendar.FromOrdinal(end));
    QueryText(s, e);
    Calendar.FormatYmdParses(Calendar.FromOrdinal(start));
    Calendar.FormatYmdParses(Calendar.FromOrdinal(end));
  }

  /** Where the pieces of the query sit, for any two eight-character date fields. */
  lemma QueryText(s: string, e: string)
    requires |s| == 8 && |e| == 8
    ensures var q := QueryPrefix + s + "2359 TO " + e + "2359]";
      && |q| == 58 && q[..29] == QueryPrefix && q[29..37] == s
      && q[37..45] == "2359 TO " && q[45..53] == e && q[53..] == "2359]"
  {
    var a := QueryPrefix + s;
    var b := a + "2359 TO ";
    var c := b + e;
    var q := c + "2359]";
    assert |QueryPrefix| == 29 && |a| == 37 && |b| == 45 && |c| == 53;
    assert q[..53] == c && q[53..] == "2359]";
    assert c[..45] == b && c[45..] == e;
    assert b[..37] == a && b[37..] == "2359 TO ";
    assert a[..29] == QueryPrefix && a[29..] == s;
  }

  /** Different date ranges give different queries. */
  lemma QueryInjective(s1: Calendar.Day, e1: Calendar.Day, s2: Calendar.Day, e2: Calendar.Day)
    requires CreateArxivQuery(s1, e1) == CreateArxivQuery(s2, e2)
    ensures s1 == s2 && e1 == e2
  {
    QueryLayout(s1, e1);
    QueryLayout(s2, e2);
    Calendar.ToOrdinalInjective(Calendar.FromOrdinal(s1), Calendar.FromOrdinal(s2));
    Calendar.ToOrdinalInjective(Calendar.FromOrdinal(e1), Calendar.FromOrdinal(e2));
  }
}
