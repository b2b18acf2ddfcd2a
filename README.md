# agentic_news_os: the selection and summarising logic, in Dafny

agentic_news_os builds a daily AI newsletter. It collects arXiv papers, GitHub trending
repositories and other feeds, chooses what to show each user, has a language model summarise
it, and stores the result. Around the network calls, the language model and the database sits
a small amount of deterministic logic. This project models that logic and proves what it does:

- **arXiv selection** (`ArxivNews`, `arxiv/arxivnews.py`):
  - version stripping of arXiv ids;
  - the "already seen" test, the newness filter and the category filter;
  - top-N ranking by Mendeley reader count and the composed filter;
  - the date range and the query string for last week's submissions.
- **Newsletter generation** (`ArxivJson`, `arxiv/generate_arxivnews_json.py`):
  - the arXiv and S3 addresses;
  - the token budget applied to a paper's pages, an imperative loop;
  - the per-paper keep-or-skip loop.
- **GitHub trending** (`GithubTrending`, `github/github.py`):
  - the count parser `convert_to_number`;
  - the fields and defaults taken from one scraped row;
  - the loop over the rows;
  - the seen-repositories set, the newness filter and the ranking by stargazer count.
- **Directory summariser** (`DirectoryTree`, `github/make_github_graph.py`):
  - `create_directory_tree` walks a repository and fills a treelib `Tree`. It is modelled as
    methods on a `Tree` class that change the tree in place.
  - `tree_to_dict` turns the tree into nested dictionaries.
  - the repository name and the output-file name.

Shared modules model the Python the code relies on:

- `Py`: optional values and exceptions as data;
- `PyStr`: `strip`, `lower`, `replace`, `split`/`join`, `int()`, the fixed-point part of
  `float()`, and `str(n)`;
- `Seqs`: list comprehensions with a condition;
- `Ranking`: stable `sorted(..., reverse=True)[:n]`;
- `Calendar`: `datetime.date` as Gregorian ordinals, with `strftime('%Y%m%d')`;
- `TreeLib`: the part of treelib's `Tree` that the summariser uses.

Where the modelled functions raise KeyError, ValueError, AttributeError or OverflowError, the
model returns an `Err` result instead of excluding the input by a precondition. The
exceptions that are not modelled are listed under "## Left out".

Notes on what the code does:

- `fetch_github_repos` has one `try` around the whole loop. A row that fails therefore ends
  the loop, and the rows read before it are returned.
- `filter_arxiv_papers` passes `user_data['categories']` to `filter_by_categories`, which
  looks up `'categories'` in it again. The user's categories therefore sit two levels deep,
  and either lookup can raise KeyError.
- The docstring of `create_directory_tree` promises a depth limit, but the code never
  compares `max_depth` with `current_depth`. The model follows the code: the tree always
  reaches the full depth of the directory.

## Model

| member | source | states |
|---|---|---|
| `ArxivNews.StripVersion` | arxiv/arxivnews.py:35-36 | The result holds no 'v' and is a prefix of the id. When the id has a 'v', the result is shorter and the first 'v' follows it. Otherwise the result is the whole id. |
| `ArxivNews.StripVersionIdempotent` | arxiv/arxivnews.py:35-36 | Stripping twice is the same as stripping once. |
| `ArxivNews.StripVersionAppend` | arxiv/arxivnews.py:35-36 | `<base>v<anything>` strips to `<base>` when `<base>` has no 'v'. |
| `ArxivNews.ExtractPaperInfo` | arxiv/arxivnews.py:38-43 | The record's id is the stripped short id and holds no 'v'. It has the primary category and title, and no reader count yet. |
| `ArxivNews.AnySameVersion` | arxiv/arxivnews.py:57 | True exactly when some recorded id strips to the given id. |
| `ArxivNews.IsNewPaper` | arxiv/arxivnews.py:53-57 | Always new without a paper record. Otherwise new exactly when no recorded id has the same stripped form. |
| `ArxivNews.LaterVersionNotNew` | arxiv/arxivnews.py:53-57 | Once `<base>v<n>` is recorded, `<base>v<m>` is not new. |
| `ArxivNews.FilterByNewness` | arxiv/arxivnews.py:62-64 | AttributeError exactly when there is no user record. Otherwise keeps exactly the new papers, each as often as in the input and in input order, and keeps everything when no papers are recorded. |
| `ArxivNews.IsInUserCategories` | arxiv/arxivnews.py:59-60 | KeyError exactly when the `'categories'` key is missing. Otherwise true exactly when the paper's category is listed. |
| `ArxivNews.FilterByCategories` | arxiv/arxivnews.py:66-67 | KeyError exactly when there is a paper to test and the key is missing. Otherwise keeps exactly the papers in the user's categories, in input order, each as often as in the input. |
| `ArxivNews.TopPapersSpec` | arxiv/arxivnews.py:69-71 | For `top_n >= 0`, returns `min(top_n, len)` papers taken from the input, in non-increasing reader count, with a missing count as 0. No paper left out is read more than a kept one. Equally read papers come in input order. |
| `ArxivNews.GetTopThreePapersByReaderCount` | arxiv/arxivnews.py:79-83 | Equals the general ranking with `top_n = 3` and returns `min(3, len)` papers. |
| `ArxivNews.FilterArxivPapersSpec` | arxiv/arxivnews.py:73-77 | AttributeError without a user record. Otherwise KeyError exactly when either `'categories'` level is missing; the inner level matters only when a new paper remains. Otherwise returns at most 3 input papers, each new and in one of the user's categories. |
| `ArxivNews.FilterArxivPapers` | arxiv/arxivnews.py:73-77 | Specified by `FilterArxivPapersSpec`: newness, then categories, then the three most read. |
| `ArxivNews.GetTopPapersByReaderCount` | arxiv/arxivnews.py:69-71 | Specified by `TopPapersSpec`. |
| `ArxivNews.ReaderCount` | arxiv/arxivnews.py:70 | The sort key `x.get('reader_count', 0)`. Specified by `TopPapersSpec`, which orders by it. |
| `ArxivNews.GetDateRange` | arxiv/arxivnews.py:18-21 | The end is the day before today and the start is 7 days before the end. OverflowError exactly when that leaves the range of `date`. |
| `ArxivNews.QueryLayout` | arxiv/arxivnews.py:23-25 | The query is `cat:cs.AI AND submittedDate:[` then the start `YYYYMMDD`, `2359 TO `, the end `YYYYMMDD` and `2359]`. Both date fields read back as the start and end dates. |
| `ArxivNews.QueryInjective` | arxiv/arxivnews.py:23-25 | Different date ranges give different queries. |
| `ArxivNews.CreateArxivQuery` | arxiv/arxivnews.py:23-25 | Specified by `QueryLayout` and `QueryInjective`. |
| `Calendar.FromOrdinal` | arxiv/arxivnews.py:24 | `date.fromordinal` gives a valid civil date whose ordinal is the day. |
| `Calendar.FromToOrdinal` | arxiv/arxivnews.py:19-20 | `fromordinal` and `toordinal` are inverse on valid dates. |
| `Calendar.ToOrdinalInjective` | arxiv/arxivnews.py:19-20 | Different valid dates have different ordinals. |
| `Calendar.ToOrdinal` | arxiv/arxivnews.py:19-20 | The day number on which `date - timedelta(days=k)` subtracts. Specified by `FromToOrdinal` and `ToOrdinalInjective`. |
| `Calendar.FormatYmd` | arxiv/arxivnews.py:24 | `strftime('%Y%m%d')` is eight digits. |
| `Calendar.FormatYmdParses` | arxiv/arxivnews.py:24 | The eight digits read back as the year, month and day. |
| `Calendar.FormatDayInjective` | arxiv/arxivnews.py:24 | Different days format differently. |
| `Ranking.Prefix` | arxiv/arxivnews.py:71 | Python's `xs[:n]` keeps the first `min(n, len)` elements. For a negative `n` it keeps all but the last `-n`. |
| `Ranking.SortDesc` | arxiv/arxivnews.py:70 | `sorted(..., reverse=True)` is a permutation of the input with keys in non-increasing order. |
| `Ranking.SortStable` | arxiv/arxivnews.py:70 | Elements with equal keys keep their input order. |
| `Ranking.TopNSpec` | arxiv/arxivnews.py:69-71 | The taken elements plus the ones left out are exactly the input. Their number is as `[:n]` gives. They come in non-increasing key order, and no left-out key exceeds a taken one. Taken equal-key elements are the first of their key in input order. |
| `Ranking.TopNLeftOut` | github/github.py:101-103 | No element left out has a larger key than one taken. |
| `Ranking.TopNConstantKey` | github/github.py:101-103 | When all keys are equal, the top `n` are the first `n` in input order. |
| `Ranking.TopN` | arxiv/arxivnews.py:70-71 | `sorted(xs, key=key, reverse=True)[:n]`, as also at github/github.py:102-103. Specified by `TopNSpec`, `TopNLeftOut`, `TopNConstantKey` and, through `SortDesc`, `SortStable`. |
| `ArxivJson.MakeUrl` | arxiv/generate_arxivnews_json.py:228-229 | Specified by `MakeUrlRoundTrip` and `UrlsDistinct`. |
| `ArxivJson.PdfUrl` | arxiv/generate_arxivnews_json.py:61-62 | Specified by `PdfUrlRoundTrip` and `UrlsDistinct`. |
| `ArxivJson.MakeUrlRoundTrip` | arxiv/generate_arxivnews_json.py:228-229 | The abstract-page address gives back the id it was built from. |
| `ArxivJson.PdfUrlRoundTrip` | arxiv/generate_arxivnews_json.py:61-62 | The PDF address gives back the id it was built from. |
| `ArxivJson.UrlsDistinct` | arxiv/generate_arxivnews_json.py:228-229 | Address equality is id equality, for both kinds of address. No abstract-page address is a PDF address. |
| `ArxivJson.ImageUrlIsUploadUrl` | arxiv/generate_arxivnews_json.py:244-250 | The recorded `image_url` is the address a successful upload of `output_<uuid>.png` to the bucket reports. |
| `ArxivJson.ImageUrlInjective` | arxiv/generate_arxivnews_json.py:244-250 | Different uuids give different image addresses. |
| `ArxivJson.OutputImagePath` | arxiv/generate_arxivnews_json.py:245 | `output_<uuid>.png`. Specified by `ImageUrlIsUploadUrl` and `ImageUrlInjective`. |
| `ArxivJson.S3Url` | arxiv/generate_arxivnews_json.py:140 | The address `upload_image_to_s3` returns after a successful upload. Specified by `ImageUrlIsUploadUrl`. |
| `ArxivJson.ImageUrl` | arxiv/generate_arxivnews_json.py:250 | The recorded `image_url`. Specified by `ImageUrlIsUploadUrl` (it is the upload's address for the bucket and object) and `ImageUrlInjective`. |
| `ArxivJson.CollectTokens` | arxiv/generate_arxivnews_json.py:158-169 | The loop extends the tokens page by page and cuts the first page that would pass the budget. It returns the tokens `TakeTokens` defines. |
| `ArxivJson.TruncateSpec` | arxiv/generate_arxivnews_json.py:158-169 | For any budget of at least zero, the result has at most `token_limit` tokens and is a prefix of all pages in page order. If everything fits, every page is kept whole, including a page that reaches the limit exactly. Otherwise exactly `token_limit` tokens are kept. |
| `ArxivJson.TakeTokens` | arxiv/generate_arxivnews_json.py:158-169 | Specified by `TruncateSpec`, `TruncateNegative` and `TruncateIgnoresLaterPages`, and realised by the loop `CollectTokens`. |
| `ArxivJson.Truncate` | arxiv/generate_arxivnews_json.py:158-169 | Specified by `TruncateSpec`. |
| `ArxivJson.TruncateIgnoresLaterPages` | arxiv/generate_arxivnews_json.py:163-166 | Pages after the first overflowing one are never consulted. |
| `ArxivJson.TruncateNegative` | arxiv/generate_arxivnews_json.py:163-166 | With a negative budget, the first page's slice drops tokens from its end, and the loop stops there. |
| `ArxivJson.Record` | arxiv/generate_arxivnews_json.py:256-262 | The record holds the found title and the summary. Its `paper_url` is the paper's abstract page and its `image_url` is the S3 address of its image. |
| `ArxivJson.ProcessArxivPapersToJson` | arxiv/generate_arxivnews_json.py:231-268 | The loop returns the records `Records` defines. |
| `ArxivJson.RecordsSpec` | arxiv/generate_arxivnews_json.py:234-266 | There is one record per paper with a truthy abstract, in input order. The `i`-th record is built from the `i`-th such paper, and the others are skipped. |
| `ArxivJson.HasAbstract` | arxiv/generate_arxivnews_json.py:239 | `if abstract:`: `None` and the empty string are false. Specified by `RecordsSpec`, which keeps exactly the papers it holds for. |
| `ArxivJson.Records` | arxiv/generate_arxivnews_json.py:231-268 | Specified by `RecordsSpec` and `RecordsAddresses`, and realised by the loop `ProcessArxivPapersToJson`. |
| `ArxivJson.RecordsAddresses` | arxiv/generate_arxivnews_json.py:239-264 | Every record comes from an input paper with an abstract. |
| `PyStr.Strip` | github/github.py:41 | `strip()` leaves text that neither starts nor ends with whitespace. |
| `PyStr.StripSlice` | github/github.py:41 | What `strip()` keeps is the slice of the text that starts where `lstrip()` stops. |
| `PyStr.StripCuts` | github/github.py:41 | Everything `strip()` cuts before and after that slice is whitespace. |
| `PyStr.StripPadded` | github/github.py:64 | `strip()` removes exactly the surrounding whitespace. |
| `PyStr.Lower` | github/github.py:64 | `lower()` keeps the length and lowers each ASCII letter. |
| `PyStr.RemoveChar` | github/github.py:67 | `replace(c, '')` removes every `c` and keeps every other character. |
| `PyStr.Split` | arxiv/arxivnews.py:36 | `split` gives at least one piece, none holding the separator. |
| `PyStr.JoinSplit` | github/github.py:61 | Joining the pieces of a split gives back the string. |
| `PyStr.SplitJoin` | github/github.py:61 | Splitting a join of separator-free pieces gives back the pieces. |
| `PyStr.SplitHead` | arxiv/arxivnews.py:36 | `split(sep)[0]` is the text before the first separator, or the whole string when there is none. |
| `PyStr.SplitLast` | github/make_github_graph.py:179 | `split(sep)[-1]` is the text after the last separator, or the whole string when there is none. |
| `PyStr.ParseInt` | github/github.py:67 | `int()` succeeds exactly on an optionally signed digit group, whitespace around it allowed; anything else is ValueError. |
| `PyStr.ParseIntString` | github/github.py:67 | `int(str(n)) == n`. |
| `PyStr.Decimal` | github/make_github_graph.py:32 | `str(n)` for the file count in the summary tag: at least one digit, no leading zero. Specified by `DecimalValue` (the digits read back as `n`) and `ParseIntString` (`int(str(n)) == n`). |
| `PyStr.DivTowardZero` | github/github.py:66 | `int()` of a quotient truncates toward zero. For `a >= 0`, `q*b` lies in `[0, a]` and `(q+1)*b > a`. For `a < 0`, `q*b` lies in `[a, 0]` and `(q-1)*b < a`. |
| `PyStr.ParseFloat` | github/github.py:66 | `float()` of the count with its 'k' removed, read as an exact decimal. Specified by `ParseFloatNumeral` (`str(n)` reads back as `n`) and `ParseFloatTenths` (`n.d` reads back as `n*10 + d` tenths). Where binary floating point differs is under "## Left out". |
| `GithubTrending.ConvertPadded` | github/github.py:63-67 | Whitespace around a count is ignored. |
| `GithubTrending.ConvertPlain` | github/github.py:67 | Without a 'k', a count whose text is a numeral once the commas are removed is that numeral's value. |
| `GithubTrending.ConvertAbbreviated` | github/github.py:65-66 | With a 'k' whose remaining text reads as the decimal `num / 10^scale`, the count succeeds and `count * 10^scale` lies between 0 and `num * 1000`, less than `10^scale` from it: the product truncated toward zero. The decimal is exact; how the source's floats differ is under "## Left out" (`PyStr.ParseFloat`, `GithubTrending.ReadCount`). |
| `GithubTrending.ConvertToNumber` | github/github.py:63-67 | Specified by `ConvertPadded`, `ConvertPlain`, `ConvertAbbreviated` and the lemmas below them. |
| `GithubTrending.ReadCount` | github/github.py:65-67 | Specified by `ConvertPlain` and `ConvertAbbreviated`. |
| `GithubTrending.ConvertDecimal` | github/github.py:63-67 | `convert_to_number(str(n)) == n`. |
| `GithubTrending.ConvertGrouped` | github/github.py:67 | Thousands separators are ignored: `f"{n},{m:03}"` counts `n*1000 + m`. |
| `GithubTrending.ConvertGroupedExample` | github/github.py:63-67 | `" 1,234 "` counts 1234. |
| `GithubTrending.ConvertThousands` | github/github.py:65-66 | `str(n) + "k"` counts `n*1000` in exact decimals; the source's float product agrees while `n * 1000` is at most 2^53. |
| `GithubTrending.ConvertTenthsOfThousands` | github/github.py:65-66 | `f"{n}.{d}k"` counts `n*1000 + d*100` in exact decimals; the source's float can count one less, as for "32.3k" (see `PyStr.ParseFloat` under "## Left out"). |
| `GithubTrending.ConvertAbbreviatedExample` | github/github.py:65-66 | `"1.2k"` and `"1.2K"` count 1200. |
| `GithubTrending.FullName` | github/github.py:41 | The name holds no space or newline, and keeps every other character of the stripped link text. |
| `GithubTrending.FullNameFilter` | github/github.py:41 | The name is the stripped link text with its spaces and newlines filtered out, order and repetitions kept. |
| `GithubTrending.HtmlUrl` | github/github.py:42 | Specified by `HtmlUrlName` and `HtmlUrlInjective`. |
| `GithubTrending.HtmlUrlName` | github/github.py:42 | `html_url` is `https://github.com/` followed by exactly the full name. |
| `GithubTrending.HtmlUrlInjective` | github/github.py:42 | Different names give different URLs. |
| `GithubTrending.TextOr` | github/github.py:44-49 | A missing element gives the default; a present one gives its stripped text. |
| `GithubTrending.StatText` | github/github.py:52-54 | The `i`-th stat's stripped text, or "0" when there are not that many stats. |
| `GithubTrending.StarsTodayFirstWord` | github/github.py:57-61 | Stars today are read from the first space-free word of the stripped text, or from the whole text when it has no space. |
| `GithubTrending.ExtractRow` | github/github.py:40-77 | A row converts exactly when it has a link and all three counts parse. A missing link is AttributeError. The converted record has exactly the fields and defaults the loop builds, and no stargazer count. |
| `GithubTrending.ExtractRowDefaults` | github/github.py:44-61 | A row with only a link gets an empty description, language "Unknown" and all counts 0. |
| `GithubTrending.ExtractRowNoForks` | github/github.py:52-54 | A row with one stat link has 0 forks. |
| `GithubTrending.FetchGithubRepos` | github/github.py:28-86 | The loop returns nothing when the request fails, and otherwise the rows `ReposFrom` defines. |
| `GithubTrending.ReposFromSpec` | github/github.py:31-86 | The result converts the page's rows from its start, in order. It stops at the end of the page or at the first row that raises. |
| `GithubTrending.ReposFrom` | github/github.py:38-79 | Specified by `ReposFromSpec`. |
| `GithubTrending.OkRun` | github/github.py:38-79 | Specified by `ReposFromSpec`: the converted prefix up to the first failing row. |
| `GithubTrending.ReposFromNoStargazers` | github/github.py:69-77 | No scraped record has a stargazer count. |
| `GithubTrending.GetAllUniqueUserRepos` | github/github.py:88-92 | A URL is in the set exactly when the user record lists it. A falsy record, a missing key or `None` gives the empty set. |
| `GithubTrending.FilterByNewnessSpec` | github/github.py:94-99 | Keeps exactly the repositories whose URL was not seen, in input order and as often as they occur. The early return when nothing was seen agrees with this. |
| `GithubTrending.FilterByNewnessNothingSeen` | github/github.py:94-98 | Without seen URLs, the input comes back unchanged. |
| `GithubTrending.FilterByNewness` | github/github.py:94-99 | Specified by `FilterByNewnessSpec` and `FilterByNewnessNothingSeen`. |
| `GithubTrending.GetTopReposByStargazersCount` | github/github.py:101-103 | Specified by `TopReposSpec`. |
| `GithubTrending.StargazersKey` | github/github.py:102 | The sort key `int(x.get('stargazers_count') or 0)`. Specified by `TopReposSpec`, which orders by it. |
| `GithubTrending.TopReposSpec` | github/github.py:101-103 | For `top_n >= 0`, returns `min(top_n, len)` input repositories in non-increasing stargazer count, with a missing count as 0. None left out has more stars than one kept. Ties keep input order. |
| `GithubTrending.TopScrapedRepos` | github/github.py:101-103 | On scraped records, the ranking returns the first `top_n` rows in page order. |
| `TreeLib.Tree.constructor` | github/make_github_graph.py:24 | `Tree()` has no nodes and no root. |
| `TreeLib.Tree.CreateNode` | github/make_github_graph.py:25 | `create_node` changes the tree to `Created` of the old one. |
| `TreeLib.CreatedShape` | github/make_github_graph.py:37 | `create_node` adds exactly the new childless node, last among its parent's children, and changes nothing else. |
| `TreeLib.CreatedValid` | github/make_github_graph.py:25 | A successful `create_node` keeps the tree valid: one root, parents and child lists agree, and no child is listed twice. |
| `TreeLib.Created` | github/make_github_graph.py:32 | The tree after one `create_node`, as at lines 32, 37 and 42. Specified by `CreatedShape` and `CreatedValid`. |
| `TreeLib.ApplyKeeps` | github/make_github_graph.py:32-42 | Successful calls add one node per identifier and keep the existing nodes and the root. |
| `TreeLib.ApplyChildren` | github/make_github_graph.py:32-42 | A node's children are its old ones, then the ones the calls attach to it, in call order. |
| `TreeLib.ApplicableScoped` | github/make_github_graph.py:32-42 | Calls succeed exactly when each names an existing parent and a new identifier. |
| `DirectoryTree.SortByNameSpec` | github/make_github_graph.py:27 | The sorted listing is a permutation of the listing, in non-decreasing name order. |
| `DirectoryTree.SortByName` | github/make_github_graph.py:27 | Specified by `SortByNameSpec`. |
| `DirectoryTree.ListingSpec` | github/make_github_graph.py:27-29 | `files` and `dirs` are exactly the non-hidden files and directories, as often as listed, sorted by name. |
| `DirectoryTree.Files` | github/make_github_graph.py:28 | The list `files`. Specified by `ListingSpec`. |
| `DirectoryTree.Dirs` | github/make_github_graph.py:29 | The list `dirs`. Specified by `ListingSpec`. |
| `DirectoryTree.NodeIdSpec` | github/make_github_graph.py:36 | The id is the path with each backslash turned into '/' and each space into '_'. Nothing else changes, and neither character remains. |
| `DirectoryTree.NodeId` | github/make_github_graph.py:36 | `path.replace('\\', '/').replace(' ', '_')`, as also at line 41. Specified by `NodeIdSpec`. |
| `DirectoryTree.PathJoinName` | github/make_github_graph.py:35 | `os.path.join(startpath, entry)` starts with `startpath`, and its last '/'-separated piece is the entry name, for a name without '/'. |
| `DirectoryTree.PathJoin` | github/make_github_graph.py:35 | `os.path.join` on POSIX, as also at line 40. Specified by `PathJoinName`. |
| `DirectoryTree.EachFile` | github/make_github_graph.py:34-37 | One `create_node` per file, in order, tagged and named by the file. |
| `DirectoryTree.Ops` | github/make_github_graph.py:27-43 | The calls one directory makes. Specified by `ChildrenOf`, `NoHiddenNodes`, `WalkShape` and `WalkApplicable`. |
| `DirectoryTree.FileOps` | github/make_github_graph.py:31-37 | Specified by `AddFiles` and `ChildrenOf`. |
| `DirectoryTree.DirsOps` | github/make_github_graph.py:39-43 | Specified by `AddDirs` and `ChildrenOf`. |
| `DirectoryTree.WalkApplicable` | github/make_github_graph.py:32-42 | With distinct identifiers, every `create_node` of the walk succeeds. |
| `DirectoryTree.CreateDirectoryTree` | github/make_github_graph.py:21-44 | Returns a fresh tree holding the root "📦"/"root" after every call of the walk, in order. The result does not depend on `max_depth`. |
| `DirectoryTree.AddDirectory` | github/make_github_graph.py:27-43 | A recursive call adds its directory's calls to the tree it was passed, under the node it was passed. |
| `DirectoryTree.AddFiles` | github/make_github_graph.py:31-37 | More than `max_files` files give one summary node; otherwise one node per file in sorted order. |
| `DirectoryTree.AddDirs` | github/make_github_graph.py:39-43 | Each directory's node is followed by the walk into it, in sorted order. |
| `DirectoryTree.AddDirAt` | github/make_github_graph.py:39-43 | Turn `i` of the directory loop leaves the calls for the directories after `i`. |
| `DirectoryTree.AddDir` | github/make_github_graph.py:40-43 | Adds the "📁 name" node, then walks the directory under it. |
| `DirectoryTree.ChildrenOf` | github/make_github_graph.py:27-43 | A node's children are the summary node `<parent>_files` (more than `max_files` visible files) or one node per visible file. After those comes one node per visible directory. Files and directories are each in sorted order. |
| `DirectoryTree.NoHiddenNodes` | github/make_github_graph.py:28-29 | No call at any depth tags a node as a hidden file or directory. |
| `DirectoryTree.WalkShape` | github/make_github_graph.py:23-26 | The tree has exactly one parentless node, "root" tagged "📦", plus one node per call with that call's tag and parent. |
| `DirectoryTree.ToDictShape` | github/make_github_graph.py:47-58 | A node's dictionary has its tag, its id, and one child dictionary per child, in order. `"children"` is present exactly when there are children. |
| `DirectoryTree.ToDictsShape` | github/make_github_graph.py:57 | One dictionary per child identifier, in order. |
| `DirectoryTree.ToDict` | github/make_github_graph.py:47-58 | Specified by `ToDictShape`. |
| `DirectoryTree.ToDicts` | github/make_github_graph.py:57 | Specified by `ToDictsShape`. |
| `DirectoryTree.TreeToDict` | github/make_github_graph.py:46-60 | Specified by `TreeToDictOfWalk` and `TreeToDictSize`. |
| `DirectoryTree.TreeToDictOfWalk` | github/make_github_graph.py:46-60 | `tree_to_dict` of the walk's tree is the nested dictionary read off the directory. The tree is valid. |
| `DirectoryTree.TreeToDictSize` | github/make_github_graph.py:46-60 | `tree_to_dict` of the walk's tree has exactly one dictionary per tree node. |
| `DirectoryTree.RepoNameSpec` | github/make_github_graph.py:179-182 | The repository name is the URL path's text after its last '/', or the whole path without one. The default output file is `<name>_structure.html` and has no '/'. A given file is used as is. |
| `DirectoryTree.RepoName` | github/make_github_graph.py:179 | Specified by `RepoNameSpec`. |
| `DirectoryTree.OutputFile` | github/make_github_graph.py:181-182 | Specified by `RepoNameSpec`. |

## Left out

- **I/O and services.** Network and service calls are not modelled: the arXiv search, the
  GitHub page download, S3 uploads, Supabase, the Mendeley lookups and the language-model
  calls. Where a modelled loop consults one of them, its answer is an input.
- **Libraries.** Tokenising with tiktoken, `encoding.decode`, and PDF rendering with fitz/PIL
  are not modelled. Pages enter as token sequences, and the decoded text the function returns
  is not modelled.
- **`text` accumulator.** The unused `text` accumulator of the token loop is dropped.
- **Scraping.** HTML parsing with BeautifulSoup is not modelled. Each `article.Box-row` row
  enters as the texts of the elements the scraper selects. A bs4 element is always truthy, so
  only its absence selects a default.
- **Clock.** `datetime.now()` is a parameter (`today`, as an ordinal).
- **URL parsing.** `urlparse` is not modelled: the repository name is computed from the URL
  path, which is a parameter.
- **Filesystem.** `os.listdir`, `isfile` and `isdir` are replaced by the directory datatype.
  An entry that is neither a file nor a directory is `Other` and is dropped, as the two
  filters drop it.
- **Directory cycles.** The directory datatype is finite and acyclic, so the model covers
  only such trees. A symbolic-link cycle, on which the source recurses until the operating
  system raises an error, cannot be represented.
- **Not modelled at all.** `clone_repo`, temporary-directory cleanup, `generate_html` and
  writing the output file.
- **treelib.** treelib is not part of this model. Its errors (a duplicated identifier, a
  missing parent, a second root) are stated as preconditions. `CreateDirectoryTree` therefore
  requires all node identifiers to be different.
- **Entry points.** A call of `create_directory_tree` with a given tree but `parent=None` is
  not modelled. The entry points `runner.py`, `get_data.py` and `app.py` are not modelled.
- **Other sources.** The Hacker News and Reddit fetchers, the email templates and the GitHub
  README processing are not modelled.
- DirectoryTree.SortByName: duplicate names within one listing are not considered; a real
  directory cannot hold them, and the insertion sort's tie order is not claimed to match
  Python's.
- DirectoryTree.ToDict: the recursion is bounded by fuel (the number of nodes). It returns
  `None` when the fuel runs out or an identifier is not a node. Neither happens for the
  walk's tree (`TreeToDictOfWalk`).
- DirectoryTree.AddDirectory: one Python function is split into `AddDirectory`, `AddFiles`,
  `AddDirs`, `AddDirAt` and `AddDir`, which perform its calls in the same order.
  `current_depth` is passed down but never read, as in the source.
- PyStr.Lower: only ASCII letters are lowered; other Unicode case mappings are not modelled.
- PyStr.IsDigit: only ASCII digits count as digits; other Unicode decimal digits that Python's
  `int()` accepts are not modelled.
- PyStr.ParseFloat: `float()` is read as an exact decimal in fixed-point notation. Exponents,
  `inf` and `nan` are rejected. Binary floating point is not modelled. The source rounds
  twice: once when `float()` parses the numeral, and once when it multiplies by 1000. Either
  rounding can cross an integer, in either direction, before `int()` truncates. So the
  count of a 'k' numeral can differ wherever that happens, and above 2^53 the product is not
  exact at all. Two examples:
  - the double nearest 32.3 lies just below it, so "32.3k" counts 32299 in the source and
    32300 in the model;
  - "0.9999999999999999999k" parses to 1.0, so it counts 1000 in the source and 999 in the
    model.
- GithubTrending.ReadCount: a 'k' numeral beyond the range of a float, such as 400 nines
  followed by "k", makes `float()` give `inf`, and `int(inf * 1000)` raises OverflowError.
  The row then ends `fetch_github_repos`'s loop. The model returns `Ok` with the exact
  count, so `ReposFrom` goes on to the next row. Likewise "infk" raises OverflowError in
  the source, and the model gives a ValueError result, which ends the loop just the same.
- Calendar.FormatYmd: `%Y` is written with four digits. Some C libraries write years below
  1000 with fewer digits.
- ArxivNews.IsInUserCategories: `None` is not modelled at either level of `'categories'`:
  - the outer `user_data['categories']` present but `None`;
  - the inner `user_data['categories']['categories']` present but `None`.
  Either way the source raises TypeError at `arxivnews.py:60`, and only when a new paper
  remains to be tested. The model reads the outer value as a record and the inner one as
  a list, so it cannot represent either case.
- ArxivJson.ProcessArxivPapersToJson: exceptions that escape the loop are not modelled, and
  the model always completes. They end `process_arxiv_papers_to_json` in the source:
  - the arXiv lookup in `get_paper_info`;
  - `json.loads(...)["text"]` in `extract_important_parts`;
  - `boto3.client('s3')`, which `upload_image_to_s3` calls outside its `try`;
  - `json.loads` in `summarize_paper`.
  A failed PDF download, by contrast, raises nothing that leaves the loop. The download
  returns `None`, the image step catches the failure, and the upload catches its own errors.
  So `image_url` is still set and the record is still added, as in the model.
- GithubTrending.GetAllUniqueUserRepos: the listed values are taken as URL strings.
