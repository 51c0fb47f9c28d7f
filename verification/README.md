# Library database scraper: analysis core

This project models, in Dafny, the analysis core of a small Streamlit tool
that scrapes a university library's database page and counts the database
names on it. The core is in `app.py`:

- `is_chinese` decides whether a string is a Chinese name. It is Chinese when
  at least one code point lies in U+4E00..U+9FA5, the CJK Unified Ideographs.
- `analyze_html` works on the anchor texts of a rendered page. A missing or
  empty page gives two empty lists. Otherwise it keeps the texts whose length
  is strictly between 2 and 50 and removes duplicates through a set. It then
  splits the distinct names into a Chinese list (`cn_dbs`) and an other list
  (`other_dbs`).

Everything lives in module `App` in `app.dfy`. `is_chinese` is the method
`IsChinese`, an early-return scan proved equal to the predicate
`HasCjkIdeograph`. The page is the datatype `HtmlInput`. `Missing` stands for a
falsy argument (None or ""). `Document` carries the stripped anchor texts in
document order, as the HTML parser would produce them. The accumulating loop
is the method `CollectCandidates`, specified by the function `Candidates`.
`list(set(...))` is the method `Deduplicate`. It picks elements from the set in
an unspecified order, and its contract promises no order. The two list
comprehensions are the function `Select`. `AnalyzeHtml` composes these steps.
Its contract is the predicate `IsAnalysisOf`, which holds for every possible
set iteration order. The lemmas after it derive what the page reports from
that contract.

`app.py` applies no blacklist and no digit filter, and its length bounds are
2 and 50, both exclusive. `AnalysisExample` proves that "123" lands in the
other list and that "首页" is dropped because it is two characters long.

## Model

| member | source | states |
|---|---|---|
| `App.IsChinese` | app.py:40-44 | returns true exactly when some character of the string has a code point in U+4E00..U+9FA5 inclusive; false for the empty string |
| `App.HasCjkIdeographConcat` | app.py:40-44 | a concatenation is Chinese iff one of its parts is, so a mixed-script name counts as Chinese |
| `App.HasCjkIdeographExamples` | app.py:40-44 | "" and "ABC" are not Chinese; "中国知网" and "Web 中文" are |
| `App.CollectCandidates` | app.py:58-64 | the loop appends exactly the anchor texts with 2 < length < 50, in document order, repetitions kept; a text is in the result iff it is an anchor text within the bounds |
| `App.CandidatesMembership` | app.py:60-64 | a string is a candidate iff it is one of the anchor texts and its length is strictly between 2 and 50 |
| `App.Deduplicate` | app.py:66 | the result has no duplicates, holds exactly the strings of the input, and its length is the number of distinct input strings; no order is promised |
| `App.Select` | app.py:68-69 | the comprehension for `cn_dbs` keeps exactly the listed strings that contain a CJK ideograph, the one for `other_dbs` exactly those that contain none |
| `App.SelectNoDuplicates` | app.py:66-69 | the comprehensions over a duplicate-free list give duplicate-free lists |
| `App.SelectPartitions` | app.py:68-69 | the two comprehensions together hold every element of the list exactly as often as the list does, so their lengths add up to its length |
| `App.AnalyzeHtml` | app.py:46-71 | a missing or empty page gives `([], [])`; otherwise neither list repeats a name, `cn` holds exactly the distinct qualifying anchor texts that contain a CJK ideograph and `other` exactly those that contain none |
| `App.AnalysisPartitions` | app.py:63-69 | the two lists are disjoint, their union is the set of distinct anchor texts with 2 < length < 50, every name in `cn` is Chinese and none in `other` is, and no name is invented |
| `App.AnalysisTotal` | app.py:66-69 | `len(cn) + len(other)`, the total the page reports, is the number of distinct anchor texts with 2 < length < 50 |
| `App.AnalysisUniqueUpToOrder` | app.py:66-69 | the result is fixed by the page up to the order inside each list: two analyses of one page are permutations of each other |
| `App.AnalysisExample` | app.py:46-71 | anchors 中国知网, Web of Science, 首页, 123, 中国知网 give `cn == ["中国知网"]` and `other` a permutation of Web of Science and 123 |

## Left out

- `get_dynamic_page_content` (app.py:9-38) is left out. It drives a headless browser through Playwright, with a navigation timeout, a network-idle wait and a two-second sleep. This is I/O and wall-clock behaviour in a foreign library.
- HTML parsing is left out: BeautifulSoup, the removal of header, footer, nav, script, style and noscript subtrees, `find_all('a')` and `get_text(strip=True)` (app.py:51-61). These are calls into an unseen library. Their result is the input `Document(anchorTexts)`.
- The Streamlit UI and the pandas tables (app.py:75-115) are presentation only. The total shown at app.py:106 is covered by `AnalysisTotal`.
- The actual iteration order of a Python set is unspecified and is not modelled. `Deduplicate` picks elements in an arbitrary order, and every contract holds for any order.
- Python strings may hold lone surrogate code points, but a Dafny `char` cannot. Strings containing them are outside the model. Neither they nor the length count would affect the CJK test.
