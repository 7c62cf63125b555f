# pdActionF toolbox: the page-range parser and the handler logic

pdActionF is a small desktop PDF toolbox: one window, three buttons (merge,
split, compress). Each button drives a few file dialogs and calls the PDF
library. The toolbox has one piece of logic of its own: the page-range parser
`_parse_page_range` used by "Split PDF". The parser turns an expression such as
`1-3,5,7-9` into the ascending list of distinct pages between 1 and the
document's page count. This project models that parser in Dafny and proves
what it promises. It also models the logic that the three handlers wrap around
the library:

- the split loop saves one single-page document named `page_{n}.pdf` for each
  selected page;
- the merge loop concatenates the pages of every source, in order;
- the compressor refuses a file that does not exist or whose lower-cased name
  does not end in `.pdf`, and suggests the output name `compressed_{filename}`.

Modules, one per file:

- `results.dfy` — `Results`: `Option`, `Result` and `Traverse`. `Traverse` is
  the "first failure wins" traversal of the parser's loop over tokens and of
  the merge loop over sources: a Python exception inside a `for` loop abandons
  the loop and everything it has gathered. The split loop cannot fail in the
  model (every index is in bounds and saving is not modelled), so it is an
  ordinary loop.
- `text.dfy` — `Text`: the pieces of Python's `str` that the code relies on.
  These are `split` with a one-character separator (and its inverse `Join`),
  the whitespace stripping of `int()`, and the ASCII part of `lower()` and
  `endswith`.
- `int_lexer.dfy` — `IntLexer`: `int(text)` in base 10, and the decimal
  printing `Show` used in `f"page_{n}"`.
- `sorting.dfy` — `Sorting`: strictly ascending sequences, and `Enumerate`,
  the ascending list of a set's members within bounds (`sorted` over a `set`).
- `page_range.dfy` — `PageRange`: the parser. `ParsePageRange` is a method
  with the source's loop; its specification function is `ParseSpec`. The
  lemmas state the parser's properties.
- `page_range_examples.dfy` — `PageRangeExamples`: concrete inputs worked
  through the parser.
- `toolbox.dfy` — `Toolbox`: the split, merge and compress logic. A document
  is a `seq<P>` of an abstract page type. Opening a file is a function
  parameter. The files a handler would save are returned as values.

How the parser is modelled:

- `int()` accepts surrounding whitespace (space, `\t`, `\n`, `\v`, `\f`,
  `\r`; not U+001C..U+001F, which `int()` rejects), an optional `+`, and
  then `digit ("_"? digit)*`. A `-` sign never reaches `int()`: any token
  containing `-` is split on `-` first.
- A token with `-` is unpacked into `start, end` through a lazy `map`. CPython
  converts the first half, then the second. When there is a third half it
  converts that too, and only then reports "too many values to unpack". The
  model raises the same error at the same point: `InvalidLiteral(text)` for
  the first half `int()` rejects, `TooManyValues(token)` otherwise.
- A token with two halves adds `range(start, end + 1)`, which is empty when
  `start > end`.
- A failing token ends the parse with its error. Nothing is returned for the
  tokens before it.

Two consequences of the code that are easy to miss:

- Every token containing `-` takes the range path. So `-3` is an error (its
  first half is empty) and not a negative page, and `1-2-3` fails in the
  unpacking.
- The merge handler merges whatever non-empty selection the dialog returns,
  so a selection of one source is merged too.

## Model

| member | source | states |
|---|---|---|
| `PageRange.ParsePageRange` | main.py:98-107 | The loop over the comma-separated tokens computes exactly `ParseSpec`: the first bad token's error, or the sorted in-bounds members of the union of the tokens' pages. On success the result is strictly ascending and every page lies in `1..total_pages`. |
| `PageRange.ParseResultBounds` | main.py:107 | A successful parse is strictly ascending, so it has no duplicates. Every element lies in `1..total_pages`. Its length is at most `max(total_pages, 0)`. |
| `PageRange.ParseMembership` | main.py:100-107 | Both directions: `p` is selected iff `1 <= p <= total_pages` and some token names `p`, either as that page or as a range `a-b` with `a <= p <= b`. |
| `PageRange.ParseSucceedsIff` | main.py:100-105 | Both directions: the parse succeeds iff every comma-separated token converts. |
| `PageRange.ParseFailsAtFirstBadToken` | main.py:100-105 | On failure, the error is that of the first token that does not convert, and every token before it converts. |
| `PageRange.EmptyTokenFails` | main.py:105 | An empty token fails the parse, because `int("")` raises. This covers `""`, `"1,,2"` and a trailing comma. |
| `PageRange.ParseIgnoresOrderAndRepetition` | main.py:99-105 | Two expressions with the same set of tokens either both succeed, with equal results, or both fail, whatever the tokens' order or repetition. Which error is reported depends on the order: it is the first bad token's. |
| `PageRange.InvertedRangeIgnored` | main.py:103 | Appending a token that converts to an inverted range (`start > end`) to any expression changes neither its result nor its error. |
| `PageRange.ClassifyPartMeaning` | main.py:101-105 | A token without `-` converts iff `int()` accepts it, and becomes that page. A token with `-` converts iff it has exactly two halves and `int()` accepts both; it becomes the range. Every failure names a text `int()` rejects, or is a token with a third half. |
| `PageRange.ThreeHalvesFail` | main.py:102 | A token with three dash-separated numbers raises "too many values", as `1-2-3` does. |
| `PageRange.LeadingDashFails` | main.py:102 | A token starting with `-` fails on its empty first half, as `-3` does. |
| `PageRange.ClassifyDigits` | main.py:105 | A run of decimal digits is the single page it spells. |
| `PageRange.ClassifyDigitsSpan` | main.py:101-103 | Two runs of digits joined by `-` are the range between the numbers they spell. |
| `PageRange.TokensSnoc` | main.py:100 | Appending `,t` for a token `t` that converts adds exactly that token to the token list, or keeps the earlier failure. |
| `PageRange.CoveredMembers` | main.py:99-105 | The set built by the loop holds `p` iff some converted token covers `p`. |
| `PageRange.RangeSet` | main.py:103 | `range(a, b + 1)` holds exactly `a..b` and has `b - a + 1` members, or none when `a > b`. |
| `PageRange.TokenPages` | main.py:103-105 | A token adds exactly the pages it covers, and an inverted range adds none. |
| `PageRange.Selection` | main.py:107 | The filter-and-sort is strictly ascending and holds exactly the members of the set within `1..total_pages`. |
| `PageRangeExamples.PromptExample` | main.py:69 | The dialog's own example `"1-3,5,7-9"` with ten pages selects `[1, 2, 3, 5, 7, 8, 9]`. |
| `PageRangeExamples.InvertedExample` | main.py:103 | `"5-2"` with ten pages gives `[]` and no error. |
| `PageRangeExamples.RepeatedExample` | main.py:99-105 | `"2,2"` with five pages gives `[2]`: a repeated page appears once. |
| `PageRangeExamples.SortedExample` | main.py:107 | `"2,1"` with five pages gives `[1, 2]`. |
| `PageRangeExamples.ClippedExample` | main.py:107 | `"3,1"` with two pages gives `[1]`: the page past the end is dropped. |
| `PageRangeExamples.WordFails` | main.py:105 | `"abc"` fails with `InvalidLiteral("abc")`. |
| `PageRangeExamples.EmptyFails` | main.py:105 | `""` fails with `InvalidLiteral("")`. |
| `PageRangeExamples.TrailingCommaExample` | main.py:100-105 | `"1,"` fails with `InvalidLiteral("")`, after the good token before it. |
| `PageRangeExamples.NegativeExample` | main.py:102 | `"-3"` fails with `InvalidLiteral("")`. |
| `Results.TraverseFirstFailure` | main.py:100-105 | A loop that raises stops at the first element that fails, and reports that element's error. |
| `Results.TraverseSucceedsIff` | main.py:100-105 | Both directions: a loop that raises on failure completes iff every element succeeds. |
| `Results.TraverseStep` | main.py:100-105 | One turn of such a loop: a failing element fails the whole loop with its error; otherwise the results grow by that element's result. |
| `Text.Split` | main.py:100 | `split` always gives at least one run, no run contains the separator, and there is more than one run iff the separator occurs. |
| `Text.JoinSplit` | main.py:100 | Joining the runs of a split with the separator gives the string back. |
| `Text.SplitJoin` | main.py:100 | Splitting a join of separator-free runs gives the runs back. |
| `Text.SplitSnoc` | main.py:100 | Appending a separator and a separator-free run adds exactly that run to the split. |
| `Text.StripSpec` | main.py:105 | The whitespace `int()` skips is removed only at the ends, and neither end of what is kept is whitespace. |
| `Text.LowerProperties` | main.py:122 | After `lower()` no upper-case ASCII letter is left, every other character is kept, and lower-casing twice gives the same string as once. `Toolbox.IsPdfPath` states what `lower().endswith('.pdf')` accepts. |
| `IntLexer.ParseIntAlphabet` | main.py:105 | Whatever `int()` accepts holds only whitespace, `+`, digits and `_`, and at least one digit. |
| `IntLexer.ParseShow` | main.py:91 | `int(str(n)) == n`, with or without a leading `+`. |
| `IntLexer.SeparatorNotSkipped` | main.py:105 | `int()` does not skip U+001C, so a token such as `"\x1c3"` fails. |
| `IntLexer.ParseIgnoresPadding` | main.py:105 | Surrounding whitespace does not change what `int()` reads, as in `" 3"`. |
| `IntLexer.Show` | main.py:91 | `str(n)` is a non-empty run of digits with no leading zero that denotes `n`. |
| `Sorting.Enumerate` | main.py:107 | The sorted list of a set's members within bounds is strictly ascending and holds exactly those members. |
| `Sorting.AscendingUnique` | main.py:107 | Two strictly ascending sequences with the same members are equal, so `sorted` over a set has one answer. |
| `Sorting.AscendingWithinBound` | main.py:107 | A strictly ascending sequence within `lo..hi` has at most `hi - lo + 1` elements. |
| `Toolbox.SplitPdf` | main.py:85-92 | A bad range yields the parser's error and no file. Otherwise there is one file per selected page, in ascending order. The file for page `p` is named `page_{p}.pdf` and holds exactly `pdf.pages[p-1]`, with `1 <= p <= len(pdf.pages)`, so every index is in bounds. The names are pairwise distinct. |
| `Toolbox.SplitNamesDistinct` | main.py:87-91 | Pages selected in strictly ascending order give pairwise distinct file names. |
| `Toolbox.PageFileNameInjective` | main.py:91 | Different pages are saved under different names. |
| `Toolbox.MergePdfs` | main.py:47-51 | The loop computes `MergeSpec`: the concatenation of all sources' pages in order, or the first source that cannot be opened. It succeeds iff every source opens. |
| `Toolbox.MergeContents` | main.py:49-51 | On success, one document is opened per path, each being that path's pages. The merge is their concatenation, and its length is the sum of their page counts. |
| `Toolbox.MergeFailsAtFirst` | main.py:49-50 | On failure, the error names the first path that cannot be opened, and every earlier path opens. |
| `Toolbox.ConcatLength` | main.py:49-51 | The merged document has as many pages as the sources together. |
| `Toolbox.ConcatIndex` | main.py:49-51 | Page `j` of source `i` sits at position `(pages of sources before i) + j`, so the sources' order and each source's page order are kept. |
| `Toolbox.MergeTwoExample` | main.py:47-51 | Merging a two-page and a three-page document gives the five pages in source order. |
| `PageRange.ClassifyPart` | main.py:101-105 | What one comma-separated token converts to: a page, a range, or the error `int()` or the unpacking raises. Its meaning is stated by `PageRange.ClassifyPartMeaning`, `ClassifyDigits`, `ClassifyDigitsSpan`, `ThreeHalvesFail` and `LeadingDashFails`. |
| `IntLexer.ParseInt` | main.py:102-105 | `int(text)` in base 10. Its meaning is stated by `IntLexer.ParseShow` (it reads `str(n)` back as `n`), `ParseIntAlphabet` (what it accepts) and `ParseIgnoresPadding` (surrounding whitespace is skipped). |
| `PageRange.Tokens` | main.py:100-105 | The tokens of the expression converted in order, or the first failure. Its meaning is stated by `PageRange.TokensSnoc` and, through `Traverse`, by `Results.TraverseSucceedsIff` and `TraverseFirstFailure`. |
| `PageRange.Covered` | main.py:99-105 | The union of the pages of the converted tokens. Its meaning is stated by `PageRange.CoveredMembers`. |
| `PageRange.ParseSpec` | main.py:99-107 | The specification of the parser. Its meaning is stated by `PageRange.ParseResultBounds`, `ParseMembership`, `ParseSucceedsIff`, `ParseFailsAtFirstBadToken` and `ParseIgnoresOrderAndRepetition`. |
| `Text.Strip` | main.py:102-105 | The whitespace `int()` skips around a number. Its meaning is stated by `Text.StripSpec`. |
| `Toolbox.PageFileName` | main.py:91 | The name `page_{n}.pdf`: it starts with `page_`, ends with `.pdf`, and holds `str(n)` between them. `Toolbox.PageFileNameInjective` shows that different pages get different names. |
| `Toolbox.Concat` | main.py:49-51 | The pages of several documents, one after another. Its meaning is stated by `Toolbox.ConcatLength` and `ConcatIndex`. |
| `Toolbox.MergeSpec` | main.py:47-51 | The specification of the merge loop. Its meaning is stated by `Toolbox.MergeContents`, `MergeFailsAtFirst` and `MergeTwoExample`. |
| `Toolbox.CompressedName` | main.py:130 | The suggestion `compressed_{filename}`: the prefix `compressed_` followed by the whole file name. `Toolbox.CompressedNameInjective` and `CompressedNameIsPdf` state what it keeps. |
| `Toolbox.IsPdfPath` | main.py:122 | `path.lower().endswith('.pdf')` holds iff the path ends in `.` followed by `p`, `d` and `f`, each in either case. |
| `Toolbox.CheckCompressInput` | main.py:118-124 | The file is accepted iff it exists and has a PDF name. A missing file is reported as missing even when its name is not a PDF name. |
| `Toolbox.CompressedNameInjective` | main.py:130 | Different inputs get different suggested names, and the suggestion never equals the input's own name. |
| `Toolbox.CompressedNameIsPdf` | main.py:122-130 | The suggested `compressed_` name of a PDF name is again a PDF name. |

## Left out

- The Tkinter window, buttons and main loop: user-interface plumbing.
- The file dialogs, the message boxes and the cancel branches. An empty answer
  to a dialog (no files, no range, no directory, no output path) makes the
  handler return. In split and merge every dialog comes before the modelled
  logic. In the compressor the input-file dialog comes before the two checks
  of `Toolbox.CheckCompressInput`, and the output-path dialog comes after them
  and after the `compressed_` name is formed. In particular, an empty page range never reaches the
  parser; the parser itself rejects `""`, as `PageRangeExamples.EmptyFails`
  shows.
- Turning an exception into an error message box. The model returns the
  failure as a `Result` instead.
- The PDF library. Pages and documents are abstract values, opening a file is
  the `open` parameter of `Toolbox.MergePdfs`, and saving is returning the
  file's name and pages.
- `Toolbox.SplitPdf`: a save that fails part-way is not modelled. The code
  leaves the files saved before it on disk; the model returns all files or
  the parser's error. Opening the source document is not modelled either:
  the method receives its pages.
- `Toolbox.MergePdfs`: a failing final `save` is not modelled. A source that
  fails to open is modelled.
- The `os.path` calls. `exists` is the `present` argument of
  `Toolbox.CheckCompressInput`. `basename` is not modelled:
  `Toolbox.CompressedNameInjective` starts from the base name. `dirname` and
  `join` are not modelled: the split's file names are given without the
  output directory.
- The compressor's save and its size report: file sizes and floating-point
  percentages.
- `Text.LowerProperties`: only the ASCII case mapping is modelled. No non-ASCII
  character lower-cases to `.`, `p`, `d` or `f`, so `Toolbox.IsPdfPath` is
  unaffected.
- `IntLexer.ParseInt`: non-ASCII digits and non-ASCII whitespace, which
  Python's `int()` also accepts, are not modelled. A leading `-` is not
  modelled either, because no text `int()` receives here can contain one.
- `IntLexer.ParseInt`: the limit of 4300 digits on converting a string to an
  `int` is not modelled. Python 3.11 and later (and the 3.7.14, 3.8.14,
  3.9.14 and 3.10.7 security releases) raise `ValueError` on a longer digit
  run; the model returns its value. The limit depends on the Python version
  and on `sys.set_int_max_str_digits`.
- `PageRange.ParsePageRange`: memory is not modelled. A huge range such as
  `1-99999999999` makes `pages.update(range(start, end + 1))` exhaust memory
  or run for a very long time; the model describes the set and returns its
  in-bounds members.
- `Sorting.Enumerate` computes `sorted` by scanning the bounds rather than
  with Python's sort. Only its result matters: `Sorting.AscendingUnique`
  shows that the ascending list of a set is unique.
