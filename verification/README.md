# PDF outline extraction, modelled in Dafny

This project models the core of a PDF outline extractor. For each PDF the
extractor produces a document with a `title` and an `outline` of headings.
Each heading is `{level, text, page}`, with the level written `H1`, `H2`, …

- **Title.** The metadata title comes first. When that is blank, the title
  is the text of the largest-font span on the first page. When no span
  qualifies, the title is the file's stem.
- **Blocks.** Every text block on every page becomes a record holding its
  page, its block number, its joined and stripped text, and its font size.
  The font size is the character-weighted mean of the sizes of its spans.
- **Headings.** A block is a heading when its font size is at least
  `mean + 0.5 * pstdev` of all block sizes.
- **Levels.** The distinct heading sizes, largest first, name the levels
  H1, H2, …
- **Order.** Headings are emitted in (page, block) order by a stable sort.
- **Helper modules.** Three small helpers are modelled as well:
  - the span classifier, which levels the `top_n` largest distinct sizes;
  - the JSON formatter's record builder;
  - the directory listing, which keeps names ending in `.pdf` in any case
    and sorts them.

The PDF library is replaced by plain datatypes:
- `Pdf` holds a name, an optional metadata title and pages;
- a `Page` holds raw blocks;
- a raw block is either a text block with lines of spans or a non-text
  block.

Some quantities are modelled as follows:
- Font sizes are reals.
- A missing span size counts as 0, as `span.get("size", 0)` does.
- The population standard deviation is passed in as `sd`. It is tied to
  the sizes by `IsPStdDev`: `sd >= 0` and `sd * sd` equals the population
  variance. Dafny has no square root.
- `str.strip` removes exactly the characters for which Python's
  `str.isspace` holds. `str.lower` is modelled over ASCII letters.
- Python's string order is compared code point by code point.
- Levels are positive naturals. They are rendered as `"H" + decimal` and
  parsed back.

Modules:
- `Wrappers`: `Option` and `Result`.
- `Text`: strip, lower, join and string order.
- `Stats`: mean, variance and shift.
- `Ranking`: distinct sizes in descending order, and rank.
- `Levels`: the `H<k>` names.
- `Extraction`: `extract_blocks`.
- `Title`: `_infer_title`, `Path.stem` and `extract_metadata`.
- `Outline`: `build_outline`, `build_document` and `process`.
- `Invariance`: invariance of the outline under a uniform shift of sizes.
- `Classifier`: `assign_levels`.
- `Formatter`: the formatter's `build_outline`.
- `Loader`: `list_pdfs`.

## Model

| member | source | states |
|---|---|---|
| Text.Strip | Challenge_1a/process_pdfs.py:33 | the result has no whitespace at either end and is no longer than the input |
| Text.StripIsTrimmedInfix | Challenge_1a/process_pdfs.py:33 | the stripped text is a contiguous piece of the input with only whitespace cut off before and after it |
| Text.StripEmptyIffAllSpace | Challenge_1a/process_pdfs.py:35 | a text strips to empty exactly when it is all whitespace, so the truthiness test rejects exactly the blank spans |
| Text.StripIdempotent | Challenge_1a/process_pdfs.py:62 | stripping twice is stripping once |
| Text.Lower | src/loader.py:5 | lower-casing keeps the length and maps each letter to its lower-case form |
| Text.Join | Challenge_1a/process_pdfs.py:58 | joining no parts gives ""; otherwise the length is the parts' total length plus one separator between each pair of neighbours |
| Text.JoinLayout | Challenge_1a/process_pdfs.py:58 | part `k` sits in the joined string after the parts before it, each followed by a separator, and a separator follows it unless it is the last part |
| Text.LessTotal | src/loader.py:6 | any two distinct names are ordered one way or the other, so the sort is well defined |
| Text.LessTransitive | src/loader.py:6 | the string order is transitive |
| Text.LessAsymmetric | src/loader.py:6 | no two names are each below the other |
| Stats.Mean | Challenge_1a/process_pdfs.py:89 | the mean taken once per element sums to the sum of the sizes |
| Stats.MeanWithin | Challenge_1a/process_pdfs.py:89 | the mean lies between any lower and upper bound of the sizes |
| Stats.PVariance | Challenge_1a/process_pdfs.py:90 | the population variance is never negative, and times the count it is the sum of squared deviations from the mean |
| Stats.VarianceZeroIffEqual | Challenge_1a/process_pdfs.py:90 | the population variance is 0 exactly when all elements are equal |
| Stats.PStdDevUnique | Challenge_1a/process_pdfs.py:90 | on a non-empty list only one non-negative `sd` has the variance as its square, so the `sd` parameter is what `pstdev` returns |
| Stats.ShiftMoments | Challenge_1a/process_pdfs.py:89-90 | adding a constant to every size adds it to the mean and leaves the population variance unchanged |
| Ranking.DistinctDesc | Challenge_1a/process_pdfs.py:97 | the distinct sizes come out strictly decreasing and hold exactly the values of the input |
| Ranking.DecreasingListingUnique | Challenge_1a/process_pdfs.py:97 | two strictly decreasing lists with the same members are equal, so `sorted(set, reverse=True)` has one answer |
| Ranking.Rank | Challenge_1a/process_pdfs.py:98 | the level `idx+1` of a size is a position in the list at which that size stands |
| Ranking.RankMonotone | Challenge_1a/process_pdfs.py:97-98 | a larger size gets a strictly smaller level number, and equal sizes get the same level |
| Ranking.RankOfDistinct | Challenge_1a/process_pdfs.py:97-98 | a size's level is one more than the number of distinct sizes strictly larger than it |
| Levels.LevelNameRoundTrip | Challenge_1a/process_pdfs.py:98 | `H<k>` parses back to `k` |
| Levels.LevelNameInjective | Challenge_1a/process_pdfs.py:98 | different levels get different names |
| Extraction.MeanFontSize | Challenge_1a/process_pdfs.py:64-71 | the size times the character count is the weighted sum of span sizes, and a block without characters has size 0 |
| Extraction.MeanFontSizeWithin | Challenge_1a/process_pdfs.py:64-71 | the block size lies between the least and the greatest size of its non-empty spans |
| Extraction.BlockText | Challenge_1a/process_pdfs.py:58-62 | the block text is the space-joined span texts with only whitespace cut from the two ends; it has no whitespace at either end, and it is empty exactly when the joined texts are all whitespace |
| Extraction.JoinedTextSpan | Challenge_1a/process_pdfs.py:58-61 | every span's text appears unchanged in the joined text at its offset, followed by a single space unless it is the block's last span |
| Extraction.TextBlocksAppend | Challenge_1a/process_pdfs.py:54-56 | skipping blocks without lines keeps the extractor's order: filtering a concatenation concatenates the filtered parts |
| Extraction.TextBlocksOne | Challenge_1a/process_pdfs.py:54-56 | a single block is kept exactly when it carries lines |
| Extraction.ExtractPage | Challenge_1a/process_pdfs.py:54-77 | a page yields one record per text block, skipping the others, each carrying the 1-based page number |
| Extraction.ExtractPageRecords | Challenge_1a/process_pdfs.py:72-77 | record `i` of a page is the record built from the page's `i`-th text block: its number, its joined text and its weighted size |
| Extraction.ExtractBlocks | Challenge_1a/process_pdfs.py:47-78 | the record count is the number of text blocks, and the page numbers lie in range and never decrease |
| Extraction.ExtractBlocksPage | Challenge_1a/process_pdfs.py:52-77 | the records for page `p+1` are exactly what page `p` yields on its own, in order |
| Title.InferTitle | Challenge_1a/process_pdfs.py:26-37 | the inferred title is empty exactly when no span has text and a positive size; otherwise it is the stripped text of the first span of the largest size |
| Title.LeaderUnique | Challenge_1a/process_pdfs.py:35-36 | only one span can be first with the largest size, so the title is determined |
| Title.BaseName | Challenge_1a/process_pdfs.py:44 | the name is the part of the path after its last '/', or the whole path when there is none |
| Title.Stem | Challenge_1a/process_pdfs.py:44 | the stem is the base name, or the base name cut before its last '.' when that dot is neither its first nor its last character; it is the whole base name only when no such cut exists |
| Title.StemOfPdfName | Challenge_1a/process_pdfs.py:44 | the stem of `dir/base.pdf` is `base` |
| Title.ExtractMetadata | Challenge_1a/process_pdfs.py:39-45 | a non-blank metadata title wins; otherwise the first page's title, then the stem; it fails exactly when there is no metadata title and no page |
| Title.TitleFromFirstPage | Challenge_1a/process_pdfs.py:42-44 | without a metadata title, and with a qualifying span on page 1, the title is the text of the first largest span |
| Title.TitleFallsBackToStem | Challenge_1a/process_pdfs.py:42-44 | without a metadata title and without any qualifying span on page 1, the title is the file's stem |
| Outline.Threshold | Challenge_1a/process_pdfs.py:89-91 | the threshold is never below the mean size, and equals it exactly when the variance is 0, that is, exactly when all sizes are equal |
| Outline.Admitted | Challenge_1a/process_pdfs.py:93 | every admitted block's size reaches the threshold |
| Outline.AdmittedAppend | Challenge_1a/process_pdfs.py:93 | the filter keeps the input order: filtering a concatenation concatenates the filtered parts |
| Outline.AdmittedWithKey | Challenge_1a/process_pdfs.py:93 | filtering by size and then selecting one (page, block) key gives the same blocks, in the same order, as selecting the key first |
| Outline.AdmittedCount | Challenge_1a/process_pdfs.py:93 | a block is admitted as often as it occurs when its size reaches the threshold, and never otherwise |
| Outline.SortByKey | Challenge_1a/process_pdfs.py:101 | the result ascends by (page, block) and is a permutation of the input |
| Outline.SortByKeyStable | Challenge_1a/process_pdfs.py:101 | blocks that share a (page, block) key keep their input order |
| Outline.BuildOutline | Challenge_1a/process_pdfs.py:80-107 | no blocks give an empty outline; otherwise there is one entry per admitted block |
| Outline.OutlineEntry | Challenge_1a/process_pdfs.py:100-106 | entry `i` copies the text and page of the `i`-th emitted block, with the rank of its size as level |
| Outline.OutlineMembership | Challenge_1a/process_pdfs.py:89-93 | a block is emitted, as often as it occurs, exactly when its size is at least `mean + 0.5 * sd` |
| Outline.OutlineOrder | Challenge_1a/process_pdfs.py:93-101 | the emitted blocks ascend by (page, block); the emitted blocks of one key are exactly that key's admitted blocks, in their order in the input blocks |
| Outline.OutlineLevels | Challenge_1a/process_pdfs.py:97-103 | level = 1 + the number of larger heading sizes; a larger size gets a smaller level, equal sizes the same level |
| Outline.OutlineLevelsCover | Challenge_1a/process_pdfs.py:97-98 | every level from H1 to the number of distinct heading sizes is used by some entry |
| Outline.OutlineTopLevel | Challenge_1a/process_pdfs.py:97-98 | a non-empty outline has an H1 entry, and it is a block of the largest size in the document |
| Outline.LopsidedHasNoHeading | Challenge_1a/process_pdfs.py:93-95 | nine blocks of size 10 and one of size 0 give mean 9 and deviation 3; the threshold of 10.5 admits nothing, so the outline is empty even though the blocks are not |
| Outline.TwoSizesOutline | Challenge_1a/process_pdfs.py:80-107 | with one 24-point "Introduction" block and one 12-point body block on page 1, the outline is exactly H1 "Introduction" on page 1 |
| Outline.BuildDocument | Challenge_1a/process_pdfs.py:109-118 | the document carries the given title, and an outline with one entry per admitted block |
| Outline.Process | Challenge_1a/process_pdfs.py:120-125 | processing fails exactly when the metadata step fails; otherwise the title is the metadata title, and a PDF with no text block gets an empty outline |
| Outline.DegenerateDocument | Challenge_1a/process_pdfs.py:120-125 | a PDF whose pages hold no text and whose metadata title is blank gives its stem as title and an empty outline |
| Invariance.AdmittedRaise | Challenge_1a/process_pdfs.py:93 | raising all sizes and the threshold by the same amount admits the same blocks |
| Invariance.SortRaise | Challenge_1a/process_pdfs.py:101 | sorting by (page, block) commutes with raising every size by the same `c` |
| Invariance.DistinctShift | Challenge_1a/process_pdfs.py:97 | the distinct sizes of shifted sizes are the shifted distinct sizes |
| Invariance.RankShift | Challenge_1a/process_pdfs.py:98 | shifting all sizes keeps every size's level |
| Invariance.OutlineShiftInvariant | Challenge_1a/process_pdfs.py:86-107 | adding the same constant to every block's font size leaves the outline unchanged, entry for entry |
| Classifier.CommonSizes | src/classifier.py:4-5 | the kept sizes are the largest `min(top_n, #distinct)` distinct sizes, strictly decreasing |
| Classifier.AssignLevels | src/classifier.py:3-20 | `top_n` defaults to 3; no spans, or `top_n` of 0, give an empty outline |
| Classifier.DefaultAtMostThreeLevels | src/classifier.py:3-9 | with the default `top_n` every assigned level is H1, H2 or H3 |
| Classifier.AssignLevelsIsSubsequence | src/classifier.py:11-19 | the outline follows the input spans in order; a span appears exactly when its size is kept, with its text, page and the rank of its size |
| Classifier.KeptIff | src/classifier.py:4-5 | a span's size is kept exactly when fewer than `top_n` distinct sizes are larger |
| Classifier.LevelIsRank | src/classifier.py:7-9 | a kept span's level is one more than the number of distinct larger sizes, and at most the number of kept sizes |
| Classifier.LevelMonotone | src/classifier.py:7-9 | a larger size gets a smaller level number, and equal sizes the same level |
| Classifier.LargestIsH1 | src/classifier.py:7-9 | when `top_n >= 1`, a span of the largest size is kept, at H1 |
| Formatter.TitleOrEmpty | src/formatter.py:5 | a present, non-empty title is kept; a missing or empty one becomes "" |
| Formatter.Items | src/formatter.py:6-8 | one item per heading, in order, with its level, text and page |
| Formatter.BuildRecord | src/formatter.py:3-9 | `title` defaults to none; the record's title is the given title when it is present and non-empty and "" otherwise, and its outline has one item per heading, in order, holding that heading's level, text and page |
| Formatter.RecordIgnoresExtra | src/formatter.py:7 | headings that agree on level, text and page give the same record, whatever other keys they carry |
| Formatter.RecordKeepsEntries | src/formatter.py:6-8 | formatting outline entries loses nothing: each item's level parses back to the entry's level, and text and page are unchanged |
| Loader.PdfNames | src/loader.py:5 | every kept name ends in ".pdf" in any case |
| Loader.PdfNamesCount | src/loader.py:5 | a name is kept as often as it occurs exactly when it ends in ".pdf" in any case |
| Loader.Sort | src/loader.py:6 | the result is sorted in Python's string order and is a permutation of the input |
| Loader.ListPdfs | src/loader.py:3-6 | the result is sorted and is a permutation of the PDF names |
| Loader.ListPdfsCount | src/loader.py:5-6 | the listing holds each PDF name as often as the directory does, and nothing else |
| Loader.SortedUnique | src/loader.py:6 | two sorted lists with the same elements are equal, so the sorted listing is unique |
| Loader.ListPdfsOrderFree | src/loader.py:3-6 | the order in which the directory lists its entries does not change the result |
| Loader.ListPdfsIdempotent | src/loader.py:3-6 | listing an already listed directory gives the same list |

## Left out

- Reading PDFs with PyMuPDF (`fitz.open`, `load_page`, `get_text("dict")`). Their output is the `Pdf`/`Page`/`RawBlock` input datatypes, and the span order is taken as given.
- Schema validation with `jsonschema`, JSON serialisation, writing output files, timing and console messages in `process`: these are I/O.
- `main`: the glob and sort over the input directory, and the process pool. Parallelism does not affect the per-file result.
- `src/analyzer.py` and `src/cli.py` are not part of this model.
- Stats.IsPStdDev: the standard deviation is a parameter tied to the variance by `sd * sd == variance`, instead of being computed. Floating-point rounding in `statistics.mean`/`pstdev` and in the weighted mean is not modelled: sizes are exact reals.
- Text.Lower: lower-cases ASCII letters only.
- Title.Stem: handles paths split on `/` only, and does not normalise paths as `pathlib` does.
- Classifier.AssignLevels: `top_n` is a natural number. A negative `top_n`, which Python's slice would treat as "all but the last", is not modelled.
- A size floor, textual heading overrides, noise filtering, deduplication and separator-free joining for dense scripts: the modelled code has none of them, so the model has none.
