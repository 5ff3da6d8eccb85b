# visioscreen-pdf-to-png, modelled in Dafny

The repository holds two Streamlit pages that turn the pages of an uploaded
PDF into PNG images. Each page image is cut into four horizontal bands.

- `main.py` resizes every band to the requested size. It can pack the bands
  of all pages into one ZIP archive, or offer the bands of the selected pages
  one by one as download buttons.
- `Hello.py` first resizes the whole page to the requested size and then cuts
  it into bands. So its bands have the requested width but a quarter of the
  requested height. It only offers the bands of the selected pages.

Both pages read the selection from a text such as `1,3,5` or `2-4` with the
same function, `parse_pages_input`.

The model has six modules, one per file:

- `Builtins` (`builtins.dfy`) models the Python built-ins the code relies on:
  - `str.split` with a one-character separator;
  - `int()` on text: the surrounding whitespace it skips (space, tab, line
    feed, vertical tab, form feed, carriage return), an optional sign, ASCII
    digits;
  - `str()` of an integer;
  - `range`, `min` and `max` of a list, `zip`, a dictionary built from pairs,
    and `list(set(...))`.
- `PageRange` (`page_range.dfy`) defines the meaning of a selection text:
  - `ParseToken` gives what one comma-separated token selects, or why it is
    rejected;
  - `ParseTokens` and `Parse` take the tokens left to right, and the first
    rejected token stops the parse.
- `Imaging` (`imaging.dfy`) treats an image as its size plus its provenance:
  rendered page, crop or resize. It defines the four crop boxes and
  `divide_image`.
- `Packaging` (`packaging.dfy`) covers what the user receives:
  - a `ZipArchive` class whose `WriteStr` appends an entry;
  - entry names and download file names;
  - the dictionary from page numbers to rendered pages;
  - the list of download buttons the selected-pages flows offer.
- `MainApp` (`main_app.dfy`) holds the procedures of `main.py` as methods with
  loops. Each is proved against a function of `Packaging` or `Imaging`, or
  against `PageRange.Parse`.
- `HelloApp` (`hello_app.dfy`) holds the procedures of `Hello.py`.

The two copies of `parse_pages_input` (`MainApp.ParsePagesInput` and
`HelloApp.ParsePagesInput`) are proved against the same specification,
`PageRange.Parse`. So for every text and page count, they return the same
pages and show the same error.

The user sees one of two error messages:

- `OutOfRange`: a page number is too large, or a single page is below 1.
- `InvalidFormat`: a `ValueError` was raised. This happens for a token that is
  not an integer, or for a hyphenated token that does not split into exactly
  two integers.

The message text itself is not modelled, only which of the two is shown.

The model follows the code in two cases that a reader might expect the
parser to reject:

- A range's start is never checked against 1, so `0-2` selects pages 0, 1
  and 2.
- A reversed range such as `5-3` selects nothing and is not an error.

Both are stated as properties (`PageRange.ParsedPagesBounded`,
`PageRange.RangeToken`).

## Model

| member | source | states |
|---|---|---|
| `Builtins.Split` | main.py:31 | `s.split(sep)` has one field more than `s` has separators, and no field contains the separator |
| `Builtins.SplitJoin` | main.py:31 | joining the fields with the separator gives back the text, so splitting loses nothing |
| `Builtins.SplitPair` | main.py:33 | two separator-free texts joined by one separator split into exactly those two fields |
| `Builtins.ParseInt` | main.py:33-40 | `int(text)`: the text less the whitespace `int()` skips must be an optional sign and one or more ASCII digits, read in base 10; any other text is a `ValueError` (`None`) |
| `Builtins.ParseIntOfNatToString` | main.py:40 | `int()` reads the decimal text of `n`, with spaces, tabs, line feeds, vertical tabs, form feeds or carriage returns around it, as `n` |
| `Builtins.ParseIntOfNat` | main.py:40 | `int(str(n)) == n` for every natural number |
| `Builtins.ParseIntNonNegative` | main.py:33 | text without a minus sign never reads as a negative integer |
| `Builtins.ParseIntNeedsDigit` | main.py:40 | text without a decimal digit is never an integer (`ValueError`) |
| `Builtins.ParseIntBadLead` | main.py:40 | text whose first character is not whitespace `int()` skips, a sign or a digit is a `ValueError`; this includes the separators `\x1c`-`\x1f`, although `str.isspace` holds for them |
| `Builtins.NatToString` | main.py:61 | the decimal text of `n` is a run of digits whose base-10 value is `n` |
| `Builtins.NatToStringCanonical` | main.py:61 | the decimal text of `n` starts with `0` exactly when `n` is 0, so it is the one digit run without leading zeros that `str(n)` gives |
| `Builtins.NatToStringInjective` | main.py:61 | different numbers have different decimal texts |
| `Builtins.Range` | main.py:38 | `range(lo, hi)` holds exactly the integers in [lo, hi), ascending, one per position; it is empty when `hi <= lo` |
| `Builtins.SeqMin` | main.py:101 | `min(selected_pages)` is one of the pages and no page is smaller |
| `Builtins.SeqMax` | main.py:102 | `max(selected_pages)` is one of the pages and no page is larger |
| `Builtins.Zip` | main.py:104 | `zip(xs, ys)` pairs the elements at equal positions and stops at the end of the shorter list |
| `Builtins.DictOf` | main.py:103-104 | the dictionary comprehension over pairs: each pair's key maps to its value, and a later pair overwrites an earlier one with the same key |
| `Builtins.DictOfDistinctKeys` | main.py:103-104 | a dictionary built from pairs with distinct keys has exactly their keys, each mapped to its own value |
| `Builtins.Dedup` | main.py:46 | `list(set(pages))` has no duplicates and holds exactly the elements of `pages` |
| `PageRange.ParseToken` | main.py:32-45 | one token: with a hyphen it must split into exactly two integers, out of range when either exceeds the page count, otherwise the pages from start to `min(end, max)`; without a hyphen it must be an integer in [1, max]; a failed `int()` or unpacking is a format error |
| `PageRange.ParseTokens` | main.py:30-45 | the tokens taken left to right: the first rejected token's error ends the parse, otherwise each token's pages are added |
| `PageRange.Parse` | main.py:28-49 | the selection of a whole text is that of its comma-separated tokens |
| `PageRange.HyphenToken` | main.py:32-38 | a hyphenated token whose two fields are the integers `start` and `end` is out of range when either exceeds the page count, and otherwise selects `start` up to `end` |
| `PageRange.ParseTokensStep` | main.py:31-45 | one more token extends the selection by its pages, or stops the parse with its error |
| `PageRange.ParseTokensExtend` | main.py:38 | the loop's list still denotes the selection of the tokens read so far after it is extended with the token's pages |
| `PageRange.ParseTokensFail` | main.py:34-37 | a token rejected after accepted ones makes the whole parse fail with that token's error |
| `PageRange.ParseTokensStop` | main.py:47-49 | once a prefix of the tokens is rejected, the whole parse is rejected with the same error |
| `PageRange.TokenResultsLast` | main.py:31 | the outcomes of the tokens are those of all but the last token, followed by the last token's outcome |
| `PageRange.ParseTokensIsCombine` | main.py:30-49 | the left-to-right parse equals the combination of all token outcomes, where the first error wins and otherwise the pages are joined |
| `PageRange.CombineSnoc` | main.py:31-45 | appending an outcome to accepted outcomes either adds its pages or gives its error |
| `PageRange.CombineErrPrefix` | main.py:47-49 | outcomes after the first error do not change the result |
| `PageRange.CombineOkIff` | main.py:30-49 | the combination succeeds if and only if every token succeeds |
| `PageRange.CombineFirstError` | main.py:30-49 | the combination's error is that of the first rejected token |
| `PageRange.CombineUnion` | main.py:31-46 | on success, a page is selected if and only if some token selects it |
| `PageRange.ParseTokensAllOrNothing` | main.py:30-49 | all or nothing: the parse succeeds if and only if every token does; otherwise the error of the first rejected token is reported, even after valid tokens |
| `PageRange.ParseTokensUnion` | main.py:31-46 | on success the selection is the union of the tokens' pages |
| `PageRange.ParseTokensOrderIndependent` | main.py:31-46 | token lists with the same tokens, in any order or repeated, both succeed or both fail, and on success select the same pages; the error reported may differ |
| `PageRange.OrderDecidesError` | main.py:31-49 | the first rejected token's error is shown, so `a,20` is a format error and `20,a` is out of range for ten pages |
| `PageRange.TokenPagesBounded` | main.py:32-45 | each page a token selects lies in [0, max], and a single page lies in [1, max] |
| `PageRange.ParsedPagesBounded` | main.py:28-49 | every selected page lies in [0, max] (a range may start at 0) |
| `PageRange.RangeToken` | main.py:33-38 | `"a-b"` over decimal numbers is out of range when either bound exceeds max, and otherwise selects a up to b; a reversed range selects nothing and is not an error |
| `PageRange.SingleToken` | main.py:40-45 | a decimal page number is accepted exactly when it lies in [1, max] |
| `PageRange.ExtraHyphenRejected` | main.py:33 | a token with two or more hyphens (`1-2-3`) is a format error |
| `PageRange.EmptyFieldRejected` | main.py:33-40 | a range with an empty side (`-3`, `1-`) and the empty token are format errors |
| `PageRange.NoDigitRejected` | main.py:40 | a hyphen-free token without a digit (`a`) is a format error |
| `PageRange.StrayLeadRejected` | main.py:40 | a hyphen-free token that starts with anything but skipped whitespace, a sign or a digit (`a5`, `\x1c5`) is a format error |
| `PageRange.SeparatorThenDigitRejected` | main.py:40-49 | the token `"\x1c5"` is a format error, not page 5 |
| `Imaging.Crop` | main.py:14 | a crop is the size of its box |
| `Imaging.Resize` | main.py:16 | a resize has the requested size |
| `Imaging.BandBox` | main.py:10-14 | crop box i is `(0, h*i, width, h*(i+1))` with `h = height // 4` |
| `Imaging.DividedAndResized` | main.py:8-18 | the four bands of the image in order, each resized to the requested size |
| `Imaging.DivideImage` | Hello.py:9-13 | `divide_image` returns four parts; part i is as wide as the image, `height // 4` high, and cropped from box i |
| `Imaging.BandsTile` | main.py:9-14 | the four boxes span the full width, start at row 0 and are contiguous; they end inside the image, and the `height % 4 < 4` rows below them are dropped |
| `Imaging.RowInBand` | main.py:10-14 | a row lies in band i if and only if it is above the dropped rows and i is the row divided by the band height |
| `Imaging.BandsDisjoint` | main.py:12-14 | two different bands share no row |
| `Imaging.DividedAndResizedParts` | main.py:8-18 | every part of `divide_and_resize_image` has the requested size, and part i is band i resized |
| `Imaging.ResizeThenDivideParts` | Hello.py:78-82 | resizing before dividing gives parts of the requested width and a quarter of the requested height |
| `Packaging.ZipArchive.constructor` | main.py:55-56 | a new archive is empty |
| `Packaging.ZipArchive.WriteStr` | main.py:61 | `writestr` appends one entry with that name and content, and leaves the others alone |
| `Packaging.EntryName` | main.py:61 | archive entry `i` is named `page_{prefix}_part_{i}.png` |
| `Packaging.ZipEntries` | main.py:57-61 | the archive holds one entry per part, in order; entry i is named `page_{prefix}_part_{i+1}.png` and holds part i |
| `Packaging.EntryNameInjective` | main.py:61 | different indices give different entry names |
| `Packaging.ZipEntryNamesDistinct` | main.py:57-61 | no two entries of the archive share a name |
| `Packaging.PartFileName` | main.py:116 | the download of part `j` of page `p` is named `page_{p}_part_{j}.png` |
| `Packaging.PageLinks` | main.py:114-117 | one button per part; button j offers part j as `page_{p}_part_{j+1}.png` |
| `Packaging.OfferParts` | main.py:114-117 | the inner loop offers exactly the buttons `PageLinks` lists, in order |
| `Packaging.PartsOf` | Hello.py:78-82 | a page gives four parts of the requested width, full height when divided first and a quarter of it when resized first |
| `Packaging.PageWindow` | main.py:101-104 | `processed_pages`: the numbers from the smallest to the largest selected page, zipped with the rendered images, as a dictionary |
| `Packaging.PageWindowContents` | main.py:101-104 | page p is a key of `processed_pages` if and only if it lies between the smallest and largest selected page and has a rendered image; then it maps to image `p - min` |
| `Packaging.NumberedImages` | Hello.py:70-71 | the dictionary built from `zip(range(first, stop), images)` is cut off at the shorter of the two and maps `first + i` to image i |
| `Packaging.NumberedPairs` | main.py:103-104 | pair i of `zip(range(first, stop), images)` is `(first + i, images[i])` |
| `Packaging.Found` | main.py:106-107 | the pages the loop handles are selected pages that are keys of the dictionary |
| `Packaging.FoundComplete` | main.py:106-107 | every selected page that is a key of the dictionary is handled, so with `Found` a page is handled exactly when it is selected and a key |
| `Packaging.FoundAppend` | main.py:106-107 | the handled pages keep the selection's order: those of a selection in two parts are those of the first part followed by those of the second |
| `Packaging.FoundSingle` | main.py:106-107 | a single selected page is handled exactly when it is a key |
| `Packaging.SelectedLinks` | main.py:106-117 | the buttons of the selected-pages loop: for each selected page in the dictionary, in selection order, the buttons of its four parts |
| `Packaging.SelectedLinksLayout` | main.py:106-117 | each selected page found in the dictionary gives four buttons; button `4k+j` offers part `j+1` of the k-th found page |
| `Packaging.FoundAll` | main.py:106-107 | when every selected page is a key, every selected page is handled, in order |
| `Packaging.WindowCoversSelection` | main.py:101-104 | every selected page is a key exactly when there is an image for every page from the smallest to the largest selected one |
| `MainApp.ParsePagesInput` | main.py:28-49 | returns distinct pages that are exactly the selection `PageRange.Parse` gives, or `[]` with the error it reports |
| `MainApp.DivideAndResizeImage` | main.py:8-18 | returns the four bands of the image, each resized to the requested size |
| `MainApp.CreateDownloadZip` | main.py:54-63 | returns a new archive whose entries are `ZipEntries(prefix, parts)` |
| `MainApp.AllPageParts` | main.py:87-90 | the bulk list: the divided and resized parts of every page, page after page |
| `MainApp.AllPagePartsLayout` | main.py:87-90 | the bulk list has four parts per page in page order; part `4k+j` is part j of page k |
| `MainApp.CollectAllParts` | main.py:87-90 | the bulk loop collects the divided and resized parts of every page, 4 per page |
| `MainApp.ProcessAllPages` | main.py:84-97 | the bulk button gives an archive of all parts with prefix `all_pages`, offered as `all_pages_parts.zip` |
| `MainApp.AllPagesEntry` | main.py:87-93 | entry `4k+j` of the bulk archive is named with index `4k+j+1` (not reset per page) and holds band j of page k, resized; all names are distinct |
| `MainApp.ProcessSelectedPages` | main.py:99-117 | the selected-pages button offers exactly the buttons `SelectedLinks` lists for the page dictionary, with bands resized after division |
| `HelloApp.ParsePagesInput` | Hello.py:23-42 | the second copy meets the same specification as the first, so the two agree on every text |
| `HelloApp.ProcessSelectedPages` | Hello.py:65-88 | the button offers exactly the buttons `SelectedLinks` lists for the page dictionary, with each page resized before division |
| `HelloApp.SameButtonsOtherHeight` | Hello.py:78-88 | for the same selection, both pages offer the same buttons under the same file names with parts of the requested width; the parts here are a quarter of the requested height, and in `main.py` the full height |

## Left out

- The Streamlit user interface is not modelled: titles, text and number
  inputs, buttons, `st.image`, `st.error` and its message text, and the
  `st.markdown` styling. Inputs become parameters. An error becomes the
  `Option<ParseError>` the parser returns.
- Reading the PDF is not modelled. The page count from `PyPDF2` and the images
  from `pdf2image.convert_from_bytes` are parameters. Which pages the
  rasterizer renders for a given `first_page`/`last_page`, including a first
  page of 0, is left to the caller: the images are taken as given.
- Pixels are not modelled. PNG encoding, the ZIP byte format, `ZIP_DEFLATED`
  compression and buffer seeking are left out. An image is its size and its
  provenance, and an archive entry holds the image it encodes.
- `ZipArchive.WriteStr` does not model the duplicate-name warning of
  `writestr`, because the names it receives are proved distinct.
- `Builtins.ParseInt` covers ASCII text only: the six whitespace characters
  `int()` skips and ASCII digits. It leaves out underscores between digits,
  non-ASCII digits and whitespace, which `int()` converts first, and the limit
  on the number of digits `int()` accepts.
- `Builtins.Dedup` keeps first occurrences in order. Python's `list(set(...))`
  order depends on hashing, so the contracts state only that the list is
  duplicate-free with the same elements.
- Requested sizes are natural numbers. Negative or zero sizes, which PIL would
  reject, are not modelled.
- The early `return` when the selection is empty is a precondition of the
  selected-pages procedures (`selectedPages != []`), because `min` and `max`
  of an empty list are never reached.
