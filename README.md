# MistralOCR converter: a verified model of response assembly

`tomarkdown.py` is a Tkinter desktop program. It uploads a PDF to Mistral's OCR
service and shows the result as Markdown and as HTML. This project models the part
of that program that is plain string and sequence manipulation:

- **Placeholder resolution** (`replace_images_in_markdown`). The OCR markdown of a
  page refers to its images as `![id]()`. Each id of the page's dict, in insertion
  order, has all of its placeholders rewritten by Python `str.replace` to
  `![id](data:image/png;base64,<payload>)`. This is modelled in `placeholders.dfy`,
  on top of a model of `str.replace`, `str.split` and `str.join` in `strings.dfy`.
- **Page assembly** (`get_combined_markdown`). For each page, a fresh dict from
  image id to payload is filled from that page's images; a later image with the
  same id overwrites the earlier one. The page is resolved against that dict, and
  the pages are joined with `"\n\n"`. The OCR response and the Python dict are in
  `ocr.dfy`; the assembly is in `assembly.dfy`.
- **HTML wrapping** (`update_result`). The converted fragment is placed between
  two fixed texts twice: once for a standalone page that loads MathJax, once for
  the in-app preview, which does not. The templates are in module `Templates` and
  the pages in module `Render`, both in `render.dfy`.
- **The window** (`app.dfy`). The `ConverterApp` class holds the values the widgets
  and attributes hold:
  - how `start_conversion` refuses to start without an API key or a PDF path
  - how `browse_pdf` keeps the old path when the dialog is cancelled
  - how the end of `convert_pdf` records an error or shows the assembled result

`replace_images_in_markdown` and `get_combined_markdown` are written as loops over
the dict and over the pages. They are modelled as methods with loop invariants,
each proved equal to a specification function (`Resolve`, `Assemble`); the
properties are proved about those functions. `ResolveAround` fixes what
`Resolve` does around each placeholder: the placeholder is replaced, or kept, in its
own place, and the text on either side is resolved on its own. `str.replace` is defined
recursively as `ReplaceAll`. It is related to an independent characterisation: the
leftmost non-overlapping split of the text at the pattern, joined with the
replacement.

The converter `markdown.markdown` is the class's `toHtml` constant. It is an
arbitrary function from text to text, and nothing about it is assumed.

## Model

| member | source | states |
|---|---|---|
| Strings.ReplaceAll | tomarkdown.py:318 | `str.replace` leaves a text without the pattern unchanged |
| Strings.ReplaceAllSkips | tomarkdown.py:318 | a prefix in which no occurrence of the pattern begins passes through `str.replace` untouched |
| Strings.SplitIsLeftmost | tomarkdown.py:318 | `split` cuts at the leftmost copies: joined by the pattern the parts rebuild the text, and no copy of the pattern starts inside a part |
| Strings.LeftmostSplitUnique | tomarkdown.py:318 | a text has only one leftmost split at a pattern |
| Strings.ReplaceAllJoinsSplit | tomarkdown.py:318 | `s.replace(p, r)` equals `r.join(s.split(p))` |
| Strings.ReplaceAllSpec | tomarkdown.py:318 | replacing equals joining any leftmost split with the replacement |
| Strings.ReplaceAllConcat | tomarkdown.py:318 | replacing in a concatenation replaces in each part, when no copy of the pattern straddles the seam |
| Strings.ReplaceAllInserts | tomarkdown.py:318 | a text that holds the pattern holds the replacement afterwards |
| Strings.ContainsAfterReplace | tomarkdown.py:318 | a text that cannot overlap the replacement is found after replacing only if it was found before and is not the pattern |
| Strings.ContainsKeptByReplace | tomarkdown.py:318 | a text that cannot overlap the pattern survives the replacement |
| Strings.SplitWithoutSeparator | tomarkdown.py:318 | a text without the separator splits into itself alone |
| Strings.SplitAfterFirst | tomarkdown.py:318 | the split cuts at the first separator and continues after it |
| Strings.JoinLayout | tomarkdown.py:329 | in a join each part sits at its offset, and consecutive parts are one separator apart |
| Strings.JoinAppend | tomarkdown.py:329 | joining one more part appends the separator and that part |
| Ocr.Lookup | tomarkdown.py:324-326 | what the dict these lines fill maps a key to (the source itself never reads it by key): a value exactly when the key has an entry, and then that entry's value |
| Ocr.Assign | tomarkdown.py:326 | `d[k] = v` appends a new key, and rewrites only the slot of an existing key |
| Ocr.LookupAppend | tomarkdown.py:326 | an entry added last is found only for a key that had no entry before |
| Ocr.LookupEntry | tomarkdown.py:324-326 | in a dict without repeated keys each entry is what its key maps to |
| Ocr.AssignLookup | tomarkdown.py:326 | after `d[k] = v`, looking up `k` gives `v` and every other key its old value |
| Ocr.AssignKeepsEntries | tomarkdown.py:326 | `d[k] = v` adds no entry but `(k, v)`; every other entry was already in the dict |
| Ocr.AssignKeys | tomarkdown.py:326 | after `d[k] = v` a key has an entry exactly when it had one before or is `k` |
| Ocr.AssignDistinct | tomarkdown.py:326 | `d[k] = v` on a dict without repeated keys repeats no key |
| Ocr.FromImagesDistinct | tomarkdown.py:324-326 | a page's dict repeats no id |
| Ocr.FromImagesEntries | tomarkdown.py:324-326 | every entry of a page's dict is one of the page's images |
| Ocr.FromImagesCovers | tomarkdown.py:324-326 | every image id of the page has an entry in its dict |
| Ocr.FromImagesKeys | tomarkdown.py:324-326 | a page's dict repeats no id, holds only the page's images, and has an entry for every image id |
| Ocr.LookupLastImage | tomarkdown.py:324-326 | the last image decides its own id, and the earlier images decide every other id |
| Ocr.LastImageWins | tomarkdown.py:324-326 | with duplicate ids, the last image's payload is the one kept |
| Ocr.AbsentIdHasNoEntry | tomarkdown.py:324-326 | an id that no image carries has no entry |
| Placeholders.PlaceholderShape | tomarkdown.py:316 | the layout of `![id]()`, whose only `[` is at position 1 |
| Placeholders.ReplacementShape | tomarkdown.py:317 | the layout of `![id](data:image/png;base64,payload)`, whose only `[` is at position 1 |
| Placeholders.PlaceholderMeetsReplacement | tomarkdown.py:316-317 | no placeholder can begin inside a replacement, and no replacement can begin inside a placeholder |
| Placeholders.DistinctPlaceholders | tomarkdown.py:316 | placeholders of different ids cannot overlap |
| Placeholders.ReplaceImagesInMarkdown | tomarkdown.py:313-319 | the loop over `images_dict.items()` computes the fold of `str.replace` over the entries in order |
| Placeholders.ResolveAddsNoPlaceholder | tomarkdown.py:314-319 | resolution creates no placeholder that was not there before |
| Placeholders.ResolveRemovesPlaceholders | tomarkdown.py:314-319 | no placeholder of an id in the dict remains |
| Placeholders.ResolveWithoutPlaceholders | tomarkdown.py:314-319 | a text with no placeholder of a dict id, and so any text under an empty dict, is returned unchanged |
| Placeholders.ResolveIdempotent | tomarkdown.py:314-319 | resolving twice with the same dict gives the result of resolving once |
| Placeholders.ResolveAround | tomarkdown.py:314-319 | each placeholder is resolved where it stands: the text before and after it is resolved on its own, and the placeholder becomes the replacement with the payload the dict maps its id to, or stays when the id has no entry |
| Placeholders.PlaceholderReplacedInPlace | tomarkdown.py:314-319 | a placeholder of a dict id (keys distinct) becomes that entry's replacement in its own place, with the surrounding text resolved around it |
| Placeholders.UnknownPlaceholderInPlace | tomarkdown.py:314-319 | a placeholder of an id without an entry stays in its own place, with the surrounding text resolved around it |
| Placeholders.UnknownPlaceholderKept | tomarkdown.py:314-319 | a text holding a placeholder of an id missing from the dict still holds one afterwards |
| Placeholders.PlaceholderResolved | tomarkdown.py:314-319 | a text holding a placeholder of a dict id holds that entry's replacement afterwards |
| Placeholders.ResolveExample | tomarkdown.py:315-318 | `"See ![fig1]()"` with `{fig1: "AAAA"}` gives `"See ![fig1](data:image/png;base64,AAAA)"` |
| Assembly.CollectImages | tomarkdown.py:324-326 | the inner loop fills exactly the page's dict, in image order |
| Assembly.MarkdownOfPage | tomarkdown.py:324-327 | one turn of the outer loop gives the page's markdown resolved against its own images |
| Assembly.GetCombinedMarkdown | tomarkdown.py:321-329 | the nested loops compute the pages' resolved texts joined with `"\n\n"` |
| Assembly.AssembleLayout | tomarkdown.py:327-329 | the first page starts at 0, each page's text sits in its slot, exactly `"\n\n"` lies between neighbours, and the text ends with the last page; so a page's slot depends on that page alone, not on its neighbours' images |
| Assembly.AssembleEmpty | tomarkdown.py:329 | no pages give `""` |
| Assembly.AssembleSingle | tomarkdown.py:329 | one page gives just its resolved text |
| Assembly.AssembleAppend | tomarkdown.py:327-329 | one more page adds `"\n\n"` and its resolved text at the end |
| Assembly.TwoPagesExample | tomarkdown.py:327-329 | `"Page1 text"` and `"Page2 text"` assemble to `"Page1 text\n\nPage2 text"` |
| Assembly.FromImagesWellFormed | tomarkdown.py:324-326 | a page whose ids and payloads hold no brackets gives a dict of the same kind |
| Assembly.ForeignPlaceholderInPlace | tomarkdown.py:323-327 | a placeholder whose id is not among its own page's images stays in its place, with the page's text on either side resolved on its own |
| Assembly.OwnPlaceholderInPlace | tomarkdown.py:323-327 | a placeholder of one of the page's image ids becomes, in its place, the reference to the payload of the last image with that id |
| Assembly.ForeignPlaceholderKept | tomarkdown.py:323-327 | a page holding a placeholder whose id is not among its own images still holds one in its slot of the result |
| Assembly.OwnPlaceholdersRemoved | tomarkdown.py:323-327 | no placeholder of an id among the page's images stays |
| Assembly.OwnPlaceholderResolved | tomarkdown.py:323-327 | a page holding a placeholder of an image id holds the reference to the last such image's payload afterwards |
| Render.Between | tomarkdown.py:261-309 | a page found to lie between a head and a tail is exactly that head, the middle and that tail |
| Render.FragmentRecovered | tomarkdown.py:261-309 | both pages are a fixed head, the unchanged fragment and a fixed tail |
| Render.StandaloneLoadsMathJax | tomarkdown.py:261-294 | the standalone head, and so every standalone page, contains the MathJax script URL |
| Render.PreviewPartsLackUrl | tomarkdown.py:297-309 | neither fixed part of the preview contains the MathJax URL, and no copy of it can begin in the head |
| Render.PreviewLoadsNoMathJax | tomarkdown.py:297-309 | the preview contains the MathJax URL exactly when the fragment does |
| App.ConverterApp.constructor | tomarkdown.py:47-113 | empty key, path and results, status "Ready", the preview's initial page, no dialogs and no worker |
| App.ConverterApp.EnterApiKey | tomarkdown.py:67 | typing into the key field changes only the key |
| App.ConverterApp.BrowsePdf | tomarkdown.py:173-178 | a chosen file replaces the path, a cancelled dialog keeps it, nothing else changes |
| App.ConverterApp.StartConversion | tomarkdown.py:180-195 | a worker starts exactly when key and path are both non-empty; otherwise the matching error dialog is shown and status, text and workers are unchanged |
| App.ConverterApp.ShownPages | tomarkdown.py:255-309 | a window that shows a text has the fragment between both pages' fixed parts, a standalone page that loads MathJax, and a preview that mentions MathJax only when the fragment does |
| App.ConverterApp.UpdateResult | tomarkdown.py:249-309 | the window shows the content: the text widget holds it and both pages wrap its converted fragment; only those three fields change |
| App.ConverterApp.FinishConversion | tomarkdown.py:231-239 | the assembled markdown is kept and shown, and the status becomes "Conversion completed" |
| App.ConverterApp.CompleteConversion | tomarkdown.py:203-244 | an invalid path or a failed call gives its error status (a failure also gives a dialog) and keeps the old result; a processed response is assembled and shown |

## Left out

- The Tkinter widgets, layout, tabs and show/hide toggle: they are UI. The class
  keeps only the values the widgets hold.
- The Mistral client in `convert_pdf` (upload, signed URL, OCR call): it is network
  I/O to a foreign service. Its result is the `Outcome` given to
  `CompleteConversion`: an invalid path, a failure with its message, or a
  processed response.
- CompleteConversion: does not model the intermediate statuses ("Uploading PDF
  file...", "Processing with OCR...", "Preparing markdown..."). Each is
  overwritten before the worker's queued callbacks finish, so the model keeps
  only the final status.
- The worker thread and the `root.after` queue: the model runs each worker to its
  end, with the queued callbacks executed in the order they were queued.
  Interleavings with user input while the worker runs are not modelled.
- CompleteConversion: does not model an exception raised by
  `get_combined_markdown` or `markdown.markdown`. Over the model's data types both
  are total, so only the OCR calls fail.
- The config file (`get_config_file_path`, `load_config`, `save_api_key`): it is
  file and environment I/O. In particular, the constructor's status "Ready" is
  the value before `load_config` overwrites it.
- Copying to the clipboard, saving the markdown to a file, and opening the page
  in a browser through a temporary file: they are OS I/O.
- The internals of `markdown.markdown` with its extensions: a third-party
  library, modelled as the arbitrary function `toHtml`.
- Placeholders.ResolveIdempotent: proved only for dicts whose ids and payloads hold
  no `[`, `]`, `(` or `)`. Base64 payloads never do. Ids that do can let one
  replacement create another id's placeholder.
- Placeholders.ResolveAddsNoPlaceholder, Placeholders.ResolveRemovesPlaceholders,
  Placeholders.ResolveAround, Placeholders.PlaceholderReplacedInPlace,
  Placeholders.UnknownPlaceholderInPlace, Placeholders.UnknownPlaceholderKept,
  Placeholders.PlaceholderResolved, Assembly.ForeignPlaceholderInPlace,
  Assembly.OwnPlaceholderInPlace, Assembly.ForeignPlaceholderKept,
  Assembly.OwnPlaceholdersRemoved and Assembly.OwnPlaceholderResolved: proved under
  the same bracket-free condition, for the same reason; the Assembly members state
  it for the page's images.
- Strings are sequences of characters; Python's `str` code points, and the bytes
  of the PDF and of the base64 payloads, are not distinguished from them.
