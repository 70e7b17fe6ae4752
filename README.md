# pdf_summary in Dafny

This project models the text logic of the two batch scripts in the
pdf_summary repository. Both scripts turn every PDF in a directory into a
summary file. Each one extracts the page texts, cuts the text into chunks,
asks a chat-completion service for one summary per chunk, and writes the
summaries to `<name>_summary.txt`.

- `pdfnew.py` cuts by words. Its chunks are runs of `chunk_size` words from
  `text.split()`, rejoined with single spaces. It keeps each completion as it
  comes back. The output name is `filename.replace(".pdf", "_summary.txt")`.
  Each summary is written followed by a blank line.
- `pdfsummary.py` cuts by characters. Its chunks are the slices
  `text[i:i+max_chunk_size]`, and it strips each completion. The output name
  comes from `os.path.splitext`. The summaries are written as numbered
  `Summary <n>:` blocks.

The modules are:

- `PyCore`: the Python runtime the scripts rely on. It covers the exceptions,
  `//`, slicing and `range`.
- `PyStr`: the `str` methods. These are `split`, `join`, `strip`,
  `endswith`, `replace`, the substring `in` test and `str(int)`.
- `PyPath`: `os.path.splitext`, following Windows path rules.
- `Seqs`: string building by repeated `+=`.
- `Windowing`: fixed-size windows of a sequence. Both chunkers are proved
  against this one reference definition.
- `Completion`: the request sent for a chunk.
- `Files`: the `.pdf` name filter.
- `Extraction`: `pdf_to_text`. Both scripts contain the same loop for it, so
  it is modelled once.
- `PdfNew` and `PdfSummary`: one module for each script.
- `Variants`: where the two naming rules agree and where they differ.

There are two external services. The first is the completion service. It is
a parameter `complete: Request -> string` that maps a request to the content
of the first choice. The second is the PDF parser. Its per-page
`extract_text()` results are the input `seq<Option<string>>`, where `None`
is a page without a text layer.

Behaviour at the edges:

- In `pdfnew.py`, a size of 0 makes `range` raise `ValueError`.
- In `pdfsummary.py`, a size of 0 makes the `total_chunks` line raise
  `ZeroDivisionError` before the loop starts.
- A negative size gives an empty range in both scripts, so there are no chunks
  and no error.
- The page text ends every page with `"\n"`, including the last page. This is
  the newline-join plus one final newline (`Extraction.PageTextJoin`).
- A page without text raises `TypeError` and aborts the document. No page is
  skipped.

## Model

| member | source | states |
|---|---|---|
| `PdfNew.SplitTextIntoChunks` | pdfnew.py:26-31 | a chunk size of 0 raises `ValueError` (from `range`), and a negative size gives no chunks |
| `PdfNew.ChunksAreWordWindows` | pdfnew.py:28-29 | for a positive size, the chunks are the windows of `chunk_size` words of `text.split()`, each joined with single spaces |
| `PdfNew.ChunkCount` | pdfnew.py:28-29 | for a positive size there are `(n + chunk_size - 1) // chunk_size` chunks for the n words, i.e. ceil(n / chunk_size) |
| `PdfNew.ChunkWords` | pdfnew.py:29 | chunk i re-splits into words `i*chunk_size .. min((i+1)*chunk_size, n)`; every chunk but the last has exactly `chunk_size` words, and the last has 1 to `chunk_size` |
| `PdfNew.WordsPreserved` | pdfnew.py:28-29 | splitting each chunk and concatenating in order gives back `text.split()` exactly |
| `PdfNew.BlankTextHasNoChunks` | pdfnew.py:28-29 | the chunk list is empty if and only if the text is empty or all whitespace |
| `PyStr.SplitJoin` | pdfnew.py:29 | `' '.join` of split words, split again, gives the same words |
| `PyStr.SplitBlank` | pdfnew.py:28 | `split()` returns no words exactly when the text is all whitespace |
| `PdfNew.SummarizeText` | pdfnew.py:33-53 | a chunker exception propagates; otherwise there is one summary per chunk, in order, and summary i is the completion of chunk i's prompt |
| `PdfNew.SummarizeChunks` | pdfnew.py:41-53 | there is one summary per chunk, and summary i is the completion of the request for chunk i, so the list follows chunk order |
| `PdfNew.OutputNameOfPdf` | pdfnew.py:64 | `stem.pdf` becomes `replace(stem) + "_summary.txt"`, which equals `stem + "_summary.txt"` exactly when `.pdf` does not occur in the stem |
| `PyStr.ReplaceOccurrence` | pdfnew.py:64 | for a pattern that cannot overlap itself, every occurrence is replaced: `replace(a + pat + b) == replace(a) + rep + replace(b)` for any texts a and b |
| `PyStr.ReplaceAppend` | pdfnew.py:64 | for a pattern that cannot overlap itself, a trailing occurrence is replaced separately from the text before it |
| `PdfNew.OutputNameAt` | pdfnew.py:64 | every `.pdf` in the name is renamed, not only the extension: `a + ".pdf" + b` gives the name for a, then `_summary.txt`, then the name for b |
| `PyStr.ReplaceIdentity` | pdfnew.py:64 | with a longer replacement, `replace` leaves the text unchanged exactly when the pattern does not occur |
| `PyStr.ReplaceAbsent` | pdfnew.py:64 | text in which the pattern does not occur comes back unchanged |
| `Files.IsPdfIff` | pdfnew.py:58 | a name passes the `endswith(".pdf")` filter exactly when it is some stem followed by `.pdf` |
| `PdfNew.WriteSummaries` | pdfnew.py:67-69 | the string passed to `write` is the concatenation of `summary + "\n\n"` over the summaries, in order |
| `PdfNew.BodyLayout` | pdfnew.py:67-69 | the body's length is the total summary length plus 2 per summary, and summary i with its blank line starts right after the earlier ones |
| `Extraction.PdfToText` | pdfnew.py:17-24 | it succeeds exactly when every page yields text; otherwise it raises `TypeError`; on success it returns the concatenation of `page + "\n"` in page order (the same loop is pdfsummary.py:15-19) |
| `Extraction.PageTextLength` | pdfsummary.py:15-19 | the text length is the sum of the page lengths plus the page count |
| `Extraction.PageTextJoin` | pdfsummary.py:15-21 | the text is `"\n".join(pages) + "\n"` for at least one page, and `""` for none |
| `PdfSummary.TotalChunks` | pdfsummary.py:37 | a size of 0 raises `ZeroDivisionError`; for a positive size the value t is ceil(len/m), i.e. `(t-1)*m < len <= t*m` |
| `PdfSummary.TotalChunksCountsIterations` | pdfsummary.py:37-39 | `total_chunks` equals the number of `range(0, len, m)` iterations and the number of windows; `chunk_number` of iteration k is k+1, which lies in 1..`total_chunks` |
| `PyCore.StepsAscending` | pdfsummary.py:38 | `range(start, stop, step)` with a positive step yields ceil((stop-start)/step) values, the j-th being `start + j*step` |
| `PdfSummary.SummarizeText` | pdfsummary.py:34-59 | a size of 0 raises `ZeroDivisionError` and a negative size gives no summaries; otherwise summary i is the stripped completion of character window i, with one summary per window |
| `PdfSummary.SliceRepliesAreWindowReplies` | pdfsummary.py:38-40 | replies collected for the slices `text[i:i+m]` over `range(0, len(text), m)` are the replies to the character windows, one per window, in order |
| `PyCore.SliceCases` | pdfsummary.py:40 | `s[lo:hi]` never exceeds `s`; it is the plain slice inside bounds, runs to the end when `hi` passes the length, and, for non-negative bounds, is empty when `hi <= lo` |
| `Windowing.WindowsCover` | pdfsummary.py:37-38 | there are no windows exactly for empty text, and for nonempty text the windows of size m just cover it: `(count-1)*m < len <= count*m` |
| `Windowing.WindowIsSlice` | pdfsummary.py:40 | window j is the Python slice `text[j*m : j*m+m]` |
| `Windowing.WindowsAreSlices` | pdfsummary.py:38-40 | the windows are exactly the slices `text[i:i+m]` for `i` in `range(0, len(text), m)` |
| `Windowing.WindowsCount` | pdfsummary.py:37-38 | there are `(len + m - 1) // m` windows |
| `Windowing.WindowsAt` | pdfsummary.py:40 | window k is `text[k*m .. min((k+1)*m, len)]`, and it starts inside the text |
| `Windowing.WindowSizes` | pdfsummary.py:38-40 | every window but the last has length m, and the last has length 1 to m |
| `Windowing.WindowsFlatten` | pdfsummary.py:38-40 | concatenating the windows in order reproduces the text exactly |
| `PyStr.Strip` | pdfsummary.py:55 | the stored content has no leading or trailing whitespace, is a contiguous part of the reply, and only whitespace was removed around it |
| `PyStr.StripIdempotent` | pdfsummary.py:55 | stripping twice gives the same result as stripping once |
| `PdfSummary.PdfFilesCounts` | pdfsummary.py:65 | every listed name ending in `.pdf` is kept with its multiplicity, and every other name is dropped |
| `PdfSummary.PdfFilesConcat` | pdfsummary.py:65 | the filter keeps the listing order (it distributes over concatenation) |
| `PyPath.SplitExt` | pdfsummary.py:80 | root plus extension gives back the name; a nonempty extension starts with its only dot |
| `PyPath.RFindLast` | pdfsummary.py:80 | no occurrence of the character lies after the index `rfind` returns |
| `PyPath.SplitExtPdf` | pdfsummary.py:80 | for `stem.pdf` the extension is `.pdf`, except when the stem's final component is all dots, in which case there is no extension |
| `PdfSummary.OutputNameOfPdf` | pdfsummary.py:80-81 | `stem.pdf` becomes `stem + "_summary.txt"`, or `stem.pdf_summary.txt` when the stem's final component is all dots |
| `PdfSummary.WriteSummaries` | pdfsummary.py:83-85 | the string passed to `write` is the concatenation of `"Summary " + str(idx) + ":\n" + s + "\n\n"` for idx = 1..n, in order |
| `PdfSummary.BodyLayout` | pdfsummary.py:84-85 | block i starts right after the earlier blocks, holds summary i, and is headed by digits that read back as i+1 |
| `PyStr.DecimalRoundTrip` | pdfsummary.py:85 | the decimal digits printed for `idx` read back as `idx` |
| `Variants.NamesAgreeIff` | pdfnew.py:64 | when the stem's final component is not all dots, the two naming rules agree exactly when `.pdf` does not occur in the stem |
| `Variants.InnerExtension` | pdfnew.py:64 | for `a.pdfb.pdf` with no other `.pdf`, whose final component is not all dots (true of every listed name), the word-based rule gives `a_summary.txtb_summary.txt` and the character-based rule gives `a.pdfb_summary.txt` |
| `Variants.RepeatedExtension` | pdfnew.py:64 | for `stem.pdf.pdf`, the word-based rule gives `stem_summary.txt_summary.txt` and the character-based rule gives `stem.pdf_summary.txt` |
| `Variants.DotOnlyStem` | pdfsummary.py:80-81 | for a stem of dots only (such as the file `.pdf`), the word-based rule drops `.pdf` and the character-based rule keeps the whole name |
| `PdfNew.DefaultChunkSizeAccepted` | pdfnew.py:26-33 | with the default `chunk_size` of 3000 the chunker never raises and gives ceil(n / 3000) chunks for n words |
| `PdfNew.ChunkRequest` | pdfnew.py:45-48 | no contract of its own; the system and user prompts sent for a chunk, as used in `PdfNew.SummarizeChunks` |
| `PdfNew.OutputName` | pdfnew.py:64 | no contract of its own; characterised by `PdfNew.OutputNameAt` and `PdfNew.OutputNameOfPdf` |
| `Files.IsPdf` | pdfnew.py:58 | no contract of its own; characterised by `Files.IsPdfIff` |
| `PdfSummary.DefaultMaxChunkSizeAccepted` | pdfsummary.py:23-37 | with the default `max_chunk_size` of 3000 the `total_chunks` line never raises and counts the character windows |
| `PdfSummary.ChunkRequest` | pdfsummary.py:43-47 | no contract of its own; the system and user prompts sent for a chunk, as used in `PdfSummary.SummarizeText` |
| `PdfSummary.StrippedReply` | pdfsummary.py:55 | no contract of its own; the stripped reply, characterised by `PyStr.Strip` |
| `PdfSummary.OutputName` | pdfsummary.py:80-81 | no contract of its own; characterised by `PdfSummary.OutputNameOfPdf` and `PdfSummary.OutputNameOfListedPdf` |
| `PdfSummary.OutputNameOfListedPdf` | pdfsummary.py:65-81 | a listed name has no separator, so `stem.pdf` becomes `stem_summary.txt`, or `stem.pdf_summary.txt` when the stem is all dots |
| `PdfSummary.PdfFiles` | pdfsummary.py:65 | no contract of its own; characterised by `PdfSummary.PdfFilesCounts` and `PdfSummary.PdfFilesConcat` |
| `PdfSummary.SummaryBlock` | pdfsummary.py:85 | no contract of its own; characterised by `PdfSummary.BodyLayout` |
| `PdfSummary.Numbered` | pdfsummary.py:84-85 | no contract of its own; characterised by `PdfSummary.WriteSummaries` and `PdfSummary.BodyLayout` |
| `PyStr.Split` | pdfnew.py:28 | every word it returns is nonempty and holds no whitespace; characterised further by `PyStr.SplitJoin` and `PyStr.SplitBlank` |
| `PyStr.IsSpace` | pdfnew.py:28 | no contract of its own; the code points for which `str.isspace()` holds, which `split()` here and `strip()` at pdfsummary.py:55 treat as whitespace; characterised by `PyStr.SplitBlank` and `PyStr.Strip` |
| `PyStr.Join` | pdfnew.py:29 | no contract of its own; characterised by `PyStr.SplitJoin` and `Extraction.PageTextJoin` |
| `PyStr.Replace` | pdfnew.py:64 | no contract of its own; characterised by `PyStr.ReplaceOccurrence` (every occurrence) and `PyStr.ReplaceAbsent` (the text between occurrences is kept) |
| `PyStr.EndsWith` | pdfnew.py:58 | no contract of its own; characterised by `Files.IsPdfIff` |
| `PyStr.IntToDecimal` | pdfsummary.py:85 | the digits of `str(n)` are nonempty decimal digits with no leading zero, `"0"` for 0; characterised further by `PyStr.DecimalRoundTrip` |
| `PyCore.FloorDiv` | pdfsummary.py:37-39 | for a positive divisor the quotient q satisfies `q*b <= a < q*b + b`, and for a negative divisor `q*b + b < a <= q*b`, which is Python's rounding toward minus infinity |
| `PyCore.Slice` | pdfsummary.py:40 | no contract of its own; characterised by `PyCore.SliceCases` |
| `PyCore.Steps` | pdfsummary.py:38 | a negative step from a start at or below the stop gives no values; characterised further by `PyCore.StepsAscending` |
| `PyCore.Range` | pdfnew.py:29 | a step of 0 raises `ValueError` and any other step succeeds |
| `PyPath.RFind` | pdfsummary.py:80 | the index is -1 or a position of the character; characterised further by `PyPath.RFindLast` |

## Left out

- The OpenAI client and `chat.completions.create` are remote calls. The
  completion is the parameter `complete`. API errors, missing choices and a
  `None` message content are not modelled. Because `complete` is a function,
  the model gives each request one reply. With `temperature=0.5` the real
  service may answer two equal chunks differently.
- Temperature, `max_tokens` and the penalties are sampling settings of the
  remote call. They affect only the reply, which `complete` stands for. A
  request keeps only the model name and the messages.
- Opening a PDF with pdfplumber and calling `extract_text` on each page use a
  foreign parser. The page results are the input.
- The directory loop is filesystem I/O and is not modelled. This covers
  `os.listdir`, `os.path.join`, opening and writing the summary file, and the
  `chunks_log.txt` trace. Because of this, the model does not capture that an
  exception in one document aborts the rest of the batch. The file name,
  the `.pdf` filter and the file body are modelled as values.
- The file body is the string handed to `write`. The encoding of the file is
  not modelled. `pdfsummary.py` opens it as UTF-8, while `pdfnew.py` uses the
  locale's default codec. Text-mode newline translation is not modelled
  either. On Windows it writes each `"\n"` as `"\r\n"`.
- All `print` output is left out, including the `chunk[:60]` preview. The
  chunk numbers it shows are stated by
  `PdfSummary.TotalChunksCountsIterations` instead.
- The module-level script code with hardcoded paths is left out.
- PyStr.Replace: models `str.replace` only for a nonempty pattern, because
  the scripts only replace `.pdf`. Python's rule for an empty pattern
  (insert at every position) is not modelled.
- PyPath.SplitExt: follows Windows path rules, with both `/` and `\` as
  separators, because the hard-coded folder is a Windows drive path. POSIX
  `splitext` treats `\` as an ordinary character.
- PyStr.IsSpace: lists the code points for which `str.isspace()` is true in
  current Python. No other Unicode handling is modelled.
