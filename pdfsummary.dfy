/** The character-based script, `pdfsummary.py`: chunks of `max_chunk_size`
    characters sliced straight out of the text, one stripped completion per
    chunk, the summary file named from `os.path.splitext` and holding
    numbered summary blocks. */
module PdfSummary {
  import opened PyCore
  import opened PyStr
  import opened PyPath
  import opened Seqs
  import opened Windowing
  import opened Completion
  import opened Files

  const DefaultMaxChunkSize: int := 3000

  const SystemInstruction: string := "You are a master class summarizer and note taker."

  const UserInstruction: string := "Write a concise summary of the following text:\n\n"

  /** The two messages sent for one chunk. */
  function ChunkRequest(chunk: string): Request
  {
    Prompt(SystemInstruction, UserInstruction + chunk)
  }

  /** `total_chunks = (len(text) + max_chunk_size - 1) // max_chunk_size`.
      A zero size raises; for a positive size the value is ceil(length / size),
      the least count of chunks of that size that covers the text. */
  function TotalChunks(length: nat, maxChunkSize: int): (r: Result<int>)
    ensures r.Failure? <==> maxChunkSize == 0
    ensures r.Failure? ==> r.error == ZeroDivisionError
    ensures maxChunkSize > 0 ==>
      && r.Success?
      && r.value >= 0
      && (r.value - 1) * maxChunkSize < length <= r.value * maxChunkSize
  {
    if maxChunkSize == 0 then Failure(ZeroDivisionError)
    else
      var q := FloorDiv(length + maxChunkSize - 1, maxChunkSize);
      assert maxChunkSize > 0 ==> (q - 1) * maxChunkSize == q * maxChunkSize - maxChunkSize;
      assert maxChunkSize > 0 ==> q >= 0 by {
        if maxChunkSize > 0 && q < 0 {
          MulMonotone(q, -1, maxChunkSize);
          assert false;
        }
      }
      Success(q)
  }

  /** `total_chunks` is the number of iterations of
      `for i in range(0, len(text), max_chunk_size)`, which is also the number
      of character windows; `chunk_number = i // max_chunk_size + 1` counts
      those iterations from 1 to `total_chunks`. */
  lemma TotalChunksCountsIterations(text: string, maxChunkSize: int, k: nat)
    requires maxChunkSize > 0
    ensures TotalChunks(|text|, maxChunkSize).value == |Steps(0, |text|, maxChunkSize)| == |Windows(text, maxChunkSize)|
    ensures k < |Steps(0, |text|, maxChunkSize)| ==>
      1 <= FloorDiv(Steps(0, |text|, maxChunkSize)[k], maxChunkSize) + 1 == k + 1 <= TotalChunks(|text|, maxChunkSize).value
  {
    WindowsCount(text, maxChunkSize);
    WindowsAreSlices(text, maxChunkSize);
    StepsAscending(0, |text|, maxChunkSize);
    if k < |Steps(0, |text|, maxChunkSize)| {
      DivUnique(k * maxChunkSize, maxChunkSize, k);
    }
  }

  /** With the default size of 3000 characters, the one the script uses,
      `total_chunks` never raises and counts the character windows. */
  lemma DefaultMaxChunkSizeAccepted(text: string)
    ensures TotalChunks(|text|, DefaultMaxChunkSize).Success?
    ensures TotalChunks(|text|, DefaultMaxChunkSize).value == |Windows(text, DefaultMaxChunkSize)|
  {
    TotalChunksCountsIterations(text, DefaultMaxChunkSize, 0);
  }

  /** The stripped content of the reply to one chunk's request. */
  function StrippedReply(complete: Request -> string, chunk: string): string
  {
    Strip(complete(ChunkRequest(chunk)))
  }

  /** The loop of `summarize_text_gpt4`: for each `i` in
      `range(0, len(text), max_chunk_size)` the slice
      `text[i:i + max_chunk_size]` is sent, and the stripped reply content is
      appended. The `total_chunks` line runs first, so a zero size raises
      `ZeroDivisionError` before the loop; a negative size leaves the range
      empty. For a positive size summary `i` is the stripped completion of
      character window `i`. */
  method SummarizeText(text: string, maxChunkSize: int, complete: Request -> string) returns (r: Result<seq<string>>)
    ensures maxChunkSize == 0 ==> r == Failure(ZeroDivisionError)
    ensures maxChunkSize < 0 ==> r == Success([])
    ensures maxChunkSize > 0 ==>
      && r.Success?
      && |r.value| == |Windows(text, maxChunkSize)|
      && forall i :: 0 <= i < |r.value| ==>
           r.value[i] == Strip(complete(ChunkRequest(Windows(text, maxChunkSize)[i])))
  {
    var totalChunks := TotalChunks(|text|, maxChunkSize);
    if totalChunks.Failure? {
      return Failure(totalChunks.error);
    }
    var starts := Steps(0, |text|, maxChunkSize);
    var summaries: seq<string> := [];
    for k := 0 to |starts|
      invariant |summaries| == k
      invariant forall j :: 0 <= j < k ==>
        summaries[j] == StrippedReply(complete, Slice(text, starts[j], starts[j] + maxChunkSize))
    {
      var i := starts[k];
      var chunk := Slice(text, i, i + maxChunkSize);
      var messageContent := StrippedReply(complete, chunk);
      summaries := summaries + [messageContent];
    }
    if maxChunkSize > 0 {
      SliceRepliesAreWindowReplies(text, maxChunkSize, complete, summaries);
    }
    return Success(summaries);
  }

  /** Replies collected slice by slice over `range(0, len(text), m)` are the
      replies to the character windows, in order. */
  lemma SliceRepliesAreWindowReplies(text: string, m: int, complete: Request -> string, summaries: seq<string>)
    requires m > 0
    requires |summaries| == |Steps(0, |text|, m)|
    requires forall j :: 0 <= j < |summaries| ==>
      summaries[j] == StrippedReply(complete, Slice(text, Steps(0, |text|, m)[j], Steps(0, |text|, m)[j] + m))
    ensures |summaries| == |Windows(text, m)|
    ensures forall i :: 0 <= i < |summaries| ==> summaries[i] == Strip(complete(ChunkRequest(Windows(text, m)[i])))
  {
    var ws, starts := Windows(text, m), Steps(0, |text|, m);
    WindowsAreSlices(text, m);
    forall j | 0 <= j < |ws|
      ensures summaries[j] == Strip(complete(ChunkRequest(ws[j])))
    {
      assert ws[j] == Slice(text, starts[j], starts[j] + m);
    }
  }

  /** `os.path.splitext(pdf_file)[0] + "_summary.txt"`. */
  function OutputName(pdfFile: string): string
  {
    SplitExt(pdfFile).0 + SummarySuffix
  }

  /** For a listed name `stem + ".pdf"` only the final `.pdf` is dropped; but
      when the stem's last component is nothing but dots (the file `.pdf`
      itself, say) `splitext` finds no extension and the suffix is appended
      to the whole name. */
  lemma OutputNameOfPdf(stem: string)
    ensures OutputName(stem + PdfExtension) ==
      (if AllDots(Basename(stem)) then stem + PdfExtension else stem) + SummarySuffix
  {
    SplitExtPdf(stem);
  }

  /** A name from the directory listing holds no separator, so it is its own
      final component: `stem.pdf` becomes `stem_summary.txt`, unless the stem
      is nothing but dots. */
  lemma OutputNameOfListedPdf(stem: string)
    requires forall k :: 0 <= k < |stem| ==> stem[k] != '/' && stem[k] != '\\'
    ensures OutputName(stem + PdfExtension) == (if AllDots(stem) then stem + PdfExtension else stem) + SummarySuffix
  {
    BasenameOfBareName(stem);
    OutputNameOfPdf(stem);
  }

  /** `[f for f in os.listdir(...) if f.endswith('.pdf')]`. */
  function PdfFiles(names: seq<string>): seq<string>
  {
    if names == [] then []
    else (if IsPdf(names[0]) then [names[0]] else []) + PdfFiles(names[1..])
  }

  /** Each listed name that ends in `.pdf` is kept as often as it occurs, and
      every other name is dropped. */
  lemma {:induction false} PdfFilesCounts(names: seq<string>)
    ensures forall x :: multiset(PdfFiles(names))[x] == if IsPdf(x) then multiset(names)[x] else 0
  {
    if names != [] {
      PdfFilesCounts(names[1..]);
      assert names == [names[0]] + names[1..];
    }
  }

  /** The filter keeps the listing order. */
  lemma {:induction false} PdfFilesConcat(a: seq<string>, b: seq<string>)
    ensures PdfFiles(a + b) == PdfFiles(a) + PdfFiles(b)
  {
    if a != [] {
      assert (a + b)[1..] == a[1..] + b;
      PdfFilesConcat(a[1..], b);
    } else {
      assert a + b == b;
    }
  }

  /** `f"Summary {idx}:\n{summary}\n\n"`. */
  function SummaryBlock(idx: nat, summary: string): string
  {
    "Summary " + IntToDecimal(idx) + ":\n" + summary + "\n\n"
  }

  /** The blocks of `enumerate(summaries, start=1)`. */
  function Numbered(summaries: seq<string>): seq<string>
  {
    seq(|summaries|, i requires 0 <= i < |summaries| => SummaryBlock(i + 1, summaries[i]))
  }

  /** The write loop `for idx, summary in enumerate(summaries, start=1)`: the
      file body is the numbered blocks in order. */
  method WriteSummaries(summaries: seq<string>) returns (body: string)
    ensures body == Flatten(Numbered(summaries))
  {
    body := "";
    for i := 0 to |summaries|
      invariant body == Flatten(Numbered(summaries[..i]))
    {
      var idx := i + 1;
      assert Numbered(summaries[..i + 1]) == Numbered(summaries[..i]) + [SummaryBlock(idx, summaries[i])];
      FlattenSnoc(Numbered(summaries[..i]), SummaryBlock(idx, summaries[i]));
      body := body + SummaryBlock(idx, summaries[i]);
    }
    assert summaries[..|summaries|] == summaries;
  }

  /** Block `i` of the body, right after the blocks before it, is headed
      `Summary <n>:` where the decimal `n` reads back as `i + 1`, and carries
      summary `i` followed by a blank line. */
  lemma BodyLayout(summaries: seq<string>, i: nat)
    requires i < |summaries|
    ensures var at, block := SumLengths(Numbered(summaries)[..i]), SummaryBlock(i + 1, summaries[i]);
      && at + |block| <= |Flatten(Numbered(summaries))|
      && Flatten(Numbered(summaries))[at .. at + |block|] == block
      && block == "Summary " + IntToDecimal(i + 1) + ":\n" + summaries[i] + "\n\n"
      && DecimalValue(IntToDecimal(i + 1)) == i + 1
  {
    var blocks := Numbered(summaries);
    assert blocks[i] == SummaryBlock(i + 1, summaries[i]);
    FlattenAt(blocks, i);
    DecimalRoundTrip(i + 1);
  }
}
