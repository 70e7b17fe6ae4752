/** The word-based script, `pdfnew.py`: chunks of `chunk_size`
    whitespace-separated words, one completion per chunk, the summary file
    named by replacing `.pdf` and holding each summary followed by a blank
    line. */
module PdfNew {
  import opened PyCore
  import opened PyStr
  import opened Seqs
  import opened Windowing
  import opened Completion
  import opened Files

  const DefaultChunkSize: int := 3000

  const SystemInstruction: string :=
    "You are a master class summarizer and note taker. Your task is to provide a concise, yet comprehensive summary that captures all crucial concepts and details. Ensure the summary is educational, highlights key points, and is structured in a way that facilitates easy learning and recall."

  const UserInstruction: string :=
    "Write a concise and comprehensive summary of the following text, ensuring to include all important details for a thorough understanding:\n\n"

  /** The two messages sent for one chunk. */
  function ChunkRequest(chunk: string): Request
  {
    Prompt(SystemInstruction, UserInstruction + chunk)
  }

  /** `split_text_into_chunks`: the words of `text.split()`, regrouped as
      `' '.join(words[i:i + chunk_size])` for `i` in
      `range(0, len(words), chunk_size)`. A zero size makes `range` raise; a
      negative one gives an empty range and so no chunks. */
  function SplitTextIntoChunks(text: string, chunkSize: int): (r: Result<seq<string>>)
    ensures r.Failure? <==> chunkSize == 0
    ensures r.Failure? ==> r.error == ValueError
    ensures chunkSize < 0 ==> r == Success([])
  {
    var words := Split(text);
    match Range(0, |words|, chunkSize)
    case Failure(e) => Failure(e)
    case Success(starts) =>
      var chunks := seq(|starts|, j requires 0 <= j < |starts| =>
        Join(" ", Slice(words, starts[j], starts[j] + chunkSize)));
      assert chunkSize < 0 ==> chunks == [];
      Success(chunks)
  }

  /** Each group of words joined with single spaces. */
  function JoinEach(groups: seq<seq<string>>): seq<string>
  {
    seq(|groups|, i requires 0 <= i < |groups| => Join(" ", groups[i]))
  }

  /** The words of each chunk, as `split()` finds them again. */
  function WordsOf(chunks: seq<string>): seq<seq<string>>
  {
    seq(|chunks|, i requires 0 <= i < |chunks| => Split(chunks[i]))
  }

  /** For a positive size the chunks are the windows of `chunk_size` words,
      each joined with single spaces. */
  lemma ChunksAreWordWindows(text: string, chunkSize: int)
    requires chunkSize > 0
    ensures SplitTextIntoChunks(text, chunkSize) == Success(JoinEach(Windows(Split(text), chunkSize)))
  {
    var words := Split(text);
    var starts := Steps(0, |words|, chunkSize);
    var ws := Windows(words, chunkSize);
    WindowsAreSlices(words, chunkSize);
    var chunks := SplitTextIntoChunks(text, chunkSize).value;
    assert |chunks| == |starts| == |ws|;
    forall j | 0 <= j < |ws|
      ensures chunks[j] == JoinEach(ws)[j]
    {
      assert chunks[j] == Join(" ", Slice(words, starts[j], starts[j] + chunkSize));
    }
    assert chunks == JoinEach(ws);
  }

  /** There are ceil(n / chunk_size) chunks for the n words of the text. */
  lemma ChunkCount(text: string, chunkSize: int)
    requires chunkSize > 0
    ensures SplitTextIntoChunks(text, chunkSize).Success?
    ensures |SplitTextIntoChunks(text, chunkSize).value| == (|Split(text)| + chunkSize - 1) / chunkSize
  {
    ChunksAreWordWindows(text, chunkSize);
    WindowsCount(Split(text), chunkSize);
  }

  /** With the default size of 3000 words, which `summarize_text_gpt4` passes
      on, the chunker never raises, and there are ceil(n / 3000) chunks for the
      n words. */
  lemma DefaultChunkSizeAccepted(text: string)
    ensures SplitTextIntoChunks(text, DefaultChunkSize).Success?
    ensures |SplitTextIntoChunks(text, DefaultChunkSize).value| == (|Split(text)| + DefaultChunkSize - 1) / DefaultChunkSize
  {
    ChunkCount(text, DefaultChunkSize);
  }

  /** Every window of words survives being joined and split again. */
  lemma WindowWords(words: seq<string>, k: nat, i: nat)
    requires k > 0
    requires forall j :: 0 <= j < |words| ==> IsWord(words[j])
    requires i < |Windows(words, k)|
    ensures Split(Join(" ", Windows(words, k)[i])) == Windows(words, k)[i]
  {
    WindowsAt(words, k, i);
    SplitJoin(Windows(words, k)[i]);
  }

  /** Chunk `i` holds words `i * chunk_size` up to `(i + 1) * chunk_size` of
      the text, in order: exactly `chunk_size` of them in every chunk but the
      last, and between 1 and `chunk_size` in the last. */
  lemma ChunkWords(text: string, chunkSize: int, i: nat)
    requires chunkSize > 0
    requires i < |SplitTextIntoChunks(text, chunkSize).value|
    ensures var chunks, words := SplitTextIntoChunks(text, chunkSize).value, Split(text);
      && i * chunkSize < |words|
      && Split(chunks[i]) == words[i * chunkSize .. Min(i * chunkSize + chunkSize, |words|)]
      && (i < |chunks| - 1 ==> |Split(chunks[i])| == chunkSize)
      && (i == |chunks| - 1 ==> 1 <= |Split(chunks[i])| <= chunkSize)
  {
    var words := Split(text);
    ChunksAreWordWindows(text, chunkSize);
    WindowWords(words, chunkSize, i);
    WindowsAt(words, chunkSize, i);
    WindowSizes(words, chunkSize, i);
  }

  /** Splitting each chunk and concatenating the results in order gives back
      `text.split()`: no word is lost, repeated or moved. */
  lemma WordsPreserved(text: string, chunkSize: int)
    requires chunkSize > 0
    ensures Flatten(WordsOf(SplitTextIntoChunks(text, chunkSize).value)) == Split(text)
  {
    var words := Split(text);
    var ws := Windows(words, chunkSize);
    ChunksAreWordWindows(text, chunkSize);
    forall i | 0 <= i < |ws|
      ensures Split(JoinEach(ws)[i]) == ws[i]
    {
      WindowWords(words, chunkSize, i);
    }
    assert WordsOf(JoinEach(ws)) == ws;
    WindowsFlatten(words, chunkSize);
  }

  /** Text that is empty or only whitespace has no chunks, and only such text. */
  lemma BlankTextHasNoChunks(text: string, chunkSize: int)
    requires chunkSize > 0
    ensures SplitTextIntoChunks(text, chunkSize) == Success([]) <==> AllSpace(text)
  {
    ChunksAreWordWindows(text, chunkSize);
    SplitBlank(text);
    var words := Split(text);
    assert Windows(words, chunkSize) == [] <==> words == [];
  }

  /** The loop of `summarize_text_gpt4`: one completion per chunk, appended
      in chunk order, so summary `i` is the completion of chunk `i`. An
      exception from the chunker propagates. */
  method SummarizeText(text: string, chunkSize: int, complete: Request -> string) returns (r: Result<seq<string>>)
    ensures match SplitTextIntoChunks(text, chunkSize)
      case Failure(e) => r == Failure(e)
      case Success(chunks) =>
        && r.Success?
        && |r.value| == |chunks|
        && forall i :: 0 <= i < |chunks| ==> r.value[i] == complete(ChunkRequest(chunks[i]))
  {
    match SplitTextIntoChunks(text, chunkSize)
    case Failure(e) =>
      return Failure(e);
    case Success(chunks) =>
      var summaries := SummarizeChunks(chunks, complete);
      return Success(summaries);
  }

  /** `for chunk in chunks`: the completion of each chunk's request, in
      chunk order. */
  method SummarizeChunks(chunks: seq<string>, complete: Request -> string) returns (summaries: seq<string>)
    ensures |summaries| == |chunks|
    ensures forall i :: 0 <= i < |chunks| ==> summaries[i] == complete(ChunkRequest(chunks[i]))
  {
    // Naming the function once keeps the long prompt literals out of the
    // loop's proof obligations; `request(c)` is `ChunkRequest(c)`.
    var request := ChunkRequest;
    summaries := [];
    for i := 0 to |chunks|
      invariant |summaries| == i
      invariant forall j :: 0 <= j < i ==> summaries[j] == complete(request(chunks[j]))
    {
      var summary := complete(request(chunks[i]));
      summaries := summaries + [summary];
    }
  }

  /** `filename.replace(".pdf", "_summary.txt")`: every occurrence of `.pdf`
      is replaced, not only the extension. */
  function OutputName(filename: string): string
  {
    Replace(filename, PdfExtension, SummarySuffix)
  }

  /** For a listed name `stem + ".pdf"`, the extension becomes `_summary.txt`
      and every earlier `.pdf` in the stem is replaced as well; the result is
      `stem + "_summary.txt"` exactly when the stem holds no `.pdf`. */
  lemma OutputNameOfPdf(stem: string)
    ensures OutputName(stem + PdfExtension) == Replace(stem, PdfExtension, SummarySuffix) + SummarySuffix
    ensures OutputName(stem + PdfExtension) == stem + SummarySuffix <==> !Contains(stem, PdfExtension)
  {
    assert |PdfExtension| == 4 && |SummarySuffix| == 12;
    PdfExtensionNoBorder();
    ReplaceAppend(stem, PdfExtension, SummarySuffix);
    ReplaceIdentity(stem, PdfExtension, SummarySuffix);
    var replaced := Replace(stem, PdfExtension, SummarySuffix);
    assert replaced + SummarySuffix == stem + SummarySuffix <==> replaced == stem by {
      if replaced + SummarySuffix == stem + SummarySuffix {
        assert |replaced| == |stem|;
        assert replaced == (replaced + SummarySuffix)[..|stem|];
      }
    }
  }

  /** Every `.pdf` in the name is replaced, not only the extension: around
      any one occurrence, the parts before and after it are renamed on their
      own. */
  lemma OutputNameAt(a: string, b: string)
    ensures OutputName(a + PdfExtension + b) == OutputName(a) + SummarySuffix + OutputName(b)
  {
    PdfExtensionNoBorder();
    ReplaceOccurrence(a, PdfExtension, SummarySuffix, b);
  }

  /** The write loop `summary_file.write(summary + "\n\n")`: the file body is
      every summary followed by a blank line, in order. */
  method WriteSummaries(summaries: seq<string>) returns (body: string)
    ensures body == Flatten(Terminated(summaries, "\n\n"))
  {
    body := "";
    for i := 0 to |summaries|
      invariant body == Flatten(Terminated(summaries[..i], "\n\n"))
    {
      assert summaries[..i + 1] == summaries[..i] + [summaries[i]];
      TerminatedSnoc(summaries[..i], summaries[i], "\n\n");
      body := body + (summaries[i] + "\n\n");
    }
    assert summaries[..|summaries|] == summaries;
  }

  /** The body holds the summaries plus two newlines each, and summary `i`,
      followed by its blank line, starts after the earlier summaries and
      their separators. */
  lemma BodyLayout(summaries: seq<string>, i: nat)
    requires i < |summaries|
    ensures |Flatten(Terminated(summaries, "\n\n"))| == SumLengths(summaries) + 2 * |summaries|
    ensures var at := SumLengths(summaries[..i]) + 2 * i;
      && at + |summaries[i]| + 2 <= |Flatten(Terminated(summaries, "\n\n"))|
      && Flatten(Terminated(summaries, "\n\n"))[at .. at + |summaries[i]| + 2] == summaries[i] + "\n\n"
  {
    FlattenLength(Terminated(summaries, "\n\n"));
    TerminatedLengths(summaries, "\n\n");
    TerminatedAt(summaries, "\n\n", i);
  }
}
