/** `pdf_to_text`, which both scripts define with the same loop: the text of
    every page, each followed by a newline. The PDF parser is outside the
    model; its per-page results are the input, `None` standing for a page
    whose `extract_text()` found no text layer. */
module Extraction {
  import opened PyCore
  import opened PyStr
  import opened Seqs

  /** Every page yielded a string. */
  predicate AllExtracted(pages: seq<Option<string>>)
  {
    forall i :: 0 <= i < |pages| ==> pages[i].Some?
  }

  /** The page strings, when every page yielded one. */
  function Texts(pages: seq<Option<string>>): seq<string>
    requires AllExtracted(pages)
  {
    seq(|pages|, i requires 0 <= i < |pages| => pages[i].value)
  }

  /** The loop `text += page.extract_text() + "\n"`. The first page without
      text makes `None + "\n"` raise, which aborts the whole document;
      otherwise the text is every page followed by a newline, in page order. */
  method PdfToText(pages: seq<Option<string>>) returns (r: Result<string>)
    ensures r.Success? <==> AllExtracted(pages)
    ensures r.Failure? ==> r.error == TypeError
    ensures r.Success? ==> r.value == Flatten(Terminated(Texts(pages), "\n"))
  {
    var text := "";
    for k := 0 to |pages|
      invariant AllExtracted(pages[..k])
      invariant text == Flatten(Terminated(Texts(pages[..k]), "\n"))
    {
      match pages[k]
      case None =>
        return Failure(TypeError);
      case Some(p) =>
        TextsSnoc(pages, k);
        TerminatedSnoc(Texts(pages[..k]), p, "\n");
        text := text + (p + "\n");
    }
    assert pages[..|pages|] == pages;
    return Success(text);
  }

  /** One more page with text extends the page texts by that text. */
  lemma TextsSnoc(pages: seq<Option<string>>, k: nat)
    requires k < |pages| && pages[k].Some?
    requires AllExtracted(pages[..k])
    ensures AllExtracted(pages[..k + 1])
    ensures Texts(pages[..k + 1]) == Texts(pages[..k]) + [pages[k].value]
  {
    assert pages[..k + 1] == pages[..k] + [pages[k]];
  }

  /** The text is as long as all pages together plus one newline per page. */
  lemma PageTextLength(ps: seq<string>)
    ensures |Flatten(Terminated(ps, "\n"))| == SumLengths(ps) + |ps|
  {
    FlattenLength(Terminated(ps, "\n"));
    TerminatedLengths(ps, "\n");
  }

  /** The text is the pages joined by newlines, with a final newline when
      there is at least one page. */
  lemma {:induction false} PageTextJoin(ps: seq<string>)
    ensures Flatten(Terminated(ps, "\n")) == if ps == [] then "" else Join("\n", ps) + "\n"
  {
    if ps != [] {
      var head, tail := ps[0] + "\n", Terminated(ps[1..], "\n");
      assert Terminated(ps, "\n") == [head] + tail;
      FlattenConcat([head], tail);
      assert Flatten([head]) == head by {
        FlattenSnoc([], head);
        assert [] + [head] == [head];
      }
      PageTextJoin(ps[1..]);
      if |ps| == 1 {
        assert tail == [];
      } else {
        assert Join("\n", ps) == ps[0] + "\n" + Join("\n", ps[1..]);
      }
    }
  }
}
