/** Where the two scripts' naming rules for the summary file agree and where
    they part. */
module Variants {
  import opened PyStr
  import opened PyPath
  import opened Files
  import PdfNew
  import PdfSummary

  /** For a name whose stem has a final component other than dots, the two
      rules give the same summary file name exactly when `.pdf` does not
      occur before the extension. */
  lemma NamesAgreeIff(stem: string)
    requires !AllDots(Basename(stem))
    ensures PdfNew.OutputName(stem + PdfExtension) == PdfSummary.OutputName(stem + PdfExtension)
        <==> !Contains(stem, PdfExtension)
  {
    PdfNew.OutputNameOfPdf(stem);
    PdfSummary.OutputNameOfPdf(stem);
  }

  /** A `.pdf` in the middle of the name: the word-based rule replaces both
      occurrences, the character-based one only the extension (`a.pdfb.pdf`
      gives `a_summary.txtb_summary.txt` against `a.pdfb_summary.txt`). */
  lemma InnerExtension(a: string, b: string)
    requires !Contains(a, PdfExtension) && !Contains(b, PdfExtension)
    requires !AllDots(Basename(a + PdfExtension + b))
    ensures PdfNew.OutputName(a + PdfExtension + b + PdfExtension) == a + SummarySuffix + b + SummarySuffix
    ensures PdfSummary.OutputName(a + PdfExtension + b + PdfExtension) == a + PdfExtension + b + SummarySuffix
  {
    assert a + PdfExtension + b + PdfExtension == a + PdfExtension + (b + PdfExtension);
    PdfNew.OutputNameAt(a, b + PdfExtension);
    PdfNew.OutputNameOfPdf(b);
    ReplaceAbsent(a, PdfExtension, SummarySuffix);
    assert a + SummarySuffix + (b + SummarySuffix) == a + SummarySuffix + b + SummarySuffix;
    PdfSummary.OutputNameOfPdf(a + PdfExtension + b);
  }

  /** A `.pdf` inside the stem: the word-based rule replaces it as well, the
      character-based one keeps it (`notes.pdf.pdf` gives
      `notes_summary.txt_summary.txt` against `notes.pdf_summary.txt`). */
  lemma RepeatedExtension(stem: string)
    requires !Contains(stem, PdfExtension) && !AllDots(Basename(stem))
    ensures PdfNew.OutputName(stem + PdfExtension + PdfExtension) == stem + SummarySuffix + SummarySuffix
    ensures PdfSummary.OutputName(stem + PdfExtension + PdfExtension) == stem + PdfExtension + SummarySuffix
  {
    var inner := stem + PdfExtension;
    PdfNew.OutputNameOfPdf(stem);
    assert PdfNew.OutputName(inner) == stem + SummarySuffix;
    PdfNew.OutputNameOfPdf(inner);
    assert PdfNew.OutputName(inner + PdfExtension) == PdfNew.OutputName(inner) + SummarySuffix;
    BasenameAppend(stem, PdfExtension);
    assert !AllDots(Basename(inner)) by {
      var k :| 0 <= k < |Basename(stem)| && Basename(stem)[k] != '.';
      assert Basename(inner)[k] == Basename(stem)[k];
    }
    PdfSummary.OutputNameOfPdf(inner);
  }

  /** A stem of dots only, such as the file `.pdf` itself: `splitext` sees no
      extension, so the character-based rule keeps the whole name while the
      word-based one drops `.pdf`. */
  lemma DotOnlyStem(stem: string)
    requires AllDots(stem)
    ensures PdfNew.OutputName(stem + PdfExtension) == stem + SummarySuffix
    ensures PdfSummary.OutputName(stem + PdfExtension) == stem + PdfExtension + SummarySuffix
  {
    assert !Contains(stem, PdfExtension) by {
      forall i | 0 <= i && i + 4 <= |stem|
        ensures stem[i..][..4] != PdfExtension
      {
        assert stem[i..][..4][1] == stem[i + 1] == '.';
      }
    }
    PdfNew.OutputNameOfPdf(stem);
    assert AllDots(Basename(stem));
    PdfSummary.OutputNameOfPdf(stem);
  }
}
