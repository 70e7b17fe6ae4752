/** The file-name conventions both scripts share. */
module Files {
  import opened PyStr

  const PdfExtension: string := ".pdf"

  const SummarySuffix: string := "_summary.txt"

  /** The directory-entry filter of both scripts: `name.endswith(".pdf")`. */
  predicate IsPdf(name: string)
  {
    EndsWith(name, PdfExtension)
  }

  /** The names that pass the filter are exactly the stems followed by `.pdf`. */
  lemma IsPdfIff(name: string)
    ensures IsPdf(name) <==> exists stem :: name == stem + PdfExtension
  {
    EndsWithIff(name, PdfExtension);
  }

  /** `.pdf` cannot overlap itself. */
  lemma PdfExtensionNoBorder()
    ensures NoBorder(PdfExtension)
  {
    var p := PdfExtension;
    assert p[1..] != p[..3] && p[2..] != p[..2] && p[3..] != p[..1];
  }
}
