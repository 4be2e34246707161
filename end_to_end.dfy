/** What the server makes of the bodies the two pages build: the field names
    agree, the staged order reaches the merge unchanged, and a form the page is
    willing to send never meets the server's own validation errors. */
module EndToEnd {
  import opened Wrappers
  import opened Multipart
  import MergeWorkflow
  import UnlockWorkflow
  import Backend

  /** The merge handler reads back exactly the staged files, in staged order,
      so its page order is decided by the staged list alone; when the page
      sends at all, neither 400 of the handler can come back. */
  lemma {:induction false} MergeFormReachesHandler(staged: seq<File>)
    ensures FileList(MergeWorkflow.MergeParts(staged), Backend.MergeFilesField) == staged
    ensures MergeWorkflow.MergeCheck(staged).None? ==>
              HasFile(MergeWorkflow.MergeParts(staged), Backend.MergeFilesField)
              && |FileList(MergeWorkflow.MergeParts(staged), Backend.MergeFilesField)| >= 2
  {
    MergeWorkflow.MergePartsRoundTrip(staged);
  }

  /** A form the unlock page sends is answered as the server would answer that
      file with that password: never a 400, and a 401 only for a document that
      needs a password and does not accept this one. */
  lemma {:induction false} UnlockFormReachesHandler(file: File, password: string, today: string)
    requires UnlockWorkflow.UnlockCheck(Some(file), password).None?
    ensures var reply := Backend.UnlockPdf(UnlockWorkflow.UnlockParts(file, password), today);
            && !(reply.JsonError? && reply.status == 400)
            && (reply.JsonError? && reply.status == 401 <==>
                  file.content.asPdf.Opened? && file.content.asPdf.value.needsPass
                  && !Backend.Authenticates(file.content.asPdf.value, password))
  {
  }

  /** Two PDFs, one named in capitals, and an image: the merged document is
      the pages of each in upload order, the image on a page of its own. */
  lemma {:induction false} MixedMergeScenario(report: Document, notes: Document, photo: nat, other: Content)
    ensures
      var files := [File("Report.PDF", Content(Opened(report), other.asImage)),
                    File("photo.jpg", Content(other.asPdf, Opened(photo))),
                    File("notes.pdf", Content(Opened(notes), other.asImage))];
      Backend.MergedPages(files) == Some(report.pages + [ImagePage(photo)] + notes.pages)
  {
    var a := File("Report.PDF", Content(Opened(report), other.asImage));
    var b := File("photo.jpg", Content(other.asPdf, Opened(photo)));
    var c := File("notes.pdf", Content(Opened(notes), other.asImage));
    Backend.PdfPathLetters(a.name);
    Backend.PdfPathLetters(b.name);
    Backend.PdfPathLetters(c.name);
    assert Backend.Contribution(a) == Some(report.pages);
    assert Backend.Contribution(b) == Some([ImagePage(photo)]);
    assert Backend.Contribution(c) == Some(notes.pages);
    assert [a][..0] == [];
    assert Backend.MergedPages([a]) == Some([] + report.pages);
    assert [] + report.pages == report.pages;
    assert [a, b][..1] == [a] && [a, b][1] == b;
    assert Backend.MergedPages([a, b]) == Some(report.pages + [ImagePage(photo)]);
    assert [a, b, c][..2] == [a, b] && [a, b, c][2] == c;
  }

  /** A name that merely contains ".pdf" goes to the image decoder, so the
      merge fails when that decoder refuses the bytes, even if they are a PDF. */
  lemma {:induction false} MisnamedUploadScenario(first: File, pdf: Document, refusal: string)
    ensures Backend.MergedPages([first, File("scan.pdf.png", Content(Opened(pdf), Raises(refusal)))]) == None
  {
    var b := File("scan.pdf.png", Content(Opened(pdf), Raises(refusal)));
    Backend.PdfPathLetters(b.name);
    assert Backend.Contribution(b) == None;
    assert [first, b][..1] == [first];
  }
}
