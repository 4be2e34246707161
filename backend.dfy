/** The two POST handlers of the server: which error each request shape gets,
    how each upload is routed to the PDF or the image path, how the merged
    document is accumulated, and the names of the returned files.

    PyMuPDF and PIL are foreign: what they make of an upload is read off the
    upload's `Content`. */
module Backend {
  import opened Wrappers
  import opened Multipart

  const NoFilesProvided := "No files provided"
  const TooFewFiles := "At least two files are required to merge"
  const NoFileProvided := "No file provided"
  const NoPasswordProvided := "No password provided"
  const IncorrectPassword := "Incorrect password"

  const MergeFilesField := "files"
  const UnlockFileField := "file"
  const UnlockPasswordField := "password"

  const MergedStem := "merged"
  const UnlockedStem := "unlocked"

  /** What a handler answers: a PDF sent as an attachment, a JSON
      `{"error": message}` with a status code, or Flask's generic 500 page for
      an exception nobody caught. */
  datatype Reply =
    | SendFile(pages: seq<Page>, downloadName: string)
    | JsonError(status: nat, message: string)
    | InternalServerError

  // ---------------------------------------------------------------------
  // Names

  /** Python's `str.lower` on the ASCII letters. */
  function LowerChar(c: char): char
  {
    if 'A' <= c <= 'Z' then (c as int + 32) as char else c
  }

  function Lower(s: string): (r: string)
    ensures |r| == |s|
    ensures forall i :: 0 <= i < |s| ==> r[i] == LowerChar(s[i])
  {
    seq(|s|, i requires 0 <= i < |s| => LowerChar(s[i]))
  }

  predicate EndsWith(s: string, suffix: string)
  {
    |suffix| <= |s| && s[|s| - |suffix|..] == suffix
  }

  /** `file.filename.lower().endswith('.pdf')`: whether an upload is opened as a
      PDF rather than as an image. */
  function TakesPdfPath(filename: string): (pdf: bool)
    ensures pdf <==> |filename| >= 4 && Lower(filename[|filename| - 4..]) == ".pdf"
  {
    var lowered := Lower(filename);
    assert |filename| >= 4 ==> lowered[|filename| - 4..] == Lower(filename[|filename| - 4..]);
    EndsWith(lowered, ".pdf")
  }

  /** The routing test spelled out letter by letter: the name ends in a dot
      followed by p, d, f, each in either case. */
  lemma {:induction false} PdfPathLetters(filename: string)
    ensures TakesPdfPath(filename) <==>
              var n := |filename|;
              && n >= 4
              && filename[n - 4] == '.'
              && filename[n - 3] in "pP"
              && filename[n - 2] in "dD"
              && filename[n - 1] in "fF"
  {
  }

  /** `f"{stem}_{today_date}.pdf"`: the suggested download name. */
  function DownloadName(stem: string, date: string): (name: string)
    ensures |name| == |stem| + |date| + 5
    ensures name[..|stem| + 1] == stem + "_"
    ensures name[|stem| + 1..|name| - 4] == date
    ensures name[|name| - 4..] == ".pdf"
  {
    var name := stem + "_" + date + ".pdf";
    assert name[..|stem| + 1] == stem + "_";
    assert name[|stem| + 1..|name| - 4] == date;
    name
  }

  /** A returned file would itself be routed as a PDF if it were uploaded again. */
  lemma {:induction false} DownloadNameIsPdf(stem: string, date: string)
    ensures TakesPdfPath(DownloadName(stem, date))
  {
    var name := DownloadName(stem, date);
    assert Lower(name[|name| - 4..]) == Lower(".pdf") == ".pdf";
  }

  // ---------------------------------------------------------------------
  // merge_pdf

  /** The pages one upload adds to the merged document, or `None` when the
      decoder its name routes it to raises. A PDF adds its own pages; an
      image adds the one A4 page made around it. */
  function Contribution(file: File): (c: Option<seq<Page>>)
    ensures c.None? <==> (if TakesPdfPath(file.name) then file.content.asPdf.Raises?
                          else file.content.asImage.Raises?)
    ensures c.Some? && TakesPdfPath(file.name) ==> c.value == file.content.asPdf.value.pages
    ensures c.Some? && !TakesPdfPath(file.name) ==> c.value == [ImagePage(file.content.asImage.value)]
  {
    if TakesPdfPath(file.name) then
      match file.content.asPdf
      case Opened(doc) => Some(doc.pages)
      case Raises(_) => None
    else
      match file.content.asImage
      case Opened(image) => Some([ImagePage(image)])
      case Raises(_) => None
  }

  /** The merged document after the uploads, in upload order, or `None` once
      one of them raises. */
  function MergedPages(files: seq<File>): (merged: Option<seq<Page>>)
    ensures merged.Some? ==> forall i :: 0 <= i < |files| ==> Contribution(files[i]).Some?
    decreases |files|
  {
    if files == [] then Some([])
    else
      match MergedPages(files[..|files| - 1])
      case None => None
      case Some(merged) =>
        match Contribution(files[|files| - 1])
        case None => None
        case Some(pages) => Some(merged + pages)
  }

  /** One more upload adds its contribution after the pages so far. */
  lemma MergedPagesSnoc(files: seq<File>, file: File)
    ensures MergedPages(files + [file]) ==
              if MergedPages(files).Some? && Contribution(file).Some?
              then Some(MergedPages(files).value + Contribution(file).value)
              else None
  {
  }

  /** Merging a list is merging its two halves and putting the first half's
      pages first. */
  lemma {:induction false} MergedPagesAppend(a: seq<File>, b: seq<File>)
    ensures MergedPages(a + b) ==
              if MergedPages(a).Some? && MergedPages(b).Some?
              then Some(MergedPages(a).value + MergedPages(b).value)
              else None
    decreases |b|
  {
    if b == [] {
      assert a + b == a;
      if MergedPages(a).Some? {
        assert MergedPages(a).value + [] == MergedPages(a).value;
      }
    } else {
      var init, last := b[..|b| - 1], b[|b| - 1];
      assert b == init + [last];
      assert a + b == (a + init) + [last];
      MergedPagesAppend(a, init);
      MergedPagesSnoc(a + init, last);
      MergedPagesSnoc(init, last);
      if MergedPages(a).Some? && MergedPages(init).Some? && Contribution(last).Some? {
        var pa, pi, pl := MergedPages(a).value, MergedPages(init).value, Contribution(last).value;
        assert (pa + pi) + pl == pa + (pi + pl);
      }
    }
  }

  /** The merge fails exactly when some upload cannot be decoded. */
  lemma {:induction false} MergedPagesFails(files: seq<File>)
    ensures MergedPages(files).None? <==> exists i :: 0 <= i < |files| && Contribution(files[i]).None?
    decreases |files|
  {
    if files != [] {
      var init := files[..|files| - 1];
      MergedPagesFails(init);
      if exists i :: 0 <= i < |init| && Contribution(init[i]).None? {
        var i :| 0 <= i < |init| && Contribution(init[i]).None?;
        assert files[i] == init[i];
      }
      if exists i :: 0 <= i < |files| && Contribution(files[i]).None? {
        var i :| 0 <= i < |files| && Contribution(files[i]).None?;
        if i < |init| {
          assert init[i] == files[i];
        }
      }
    }
  }

  /** `merge_pdf`. The `for` loop inserts each upload's pages into the one
      accumulating document; there is no `try`, so an upload that cannot be
      decoded ends the request with Flask's generic 500. */
  method MergePdf(form: Form, today: string) returns (reply: Reply)
    ensures !HasFile(form, MergeFilesField) ==> reply == JsonError(400, NoFilesProvided)
    ensures |FileList(form, MergeFilesField)| == 1 ==> reply == JsonError(400, TooFewFiles)
    ensures |FileList(form, MergeFilesField)| >= 2 ==>
              reply == match MergedPages(FileList(form, MergeFilesField))
                       case None => InternalServerError
                       case Some(pages) => SendFile(pages, DownloadName(MergedStem, today))
  {
    if !HasFile(form, MergeFilesField) {
      return JsonError(400, NoFilesProvided);
    }
    var files := FileList(form, MergeFilesField);
    if |files| < 2 {
      return JsonError(400, TooFewFiles);
    }
    var merged: seq<Page> := [];
    var i := 0;
    while i < |files|
      invariant 0 <= i <= |files|
      invariant MergedPages(files[..i]) == Some(merged)
    {
      assert files[..i + 1][..i] == files[..i];
      var contribution := Contribution(files[i]);
      if contribution.None? {
        MergedPagesAppend(files[..i + 1], files[i + 1..]);
        assert files[..i + 1] + files[i + 1..] == files;
        return InternalServerError;
      }
      merged := merged + contribution.value;
      i := i + 1;
    }
    assert files[..|files|] == files;
    reply := SendFile(merged, DownloadName(MergedStem, today));
  }

  // ---------------------------------------------------------------------
  // unlock_pdf

  /** PyMuPDF's `authenticate`, as an abstract predicate of the document. */
  predicate Authenticates(doc: Document, password: string)
  {
    password in doc.passwords
  }

  /** `'password' in request.form and request.form['password']`. */
  function PasswordGiven(form: Form): (given: bool)
    ensures given <==> exists k :: 0 <= k < |form| && SendsValue(form[k], UnlockPasswordField)
                                   && form[k].value != ""
                                   && forall j :: 0 <= j < k ==> !SendsValue(form[j], UnlockPasswordField)
  {
    FormValue(form, UnlockPasswordField).Some? && FormValue(form, UnlockPasswordField).value != ""
  }

  /** `unlock_pdf`. Every exception inside the handler is caught and sent back
      as a 500 with its text. */
  function UnlockPdf(form: Form, today: string): (reply: Reply)
    ensures !reply.InternalServerError?
    ensures !HasFile(form, UnlockFileField) ==> reply == JsonError(400, NoFileProvided)
    ensures HasFile(form, UnlockFileField) && !PasswordGiven(form) ==> reply == JsonError(400, NoPasswordProvided)
    ensures reply.JsonError? && reply.status == 401 ==>
              && reply.message == IncorrectPassword
              && FirstFile(form, UnlockFileField).value.content.asPdf.Opened?
              && FirstFile(form, UnlockFileField).value.content.asPdf.value.needsPass
              && !Authenticates(FirstFile(form, UnlockFileField).value.content.asPdf.value,
                                FormValue(form, UnlockPasswordField).value)
    ensures reply.JsonError? && reply.status == 500 ==>
              FirstFile(form, UnlockFileField).value.content.asPdf == Raises(reply.message)
    ensures HasFile(form, UnlockFileField) && PasswordGiven(form)
            && FirstFile(form, UnlockFileField).value.content.asPdf.Raises? ==>
              reply == JsonError(500, FirstFile(form, UnlockFileField).value.content.asPdf.message)
    ensures HasFile(form, UnlockFileField) && PasswordGiven(form)
            && FirstFile(form, UnlockFileField).value.content.asPdf.Opened?
            && FirstFile(form, UnlockFileField).value.content.asPdf.value.needsPass
            && !Authenticates(FirstFile(form, UnlockFileField).value.content.asPdf.value,
                              FormValue(form, UnlockPasswordField).value) ==>
              reply == JsonError(401, IncorrectPassword)
  {
    if !HasFile(form, UnlockFileField) then JsonError(400, NoFileProvided)
    else if !PasswordGiven(form) then JsonError(400, NoPasswordProvided)
    else
      var pdfFile := FirstFile(form, UnlockFileField).value;
      var password := FormValue(form, UnlockPasswordField).value;
      match pdfFile.content.asPdf
      case Raises(message) => JsonError(500, message)
      case Opened(doc) =>
        if doc.needsPass && !Authenticates(doc, password) then JsonError(401, IncorrectPassword)
        else SendFile(doc.pages, DownloadName(UnlockedStem, today))
  }

  /** Unlocking succeeds exactly when a file and a password were sent, the file
      opens as a PDF, and it either needs no password or accepts the one sent;
      the reply is then that document's pages under the unlocked name. */
  lemma {:induction false} UnlockSucceedsIff(form: Form, today: string)
    ensures UnlockPdf(form, today).SendFile? <==>
              && HasFile(form, UnlockFileField)
              && PasswordGiven(form)
              && FirstFile(form, UnlockFileField).value.content.asPdf.Opened?
              && var doc := FirstFile(form, UnlockFileField).value.content.asPdf.value;
                 !doc.needsPass || Authenticates(doc, FormValue(form, UnlockPasswordField).value)
    ensures UnlockPdf(form, today).SendFile? ==>
              && UnlockPdf(form, today).pages == FirstFile(form, UnlockFileField).value.content.asPdf.value.pages
              && UnlockPdf(form, today).downloadName == DownloadName(UnlockedStem, today)
  {
  }

  /** A document that needs no password is returned whatever non-empty
      password came with it: the password is never checked. */
  lemma {:induction false} UnlockIgnoresPasswordOfOpenDocument(form1: Form, form2: Form, today: string)
    requires FirstFile(form1, UnlockFileField) == FirstFile(form2, UnlockFileField)
    requires PasswordGiven(form1) && PasswordGiven(form2)
    requires FirstFile(form1, UnlockFileField).Some?
    requires var c := FirstFile(form1, UnlockFileField).value.content;
             c.asPdf.Opened? && !c.asPdf.value.needsPass
    ensures UnlockPdf(form1, today) == UnlockPdf(form2, today)
  {
  }
}
