/** Files and multi-part form bodies, shared by the browser pages (which build a
    form) and the server handlers (which read one).

    A file is a name plus abstract content. What the content turns into is
    decided by foreign code (PyMuPDF's `fitz.open`, PIL's `Image.open`), so the
    content records, for each of those two decoders, the value it would produce
    or the exception it would raise. */
module Multipart {
  import opened Wrappers

  /** The answer of a foreign decoder: a value, or an exception with its text. */
  datatype Opened<T> = Opened(value: T) | Raises(message: string)

  /** A page of a PDF: one taken from an uploaded document, or the A4 page that
      the server makes around an uploaded image. */
  datatype Page = DocumentPage(id: nat) | ImagePage(image: nat)

  /** An opened PDF: its pages, PyMuPDF's `needs_pass`, and the passwords its
      `authenticate` accepts. */
  datatype Document = Document(pages: seq<Page>, needsPass: bool, passwords: set<string>)

  /** What the two decoders make of a file's bytes. */
  datatype Content = Content(asPdf: Opened<Document>, asImage: Opened<nat>)

  datatype File = File(name: string, content: Content)

  /** One entry of a multi-part body: a file under a field name, or a text value. */
  datatype Part = FilePart(field: string, file: File) | FieldPart(field: string, value: string)

  /** A multi-part body, in the order its entries were appended (a `FormData`). */
  type Form = seq<Part>

  /** Whether a part is a file sent under `field`. */
  predicate SendsFile(part: Part, field: string)
  {
    part.FilePart? && part.field == field
  }

  /** Whether a part is a text value sent under `field`. */
  predicate SendsValue(part: Part, field: string)
  {
    part.FieldPart? && part.field == field
  }

  /** The files sent under `field`, in body order (`request.files.getlist(field)`). */
  function FileList(form: Form, field: string): (files: seq<File>)
    ensures |files| <= |form|
    ensures files == [] <==> forall k :: 0 <= k < |form| ==> !SendsFile(form[k], field)
    ensures files != [] ==>
              exists k :: 0 <= k < |form| && form[k] == FilePart(field, files[0])
                          && forall j :: 0 <= j < k ==> !SendsFile(form[j], field)
  {
    if form == [] then []
    else
      var rest := FileList(form[1..], field);
      assert forall k :: 1 <= k < |form| ==> form[k] == form[1..][k - 1];
      (match form[0]
       case FilePart(f, file) => if f == field then [file] else []
       case FieldPart(_, _) => [])
      + rest
  }

  /** `field in request.files`: a multi-dictionary holds a key exactly when at
      least one entry was sent under it. */
  function HasFile(form: Form, field: string): (present: bool)
    ensures present <==> exists k :: 0 <= k < |form| && SendsFile(form[k], field)
  {
    FileList(form, field) != []
  }

  /** `request.files[field]`: the first file sent under `field`. */
  function FirstFile(form: Form, field: string): (first: Option<File>)
    ensures first.Some? <==> HasFile(form, field)
    ensures first.Some? ==>
              exists k :: 0 <= k < |form| && form[k] == FilePart(field, first.value)
                          && forall j :: 0 <= j < k ==> !SendsFile(form[j], field)
  {
    var files := FileList(form, field);
    if files == [] then None else Some(files[0])
  }

  /** `request.form[field]`: the first text value sent under `field`, if any. */
  function FormValue(form: Form, field: string): (v: Option<string>)
    ensures v.None? <==> forall k :: 0 <= k < |form| ==> !SendsValue(form[k], field)
    ensures v.Some? ==>
              exists k :: 0 <= k < |form| && form[k] == FieldPart(field, v.value)
                          && forall j :: 0 <= j < k ==> !SendsValue(form[j], field)
  {
    if form == [] then None
    else
      assert forall k :: 1 <= k < |form| ==> form[k] == form[1..][k - 1];
      match form[0]
      case FieldPart(f, value) => if f == field then Some(value) else FormValue(form[1..], field)
      case FilePart(_, _) => FormValue(form[1..], field)
  }

  /** Reading the files of a body is reading those of each of its two halves. */
  lemma {:induction false} FileListAppend(a: Form, b: Form, field: string)
    ensures FileList(a + b, field) == FileList(a, field) + FileList(b, field)
  {
    if a == [] {
      assert a + b == b;
    } else {
      assert (a + b)[0] == a[0];
      assert (a + b)[1..] == a[1..] + b;
      FileListAppend(a[1..], b, field);
    }
  }
}
