/** The merge page: an ordered list of staged files that the user extends by
    dropping files and shortens by removing one entry, and a submit action
    that posts every staged file, in order, and shows either the merged PDF
    or one error message. */
module MergeWorkflow {
  import opened Wrappers
  import opened Multipart
  import opened Subsequence
  import opened Submission

  const NeedTwoFiles := "Please select at least 2 files to merge"
  const MergeFailed := "An error occurred while merging the files."
  /** The field name under which every staged file is sent. */
  const FilesField := "files"

  // ---------------------------------------------------------------------
  // The staged list

  /** `[...prev, ...acceptedFiles]`: the dropped files after the staged ones. */
  function Appended(prev: seq<File>, accepted: seq<File>): (r: seq<File>)
    ensures |r| == |prev| + |accepted|
    ensures r[..|prev|] == prev && r[|prev|..] == accepted
  {
    prev + accepted
  }

  /** `prev.filter((_, i) => i !== index)`: the entries whose position is not
      `index`, in their original order. */
  function WithoutIndex<T>(s: seq<T>, index: int): (r: seq<T>)
    ensures |r| == if 0 <= index < |s| then |s| - 1 else |s|
    decreases |s|
  {
    if s == [] then []
    else WithoutIndex(s[..|s| - 1], index) + (if |s| - 1 == index then [] else [s[|s| - 1]])
  }

  /** An index outside the list filters nothing out. */
  lemma {:induction false} WithoutIndexOutOfRange<T>(s: seq<T>, index: int)
    requires !(0 <= index < |s|)
    ensures WithoutIndex(s, index) == s
    decreases |s|
  {
    if s != [] {
      WithoutIndexOutOfRange(s[..|s| - 1], index);
      assert s[..|s| - 1] + [s[|s| - 1]] == s;
    }
  }

  /** An index inside the list removes exactly that entry and keeps the
      others in order. */
  lemma {:induction false} WithoutIndexInRange<T>(s: seq<T>, index: int)
    requires 0 <= index < |s|
    ensures WithoutIndex(s, index) == s[..index] + s[index + 1..]
    decreases |s|
  {
    var p := s[..|s| - 1];
    if index == |s| - 1 {
      WithoutIndexOutOfRange(p, index);
      assert s[index + 1..] == [];
    } else {
      WithoutIndexInRange(p, index);
      assert p[..index] == s[..index];
      assert p[index + 1..] + [s[|s| - 1]] == s[index + 1..];
    }
  }

  /** One change the user makes to the staged list. */
  datatype StageEdit = Drop(files: seq<File>) | Remove(index: int)

  function ApplyEdit(s: seq<File>, e: StageEdit): seq<File>
  {
    match e
    case Drop(files) => Appended(s, files)
    case Remove(index) => WithoutIndex(s, index)
  }

  /** The staged list after a history of edits, applied first to last. */
  function ApplyEdits(s: seq<File>, edits: seq<StageEdit>): seq<File>
    decreases |edits|
  {
    if edits == [] then s else ApplyEdits(ApplyEdit(s, edits[0]), edits[1..])
  }

  /** The files one edit adds. */
  function EditDrops(e: StageEdit): seq<File>
  {
    match e
    case Drop(files) => files
    case Remove(_) => []
  }

  /** Every file dropped during a history, in drop order. */
  function Dropped(edits: seq<StageEdit>): seq<File>
    decreases |edits|
  {
    if edits == [] then [] else EditDrops(edits[0]) + Dropped(edits[1..])
  }

  /** How many removals of a history hit an existing entry. */
  function Removals(s: seq<File>, edits: seq<StageEdit>): nat
    decreases |edits|
  {
    if edits == [] then 0
    else
      (match edits[0] case Drop(_) => 0 case Remove(i) => if 0 <= i < |s| then 1 else 0)
      + Removals(ApplyEdit(s, edits[0]), edits[1..])
  }

  /** After any history of drops and removals, the list holds what it held
      plus what was dropped, less one entry per removal that hit an entry. */
  lemma {:induction false} StageLength(s: seq<File>, edits: seq<StageEdit>)
    ensures |ApplyEdits(s, edits)| == |s| + |Dropped(edits)| - Removals(s, edits)
    decreases |edits|
  {
    if edits != [] {
      StageLength(ApplyEdit(s, edits[0]), edits[1..]);
    }
  }

  /** One edit, followed by whatever comes later, keeps the order. */
  lemma {:induction false} EditKeepsOrder(s: seq<File>, e: StageEdit, later: seq<File>)
    ensures IsSubseq(ApplyEdit(s, e) + later, s + (EditDrops(e) + later))
  {
    match e
    case Drop(files) =>
      assert ApplyEdit(s, e) + later == s + (EditDrops(e) + later);
      SubseqRefl(s + (EditDrops(e) + later));
    case Remove(i) =>
      if 0 <= i < |s| {
        WithoutIndexInRange(s, i);
        SubseqDeleteAt(s, i);
      } else {
        WithoutIndexOutOfRange(s, i);
        SubseqRefl(s);
      }
      SubseqRefl(later);
      SubseqConcat(ApplyEdit(s, e), s, later, later);
      assert EditDrops(e) + later == later;
  }

  /** After any history, the surviving entries are the original and dropped
      files with some deleted and the rest in their original relative order. */
  lemma {:induction false} StageOrder(s: seq<File>, edits: seq<StageEdit>)
    ensures IsSubseq(ApplyEdits(s, edits), s + Dropped(edits))
    decreases |edits|
  {
    if edits == [] {
      assert s + [] == s;
      SubseqRefl(s);
    } else {
      var s' := ApplyEdit(s, edits[0]);
      StageOrder(s', edits[1..]);
      EditKeepsOrder(s, edits[0], Dropped(edits[1..]));
      SubseqTrans(ApplyEdits(s', edits[1..]), s' + Dropped(edits[1..]), s + Dropped(edits));
    }
  }

  // ---------------------------------------------------------------------
  // Submission

  /** The check at the head of `handleMerge`: the message it shows when it
      refuses to send. */
  function MergeCheck(files: seq<File>): (rejection: Option<string>)
    ensures rejection.None? <==> |files| >= 2
    ensures rejection.Some? ==> rejection.value == NeedTwoFiles
  {
    if |files| < 2 then Some(NeedTwoFiles) else None
  }

  /** The body `handleMerge` posts: one `files` entry per staged file. */
  function MergeParts(files: seq<File>): (parts: Form)
    ensures |parts| == |files|
    ensures forall i :: 0 <= i < |files| ==> parts[i] == FilePart(FilesField, files[i])
    decreases |files|
  {
    if files == [] then [] else MergeParts(files[..|files| - 1]) + [FilePart(FilesField, files[|files| - 1])]
  }

  /** The server reads back exactly the staged files, in staged order. */
  lemma {:induction false} MergePartsRoundTrip(files: seq<File>)
    ensures FileList(MergeParts(files), FilesField) == files
    decreases |files|
  {
    if files != [] {
      var p := files[..|files| - 1];
      var last := FilePart(FilesField, files[|files| - 1]);
      MergePartsRoundTrip(p);
      FileListAppend(MergeParts(p), [last], FilesField);
      assert FileList([last], FilesField) == [files[|files| - 1]];
      assert p + [files[|files| - 1]] == files;
    }
  }

  /** The `forEach` that appends every staged file to the `FormData`. */
  method BuildMergeForm(files: seq<File>) returns (formData: Form)
    ensures formData == MergeParts(files)
  {
    formData := [];
    var i := 0;
    while i < |files|
      invariant 0 <= i <= |files|
      invariant formData == MergeParts(files[..i])
    {
      assert files[..i + 1][..i] == files[..i];
      formData := formData + [FilePart(FilesField, files[i])];
      i := i + 1;
    }
    assert files[..|files|] == files;
  }

  /** The state of the merge page. */
  class MergePage {
    var selectedFiles: seq<File>
    var mergedFileURL: Option<Url>
    var errorMessage: string

    constructor ()
      ensures selectedFiles == [] && mergedFileURL == None && errorMessage == ""
    {
      selectedFiles := [];
      mergedFileURL := None;
      errorMessage := "";
    }

    /** A result is never shown together with an error. */
    ghost predicate ResultExcludesError()
      reads this
    {
      mergedFileURL.Some? ==> errorMessage == ""
    }

    /** `onDrop`: stage the dropped files after the existing ones. */
    method OnDrop(acceptedFiles: seq<File>)
      modifies this
      ensures selectedFiles == Appended(old(selectedFiles), acceptedFiles)
      ensures mergedFileURL == old(mergedFileURL) && errorMessage == old(errorMessage)
    {
      selectedFiles := Appended(selectedFiles, acceptedFiles);
    }

    /** `handleRemoveFile`: drop the entry at `index`; any other index changes nothing. */
    method HandleRemoveFile(index: int)
      modifies this
      ensures 0 <= index < |old(selectedFiles)| ==>
                selectedFiles == old(selectedFiles)[..index] + old(selectedFiles)[index + 1..]
      ensures !(0 <= index < |old(selectedFiles)|) ==> selectedFiles == old(selectedFiles)
      ensures mergedFileURL == old(mergedFileURL) && errorMessage == old(errorMessage)
    {
      if 0 <= index < |selectedFiles| {
        WithoutIndexInRange(selectedFiles, index);
      } else {
        WithoutIndexOutOfRange(selectedFiles, index);
      }
      selectedFiles := WithoutIndex(selectedFiles, index);
    }

    /** The Merge button's `disabled` attribute: on exactly when the submit
        check would refuse. */
    function MergeDisabled(): (disabled: bool)
      reads this
      ensures disabled <==> MergeCheck(selectedFiles).Some?
    {
      |selectedFiles| < 2
    }

    /** `handleMerge` up to the `await`: the check, the reset and the body
        handed to the POST (`None` when nothing is sent). */
    method BeginMerge() returns (request: Option<Form>)
      modifies this
      ensures selectedFiles == old(selectedFiles)
      ensures |selectedFiles| < 2 ==>
                request == None && errorMessage == NeedTwoFiles && mergedFileURL == old(mergedFileURL)
      ensures |selectedFiles| >= 2 ==>
                request == Some(MergeParts(selectedFiles)) && errorMessage == "" && mergedFileURL == None
    {
      var rejection := MergeCheck(selectedFiles);
      if rejection.Some? {
        errorMessage := rejection.value;
        return None;
      }
      errorMessage := "";
      mergedFileURL := None;
      var formData := BuildMergeForm(selectedFiles);
      request := Some(formData);
    }

    /** `handleMerge` after the `await`: keep the new URL, or show the
        classified failure. */
    method FinishMerge(outcome: Outcome)
      modifies this
      ensures selectedFiles == old(selectedFiles)
      ensures outcome.Delivered? ==>
                mergedFileURL == Some(outcome.fileURL) && errorMessage == old(errorMessage)
      ensures outcome.Failed? ==>
                errorMessage == FailureMessage(outcome.response, MergeFailed) && mergedFileURL == old(mergedFileURL)
    {
      match outcome
      case Delivered(fileURL) =>
        mergedFileURL := Some(fileURL);
      case Failed(response) =>
        errorMessage := FailureMessage(response, MergeFailed);
    }

    /** The whole of `handleMerge`, given what the POST would come back with. */
    method HandleMerge(outcome: Outcome) returns (request: Option<Form>)
      modifies this
      ensures selectedFiles == old(selectedFiles)
      ensures |selectedFiles| < 2 ==>
                request == None && errorMessage == NeedTwoFiles && mergedFileURL == old(mergedFileURL)
      ensures |selectedFiles| >= 2 ==>
                && request == Some(MergeParts(selectedFiles))
                && (outcome.Delivered? ==> mergedFileURL == Some(outcome.fileURL) && errorMessage == "")
                && (outcome.Failed? ==>
                      mergedFileURL == None && errorMessage == FailureMessage(outcome.response, MergeFailed))
      ensures !old(MergeDisabled()) ==> ResultExcludesError()
    {
      request := BeginMerge();
      if request.Some? {
        FinishMerge(outcome);
      }
    }
  }

  /** Stage three files, remove the middle one, and submit; the request fails
      with a response that carries a message, and that message is shown. */
  method RejectedMergeScenario(a: File, b: File, c: File)
  {
    var page := new MergePage();
    page.OnDrop([a, b]);
    page.OnDrop([c]);
    assert page.selectedFiles == [a, b, c];
    page.HandleRemoveFile(1);
    assert page.selectedFiles == [a, c];
    page.HandleRemoveFile(7);
    assert page.selectedFiles == [a, c];
    var message := "File is encrypted with an unsupported algorithm";
    var request := page.HandleMerge(Failed(Some(ErrorResponse(Some(Data(Some(message)))))));
    assert MergeParts([a, c]) == [FilePart(FilesField, a), FilePart(FilesField, c)];
    assert request == Some([FilePart(FilesField, a), FilePart(FilesField, c)]);
    assert page.errorMessage == message && page.mergedFileURL == None;
    page.HandleRemoveFile(0);
    assert page.MergeDisabled();
    request := page.HandleMerge(Delivered("blob:unused"));
    assert request == None && page.errorMessage == NeedTwoFiles;
  }
}
