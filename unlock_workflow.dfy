/** The unlock page: at most one staged file, a password typed by the user, and
    a submit action that posts the file and the password and shows either the
    unlocked PDF or one error message. */
module UnlockWorkflow {
  import opened Wrappers
  import opened Multipart
  import opened Submission

  const NoFileChosen := "Please select a file to unlock"
  const NoPasswordTyped := "Please enter the PDF password"
  const UnlockFailed := "An error occurred while unlocking the file."
  const FileField := "file"
  const PasswordField := "password"

  /** `onDrop`: the first dropped file replaces the staged one; an empty drop
      keeps it. */
  function Replaced(current: Option<File>, accepted: seq<File>): (r: Option<File>)
    ensures |accepted| > 0 ==> r == Some(accepted[0])
    ensures |accepted| == 0 ==> r == current
  {
    if |accepted| > 0 then Some(accepted[0]) else current
  }

  /** The two checks at the head of `handleUnlock`, in their order: the
      message shown when one refuses to send. */
  function UnlockCheck(file: Option<File>, password: string): (rejection: Option<string>)
    ensures file.None? ==> rejection == Some(NoFileChosen)
    ensures file.Some? && password == "" ==> rejection == Some(NoPasswordTyped)
    ensures rejection.None? <==> file.Some? && password != ""
  {
    if file.None? then Some(NoFileChosen)
    else if password == "" then Some(NoPasswordTyped)
    else None
  }

  /** The body `handleUnlock` posts: the file, then the password. */
  function UnlockParts(file: File, password: string): (form: Form)
    ensures FileList(form, FileField) == [file]
    ensures FormValue(form, PasswordField) == Some(password)
    ensures |form| == 2
    ensures form[0] == FilePart(FileField, file) && form[1] == FieldPart(PasswordField, password)
  {
    var form := [FilePart(FileField, file), FieldPart(PasswordField, password)];
    assert form[1..][1..] == [];
    form
  }

  /** The state of the unlock page. */
  class UnlockPage {
    var selectedFile: Option<File>
    var password: string
    var unlockedFileURL: Option<Url>
    var errorMessage: string

    constructor ()
      ensures selectedFile == None && password == "" && unlockedFileURL == None && errorMessage == ""
    {
      selectedFile := None;
      password := "";
      unlockedFileURL := None;
      errorMessage := "";
    }

    /** A result is never shown together with an error. */
    ghost predicate ResultExcludesError()
      reads this
    {
      unlockedFileURL.Some? ==> errorMessage == ""
    }

    /** `onDrop`, for a drop zone that accepts one file. */
    method OnDrop(acceptedFiles: seq<File>)
      modifies this
      ensures selectedFile == Replaced(old(selectedFile), acceptedFiles)
      ensures password == old(password) && unlockedFileURL == old(unlockedFileURL)
      ensures errorMessage == old(errorMessage)
    {
      if |acceptedFiles| > 0 {
        selectedFile := Some(acceptedFiles[0]);
      }
    }

    /** The password input's `onChange`. */
    method OnPasswordChange(value: string)
      modifies this
      ensures password == value
      ensures selectedFile == old(selectedFile) && unlockedFileURL == old(unlockedFileURL)
      ensures errorMessage == old(errorMessage)
    {
      password := value;
    }

    /** The Unlock button's `disabled` attribute: on exactly when one of the
        submit checks would refuse. */
    function UnlockDisabled(): (disabled: bool)
      reads this
      ensures disabled <==> UnlockCheck(selectedFile, password).Some?
    {
      selectedFile.None? || password == ""
    }

    /** `handleUnlock` up to the `await`: the checks, the reset and the body
        handed to the POST (`None` when nothing is sent). */
    method BeginUnlock() returns (request: Option<Form>)
      modifies this
      ensures selectedFile == old(selectedFile) && password == old(password)
      ensures selectedFile.None? ==>
                request == None && errorMessage == NoFileChosen && unlockedFileURL == old(unlockedFileURL)
      ensures selectedFile.Some? && password == "" ==>
                request == None && errorMessage == NoPasswordTyped && unlockedFileURL == old(unlockedFileURL)
      ensures selectedFile.Some? && password != "" ==>
                && request == Some(UnlockParts(selectedFile.value, password))
                && errorMessage == "" && unlockedFileURL == None
    {
      var rejection := UnlockCheck(selectedFile, password);
      if rejection.Some? {
        errorMessage := rejection.value;
        return None;
      }
      errorMessage := "";
      unlockedFileURL := None;
      var formData := [FilePart(FileField, selectedFile.value)];
      formData := formData + [FieldPart(PasswordField, password)];
      assert formData == UnlockParts(selectedFile.value, password);
      request := Some(formData);
    }

    /** `handleUnlock` after the `await`: keep the new URL, or show the
        classified failure. */
    method FinishUnlock(outcome: Outcome)
      modifies this
      ensures selectedFile == old(selectedFile) && password == old(password)
      ensures outcome.Delivered? ==>
                unlockedFileURL == Some(outcome.fileURL) && errorMessage == old(errorMessage)
      ensures outcome.Failed? ==>
                errorMessage == FailureMessage(outcome.response, UnlockFailed)
                && unlockedFileURL == old(unlockedFileURL)
    {
      match outcome
      case Delivered(fileURL) =>
        unlockedFileURL := Some(fileURL);
      case Failed(response) =>
        errorMessage := FailureMessage(response, UnlockFailed);
    }

    /** The whole of `handleUnlock`, given what the POST would come back with. */
    method HandleUnlock(outcome: Outcome) returns (request: Option<Form>)
      modifies this
      ensures selectedFile == old(selectedFile) && password == old(password)
      ensures UnlockCheck(selectedFile, password).Some? ==>
                && request == None
                && errorMessage == UnlockCheck(selectedFile, password).value
                && unlockedFileURL == old(unlockedFileURL)
      ensures UnlockCheck(selectedFile, password).None? ==>
                && request == Some(UnlockParts(selectedFile.value, password))
                && (outcome.Delivered? ==> unlockedFileURL == Some(outcome.fileURL) && errorMessage == "")
                && (outcome.Failed? ==>
                      unlockedFileURL == None && errorMessage == FailureMessage(outcome.response, UnlockFailed))
      ensures !old(UnlockDisabled()) ==> ResultExcludesError()
    {
      request := BeginUnlock();
      if request.Some? {
        FinishUnlock(outcome);
      }
    }
  }

  /** Unlock with the wrong password: the server's 401 message is shown as it
      is and no result appears; an empty drop (what a one-file drop zone hands
      over when several files are dropped) keeps the staged file. */
  method WrongPasswordScenario(locked: File)
  {
    var page := new UnlockPage();
    var request := page.HandleUnlock(Delivered("blob:unused"));
    assert request == None && page.errorMessage == NoFileChosen;
    page.OnDrop([locked]);
    page.OnDrop([]);
    assert page.selectedFile == Some(locked);
    request := page.HandleUnlock(Delivered("blob:unused"));
    assert request == None && page.errorMessage == NoPasswordTyped;
    page.OnPasswordChange("wrong");
    request := page.HandleUnlock(Failed(Some(ErrorResponse(Some(Data(Some("Incorrect password")))))));
    assert request.Some?;
    assert page.errorMessage == "Incorrect password" && page.unlockedFileURL == None;
    request := page.HandleUnlock(Failed(None));
    assert page.errorMessage == UnlockFailed;
  }
}
