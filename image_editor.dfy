/**
 * The editor view (components/ImageEditor.tsx): the user uploads an image,
 * types an instruction and applies it. Each asynchronous handler is split
 * at its one `await` into a method that runs up to it and a method that
 * runs from it, given how the awaited call settled.
 */
module EditorView {
  import opened Wrappers
  import opened GeminiService

  const NoImageMessage := "Please upload an image first."
  const NoInstructionMessage := "Please enter an editing instruction."
  const EditFailedMessage := "Failed to edit image. Please try again."
  const FileReadFailedMessage := "Could not process file. Please try another image."

  /** How reading the chosen file settles: the data URL FileReader
      produced, or a read error. */
  datatype ReadOutcome = Loaded(dataUrl: string) | ReadFailed

  /** The guards of handleEdit, in their order: the message the first
      failing one sets, or None when the edit goes ahead. */
  function EditGuard(original: Option<ImageData>, prompt: string): (message: Option<string>)
    ensures original.None? ==> message == Some(NoImageMessage)
    ensures original.Some? && prompt == "" ==> message == Some(NoInstructionMessage)
    ensures message.None? <==> original.Some? && prompt != ""
  {
    if original.None? then Some(NoImageMessage)
    else if prompt == "" then Some(NoInstructionMessage)
    else None
  }

  /** The Apply Edit button is enabled. */
  predicate ApplyEnabled(isLoading: bool, original: Option<ImageData>, prompt: string)
  {
    !(isLoading || original.None? || prompt == "")
  }

  /** An enabled button means both guards pass, so through the button the
      guards never fire; a loading view is the one case where the guards
      pass and the button is still disabled. */
  lemma ApplyEnabledPassesGuards(isLoading: bool, original: Option<ImageData>, prompt: string)
    ensures ApplyEnabled(isLoading, original, prompt) <==> !isLoading && EditGuard(original, prompt).None?
  {
  }

  class ImageEditor {
    var originalImage: Option<ImageData>
    var editedImage: Option<string>
    var prompt: string
    var isLoading: bool
    var error: Option<string>
    /** Edit calls issued and not yet settled. */
    ghost var pending: nat

    /** The states the view reaches through its controls: at most one edit
        call in flight, exactly while loading, with no edited image shown
        meanwhile; and no instruction before there is an image, since the
        instruction input is disabled until then. */
    ghost predicate Valid()
      reads this
    {
      pending <= 1 && (isLoading <==> pending == 1) && (isLoading ==> editedImage.None?) &&
      (originalImage.None? ==> prompt == "")
    }

    /** The view as first rendered. */
    constructor ()
      ensures Valid()
      ensures originalImage.None? && editedImage.None? && prompt == ""
      ensures !isLoading && error.None? && pending == 0
    {
      originalImage, editedImage, prompt := None, None, "";
      isLoading, error := false, None;
      pending := 0;
    }

    /** The instruction input's onChange; the input is disabled, and so
        fires nothing, while there is no image. */
    method EnterPrompt(text: string)
      modifies this
      ensures prompt == if old(originalImage).Some? then text else old(prompt)
      ensures originalImage == old(originalImage) && editedImage == old(editedImage)
      ensures isLoading == old(isLoading) && error == old(error) && pending == old(pending)
      ensures old(Valid()) ==> Valid()
    {
      if originalImage.Some? {
        prompt := text;
      }
    }

    /** handleFileChange up to its `await`. `fileChosen` says whether the
        event carries a file; the result says whether fileToBase64 was
        started. */
    method SelectFile(fileChosen: bool) returns (reading: bool)
      modifies this
      ensures reading == fileChosen
      ensures fileChosen ==> error.None? && editedImage.None?
      ensures !fileChosen ==> error == old(error) && editedImage == old(editedImage)
      ensures originalImage == old(originalImage) && prompt == old(prompt)
      ensures isLoading == old(isLoading) && pending == old(pending)
      ensures old(Valid()) ==> Valid()
    {
      reading := fileChosen;
      if fileChosen {
        error := None;
        editedImage := None;
      }
    }

    /** handleFileChange after its `await`: a decoded file replaces the
        original image as a whole; a failed read keeps it. */
    method CompleteFileRead(outcome: ReadOutcome)
      modifies this
      ensures outcome.Loaded? ==> originalImage == Some(ParseDataUrl(outcome.dataUrl)) && error == old(error)
      ensures outcome.ReadFailed? ==> originalImage == old(originalImage) && error == Some(FileReadFailedMessage)
      ensures editedImage == old(editedImage) && prompt == old(prompt)
      ensures isLoading == old(isLoading) && pending == old(pending)
      ensures old(Valid()) ==> Valid()
    {
      match outcome
      case Loaded(dataUrl) =>
        originalImage := Some(ParseDataUrl(dataUrl));
      case ReadFailed =>
        error := Some(FileReadFailedMessage);
    }

    /** handleEdit up to its `await`. The result is the request editImage
        sends, or None when a guard returns early; a guard sets only
        `error`. */
    method HandleEdit() returns (request: Option<EditRequest>)
      modifies this
      ensures request.None? <==> EditGuard(old(originalImage), old(prompt)).Some?
      ensures request.None? ==>
                error == EditGuard(old(originalImage), old(prompt)) &&
                editedImage == old(editedImage) && isLoading == old(isLoading) && pending == old(pending)
      ensures request.Some? ==>
                request.value == EditRequestFor(old(originalImage).value.data, old(originalImage).value.mimeType, old(prompt)) &&
                isLoading && error.None? && editedImage.None? && pending == old(pending) + 1
      ensures originalImage == old(originalImage) && prompt == old(prompt)
    {
      if originalImage.None? {
        error := Some(NoImageMessage);
        return None;
      }
      if prompt == "" {
        error := Some(NoInstructionMessage);
        return None;
      }
      isLoading := true;
      error := None;
      editedImage := None;
      pending := pending + 1;
      request := Some(EditRequestFor(originalImage.value.data, originalImage.value.mimeType, prompt));
    }

    /** A click on Apply Edit: a disabled button does nothing, an enabled
        one runs handleEdit, whose guards then pass. */
    method ClickApply() returns (request: Option<EditRequest>)
      requires Valid()
      modifies this
      ensures Valid()
      ensures request.Some? <==> ApplyEnabled(old(isLoading), old(originalImage), old(prompt))
      ensures request.None? ==>
                error == old(error) && editedImage == old(editedImage) &&
                isLoading == old(isLoading) && pending == old(pending)
      ensures request.Some? ==>
                request.value == EditRequestFor(old(originalImage).value.data, old(originalImage).value.mimeType, old(prompt)) &&
                isLoading && error.None? && editedImage.None? && pending == 1
      ensures originalImage == old(originalImage) && prompt == old(prompt)
    {
      if ApplyEnabled(isLoading, originalImage, prompt) {
        request := HandleEdit();
      } else {
        request := None;
      }
    }

    /** handleEdit after its `await`, with its `finally`: success shows the
        edited image, failure the fixed message; loading ends either way. */
    method CompleteEdit(outcome: CallOutcome)
      requires pending > 0
      modifies this
      ensures outcome.Resolved? ==> editedImage == Some(outcome.url) && error == old(error)
      ensures outcome.Rejected? ==> editedImage == old(editedImage) && error == Some(EditFailedMessage)
      ensures !isLoading && pending == old(pending) - 1
      ensures originalImage == old(originalImage) && prompt == old(prompt)
      ensures old(Valid()) ==> Valid() && (outcome.Rejected? ==> editedImage.None?)
    {
      match outcome {
        case Resolved(url) =>
          editedImage := Some(url);
        case Rejected =>
          error := Some(EditFailedMessage);
      }
      isLoading := false;
      pending := pending - 1;
    }
  }

  /** Choosing a file that reads successfully, with nothing else happening
      in between: any earlier result and error are gone and the original
      image is the new file's payload, not a merge with the old one. */
  method ChooseFile(e: ImageEditor, dataUrl: string)
    requires e.Valid()
    modifies e
    ensures e.Valid()
    ensures e.originalImage == Some(ParseDataUrl(dataUrl))
    ensures e.editedImage.None? && e.error.None?
    ensures e.prompt == old(e.prompt) && e.isLoading == old(e.isLoading)
  {
    var reading := e.SelectFile(true);
    e.CompleteFileRead(Loaded(dataUrl));
  }

  /** A whole edit from an enabled button, with nothing else happening
      between the click and the response: the response goes through the
      extraction loop of editImage, and a network failure is `None`. */
  method ApplyEdit(e: ImageEditor, response: Option<GenerateContentResponse>) returns (request: EditRequest)
    requires e.Valid() && ApplyEnabled(e.isLoading, e.originalImage, e.prompt)
    modifies e
    ensures e.Valid() && !e.isLoading
    ensures request == EditRequestFor(old(e.originalImage).value.data, old(e.originalImage).value.mimeType, old(e.prompt))
    ensures response.Some? && EditResult(response.value).Ok? ==>
              e.editedImage == Some(EditResult(response.value).value) && e.error.None?
    ensures (response.None? || EditResult(response.value).Err?) ==>
              e.editedImage.None? && e.error == Some(EditFailedMessage)
    ensures e.originalImage == old(e.originalImage) && e.prompt == old(e.prompt)
  {
    var issued := e.ClickApply();
    request := issued.value;
    var outcome := Rejected;
    if response.Some? {
      var result := ExtractEditedImage(response.value);
      outcome := OutcomeOf(result);
    }
    e.CompleteEdit(outcome);
  }
}
