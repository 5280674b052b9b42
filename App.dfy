/**
  The editor session of App.tsx as an object: the history and its cursor, the open confirmation
  dialog, the error banner, the edit hotspot and localStorage. Each handler updates the fields as
  the React setters do; the auto-save effect runs after every change of the history or the cursor.
  The results of the remote AI calls are parameters.
 */
module App {
  import opened Outcomes
  import opened JsText
  import opened Base64
  import opened Files
  import opened DataUrl
  import opened GeminiService
  import opened History
  import Persistence

  /** A point on the displayed image, in natural-image pixels. */
  datatype Point = Point(x: int, y: int)

  /** The file name an action gives its result: `${actionName}-${Date.now()}.png`. */
  function ResultName(actionName: string, now: nat): string {
    actionName + "-" + IntToString(now) + ".png"
  }

  /**
    What an image-to-image action delivers for the current image: `fileToPart` on it, the
    response classified by `handleApiResponse`, and the returned data URL decoded by
    `dataURLtoFile`; the first of these that throws decides the error.
   */
  function AIResult(current: Artifact, response: Response, context: string, fileName: string): (r: Result<Artifact>)
    ensures FileToPart(current).Err? ==> r == Err(FileToPart(current).failure)
    ensures IsBlocked(response) ==> r.Err?
    ensures r.Ok? ==>
      r.value.name == fileName && HandleApiResponse(response, context).Ok? &&
      r == FileFromDataUrl(HandleApiResponse(response, context).value, fileName)
  {
    match FileToPart(current)
    case Err(e) => Err(e)
    case Ok(_) =>
      match HandleApiResponse(response, context)
      case Err(e) => Err(e)
      case Ok(url) => FileFromDataUrl(url, fileName)
  }

  /**
    When the response hands back the current image unchanged, the action appends a file with the
    same type and bytes under the new name.
   */
  lemma EchoedImageAdded(current: Artifact, response: Response, context: string, fileName: string)
    requires Persistence.Restorable(current)
    requires !IsBlocked(response) && FileToPart(current).Ok? && FirstInline(response) == Some(FileToPart(current).value)
    ensures AIResult(current, response, context, fileName) == Ok(current.(name := fileName))
  {
    EchoedFileRoundTrip(current, response, context);
    FileRoundTrip(current.(name := fileName));
  }

  /**
    The body of the `try` in an image-to-image action: `fileToPart` on the current image, the
    response classified, and the returned data URL decoded by the byte-filling loop.
   */
  method RunImageAction(current: Artifact, response: Response, context: string, fileName: string)
    returns (r: Result<Artifact>)
    ensures r == AIResult(current, response, context, fileName)
  {
    var part := FileToPart(current);
    if part.Err? {
      return Err(part.failure);
    }
    var url := HandleApiResponse(response, context);
    if url.Err? {
      return Err(url.failure);
    }
    r := DataUrlToFile(url.value, fileName);
  }

  /**
    The checks `handleGenerate` makes before calling the service, in order, as the error message
    each one sets; None when all pass.
   */
  function EditPrecheck(current: Option<Artifact>, prompt: string, hotspot: Option<Point>): (r: Option<string>)
    ensures r.None? <==> current.Some? && Trim(prompt) != [] && hotspot.Some?
    ensures current.None? ==> r == Some("No image loaded to edit.")
    ensures current.Some? && Trim(prompt) == [] ==> r == Some("Please enter a description for your edit.")
    ensures current.Some? && Trim(prompt) != [] && hotspot.None? ==>
      r == Some("Please click on the image to select an area to edit.")
  {
    if current.None? then Some("No image loaded to edit.")
    else if Trim(prompt) == [] then Some("Please enter a description for your edit.")
    else if hotspot.None? then Some("Please click on the image to select an area to edit.")
    else None
  }

  /** A prompt of white space only is refused before anything is sent. */
  lemma BlankPromptRefused(current: Artifact, prompt: string, hotspot: Option<Point>)
    requires forall i | 0 <= i < |prompt| :: IsJsWhitespace(prompt[i])
    ensures EditPrecheck(Some(current), prompt, hotspot) == Some("Please enter a description for your edit.")
  {
  }

  /**
    What text-to-image generation delivers: the data URL from `generateImageFromText`, decoded by
    `dataURLtoFile` under the given name.
   */
  function TextImageResult(response: ImagesResponse, fileName: string): (r: Result<Artifact>)
    ensures GenerateImageFromText(response).Err? ==> r == Err(GenerateImageFromText(response).failure)
    ensures r.Ok? ==> r.value.name == fileName
  {
    match GenerateImageFromText(response)
    case Err(e) => Err(e)
    case Ok(url) => FileFromDataUrl(url, fileName)
  }

  /** A generated image whose bytes the service encoded becomes a PNG file holding those bytes. */
  lemma TextImageBytes(response: ImagesResponse, b: seq<byte>, fileName: string)
    requires response.generatedImages.Some? && |response.generatedImages.value| > 0
    requires response.generatedImages.value[0].image == Some(Image(Some(Encode(b))))
    ensures TextImageResult(response, fileName) == Ok(Artifact(fileName, PngType, b))
  {
    GeneratedImageFile(response, b, fileName);
  }

  /** The body of the `try` in text mode: generation, then the byte-filling decoder. */
  method RunTextToImage(response: ImagesResponse, fileName: string) returns (r: Result<Artifact>)
    ensures r == TextImageResult(response, fileName)
  {
    var url := GenerateImageFromText(response);
    if url.Err? {
      return Err(url.failure);
    }
    r := DataUrlToFile(url.value, fileName);
  }

  class Session {
    var history: seq<Artifact>
    var historyIndex: int
    var confirmation: Option<Pending>
    var error: Option<string>
    var editHotspot: Option<Point>
    var store: Persistence.Store

    /** The history part of the session as a value. */
    function State(): View
      reads this`history, this`historyIndex, this`confirmation
    {
      View(history, historyIndex, confirmation)
    }

    /** localStorage holds what the auto-save effect writes for the current history and cursor. */
    predicate Valid()
      reads this`store, this`history, this`historyIndex
    {
      Persistence.Save(store, history, historyIndex) == store
    }

    /** Mounting the editor: the two persistence effects run on the given localStorage. */
    constructor (initial: Persistence.Store)
      ensures Valid()
      ensures (State(), store) == Persistence.Mount(initial)
      ensures error.None? && editHotspot.None?
    {
      var (v, s) := Persistence.Mount(initial);
      history := v.history;
      historyIndex := v.index;
      confirmation := v.pending;
      error := None;
      editHotspot := None;
      store := s;
      new;
      var out := Persistence.Load(initial);
      var s2 := Persistence.Save(Persistence.AfterLoad(initial, out), [], -1);
      Persistence.SaveIdempotent(s2, v.history, v.index);
      Persistence.SaveIdempotent(Persistence.AfterLoad(initial, out), [], -1);
    }

    /** The auto-save effect, run after the history or the cursor changes. */
    method AutoSave()
      modifies this
      ensures store == Persistence.Save(old(store), history, historyIndex)
      ensures State() == old(State()) && error == old(error) && editHotspot == old(editHotspot)
      ensures Valid()
    {
      store := Persistence.Save(store, history, historyIndex);
      Persistence.SaveIdempotent(old(store), history, historyIndex);
    }

    /** `addImageToHistory`. */
    method AddImageToHistory(f: Artifact)
      modifies this
      ensures State() == AddImage(old(State()), f)
      ensures store == Persistence.Save(old(store), history, historyIndex)
      ensures error == old(error) && editHotspot == old(editHotspot)
      ensures Valid()
    {
      var kept := SlicePrefix(history, historyIndex + 1);
      history := kept + [f];
      historyIndex := |history| - 1;
      AutoSave();
    }

    /** `handleImageUpload`. */
    method ImageUpload(f: Artifact)
      modifies this
      ensures State() == Upload(old(State()), f)
      ensures store == Persistence.Save(old(store), [f], 0)
      ensures error.None? && editHotspot.None?
      ensures Valid()
    {
      error := None;
      history := [f];
      historyIndex := 0;
      editHotspot := None;
      AutoSave();
    }

    /** `handleUndo`: opens the confirmation dialog when undo is possible. */
    method RequestUndo()
      requires Valid()
      modifies this
      ensures State() == History.RequestUndo(old(State()))
      ensures store == old(store) && error == old(error) && editHotspot == old(editHotspot)
      ensures Valid()
    {
      if historyIndex > 0 {
        confirmation := Some(Pending(Undo, historyIndex));
      }
    }

    /** `handleRedo`: opens the confirmation dialog when redo is possible. */
    method RequestRedo()
      requires Valid()
      modifies this
      ensures State() == History.RequestRedo(old(State()))
      ensures store == old(store) && error == old(error) && editHotspot == old(editHotspot)
      ensures Valid()
    {
      if historyIndex < |history| - 1 {
        confirmation := Some(Pending(Redo, historyIndex));
      }
    }

    /** The dialog's confirm button, with the guard checked against the current cursor. */
    method ConfirmPending()
      requires confirmation.Some?
      modifies this
      ensures State() == Confirm(old(State()))
      ensures store == Persistence.Save(old(store), history, historyIndex)
      ensures editHotspot.None? && error == old(error)
      ensures Valid()
    {
      match confirmation.value.dir {
        case Undo =>
          if historyIndex > 0 {
            historyIndex := historyIndex - 1;
          }
        case Redo =>
          if historyIndex < |history| - 1 {
            historyIndex := historyIndex + 1;
          }
      }
      editHotspot := None;
      confirmation := None;
      AutoSave();
    }

    /** The dialog's cancel button, or a click outside it. */
    method CancelPending()
      requires Valid()
      modifies this
      ensures State() == Cancel(old(State()))
      ensures store == old(store) && error == old(error) && editHotspot == old(editHotspot)
      ensures Valid()
    {
      confirmation := None;
    }

    /** `handleReset`. */
    method Reset()
      requires Valid()
      modifies this
      ensures State() == History.Reset(old(State()))
      ensures store == Persistence.Save(old(store), history, historyIndex)
      ensures |old(history)| > 0 ==> error.None? && editHotspot.None?
      ensures |old(history)| == 0 ==> error == old(error) && editHotspot == old(editHotspot) && store == old(store)
      ensures Valid()
    {
      if |history| > 0 {
        historyIndex := 0;
        error := None;
        editHotspot := None;
        AutoSave();
      }
    }

    /** `handleUploadNew`: an empty history, and the saved session removed. */
    method UploadNew()
      modifies this
      ensures State() == Clear(old(State()))
      ensures store == old(store) - {Persistence.SessionKey}
      ensures error.None? && editHotspot.None?
      ensures Valid()
    {
      history := [];
      historyIndex := -1;
      error := None;
      editHotspot := None;
      store := store - {Persistence.SessionKey};
      AutoSave();
    }

    /**
      `handleGenericAIAction`: with no current image only the error is set; otherwise a result
      image is appended to the history, and a failure anywhere on the way sets the error message
      and leaves the history, the cursor and localStorage as they were.
     */
    method GenericAIAction(actionName: string, context: string, response: Response, now: nat)
      requires Valid()
      modifies this
      ensures old(CurrentImage(State())).None? ==>
        State() == old(State()) && store == old(store) && error == Some("No image loaded.")
      ensures old(CurrentImage(State())).Some? ==>
        var r := AIResult(old(CurrentImage(State())).value, response, context, ResultName(actionName, now));
        (r.Ok? ==> State() == AddImage(old(State()), r.value) && error.None? &&
                   store == Persistence.Save(old(store), history, historyIndex)) &&
        (r.Err? ==> State() == old(State()) && store == old(store) &&
                    error == Some("Failed to perform " + actionName + ". " + r.failure.message))
      ensures editHotspot == old(editHotspot)
      ensures Valid()
    {
      var current := CurrentImage(State());
      if current.None? {
        error := Some("No image loaded.");
        return;
      }
      error := None;
      var file := RunImageAction(current.value, response, context, ResultName(actionName, now));
      if file.Err? {
        error := Some("Failed to perform " + actionName + ". " + file.failure.message);
        return;
      }
      AddImageToHistory(file.value);
    }

    /**
      `handleGenerate`, the localized edit: without a current image, with a blank prompt or
      without a selected hotspot only the error is set; otherwise a result is appended and clears
      the hotspot, and a failure only sets the error message.
     */
    method Generate(prompt: string, response: Response, now: nat)
      requires Valid()
      modifies this
      ensures var check := EditPrecheck(old(CurrentImage(State())), prompt, old(editHotspot));
        check.Some? ==>
          State() == old(State()) && store == old(store) && editHotspot == old(editHotspot) && error == check
      ensures EditPrecheck(old(CurrentImage(State())), prompt, old(editHotspot)).None? ==>
        var r := AIResult(old(CurrentImage(State())).value, response, "edit", ResultName("edited", now));
        (r.Ok? ==> State() == AddImage(old(State()), r.value) && error.None? && editHotspot.None? &&
                   store == Persistence.Save(old(store), history, historyIndex)) &&
        (r.Err? ==> State() == old(State()) && store == old(store) && editHotspot == old(editHotspot) &&
                    error == Some("Failed to generate the image. " + r.failure.message))
      ensures Valid()
    {
      var current := CurrentImage(State());
      var check := EditPrecheck(current, prompt, editHotspot);
      if check.Some? {
        error := check;
        return;
      }
      error := None;
      var file := RunImageAction(current.value, response, "edit", ResultName("edited", now));
      FinishEdit(file);
    }

    /** The end of `handleGenerate` once the service call and the decoding have an outcome. */
    method FinishEdit(file: Result<Artifact>)
      requires Valid()
      modifies this
      ensures file.Ok? ==>
        State() == AddImage(old(State()), file.value) && error == old(error) && editHotspot.None? &&
        store == Persistence.Save(old(store), history, historyIndex)
      ensures file.Err? ==>
        State() == old(State()) && store == old(store) && editHotspot == old(editHotspot) &&
        error == Some("Failed to generate the image. " + file.failure.message)
      ensures Valid()
    {
      if file.Err? {
        error := Some("Failed to generate the image. " + file.failure.message);
        return;
      }
      editHotspot := None;
      AddImageToHistory(file.value);
    }

    /**
      `handleGenerateImage` in text mode: the generated image replaces the whole history, as an
      upload does; a failure only sets the error message.
     */
    method GenerateFromText(response: ImagesResponse, now: nat)
      requires Valid()
      modifies this
      ensures var r := TextImageResult(response, ResultName("generated", now));
        (r.Ok? ==> State() == Upload(old(State()), r.value) && error.None? && editHotspot.None? &&
                   store == Persistence.Save(old(store), history, historyIndex)) &&
        (r.Err? ==> State() == old(State()) && store == old(store) && editHotspot == old(editHotspot) &&
                    error == Some("Failed to generate image. " + r.failure.message))
      ensures Valid()
    {
      error := None;
      var file := RunTextToImage(response, ResultName("generated", now));
      if file.Err? {
        error := Some("Failed to generate image. " + file.failure.message);
        return;
      }
      ImageUpload(file.value);
    }
  }
}
