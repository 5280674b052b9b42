# PicStudio editor session and response handling, in Dafny

PicStudio is a browser photo editor. The user uploads an image, or generates one from text. Remote
generative-AI calls then edit it, filter it, adjust it, remove its background or upscale it. This
project models the two parts of the editor whose behaviour can be stated exactly.

- **The edit history session of `App.tsx`.** It holds a list of image files and a cursor into the
  list. The handlers append a result and discard the redo branch, replace the list on upload, and
  step the cursor back or forward through a confirmation dialog. They can also reset the cursor to
  the original or clear the session. An auto-save effect writes the list and the cursor to
  localStorage under `pixshopSession`, and a load effect reads them back on mount. Images travel as
  data URLs and are decoded by `dataURLtoFile`, a split on `,`, the expression `/:(.*?);/`, `atob`
  and a loop that fills a byte array.
- **Response classification in `services/geminiService.ts`.** `fileToPart` splits a file's data URL
  into a MIME type and a payload. `handleApiResponse` and `handleTextApiResponse` turn a model
  response into a data URL, an OBJ text or an error, in a fixed priority order.
  `generateImageFromText` wraps the first generated image as a PNG data URL.

Modules, from the bottom up:

- `Outcomes`: `Option`, `Result` and `Failure`. A thrown `Error` is `Err(Failure(kind, message))`.
- `JsText`: the JavaScript string operations the code relies on. These are `split` on one
  character, `join`, `trim` with the ECMAScript white space and line terminator sets, and the
  decimal printing of `Date.now()`.
- `Base64`: the padded encoding of RFC 4648 section 4 that `FileReader.readAsDataURL` produces. It
  also holds `atob`, which applies the forgiving-base64 decode of the WHATWG Infra standard.
- `Files`: a `File` as its name, its type and its bytes. The `File` constructor keeps a type only
  when it is printable ASCII, and lower-cases it.
- `DataUrl`: the `/:(.*?);/` match, the header parse shared by `dataURLtoFile` and `fileToPart`,
  and `fileToDataURL`. It also holds `dataURLtoFile` as a method with its `while (n--)` loop over an
  array.
- `GeminiService`: the response records and the classification functions.
- `History`: the history and the cursor as a value, with one function per handler. It holds the
  cursor invariant and the lemmas about traces of user actions.
- `Persistence`: localStorage as a map from keys to stored texts. It models the save record, the
  load checks, and the two effects run on mount.
- `App`: `class Session`. Its fields are the history, the cursor, the open dialog, the error
  banner, the edit hotspot and localStorage. Each handler is a method whose new state is the
  matching `History` function of the old state, followed by the auto-save. The constructor and
  the dialog's confirm button use the corrected `Persistence.Mount` and `History.Confirm` from
  "## Findings"; the behaviour as written exists only as the functions
  `Persistence.MountAsWritten` and `History.ConfirmAsWritten`.

The remote AI calls are not modelled. Their responses, and the clock behind `Date.now()`, are
parameters. localStorage is a `map`, and the JSON text under the key is modelled by the value
`JSON.parse` returns for it.

The load effect does not check the stored cursor against the list: `App.tsx:410` only tests that
`index` is a number. `Persistence.LoadAcceptsAnyIndex` shows that such a cursor is restored as it
is.

## Model

| member | source | states |
|---|---|---|
| JsText.SplitJoin | App.tsx:280 | Splitting on a separator that none of the pieces contains gives the pieces back. |
| JsText.JoinSplit | App.tsx:280 | Joining the pieces of a split with the separator gives the original string back. |
| JsText.SplitPiecesOmitSeparator | App.tsx:280 | No piece of `split(',')` contains the separator. |
| JsText.SplitHasSecondPiece | App.tsx:281 | `split` yields two or more pieces exactly when the separator occurs, so the "Invalid data URL" test is a test for a comma. |
| JsText.Trim | services/geminiService.ts:56 | `trim()` removes exactly the leading and trailing JavaScript white space. The rest is an unchanged infix whose ends are not white space. The result is empty exactly when the input is all white space. |
| JsText.IntToString | App.tsx:507 | The decimal form of `Date.now()` in a file name starts with '-' exactly for a negative number. |
| JsText.NatToStringValue | App.tsx:507 | The printed digits of a non-negative number read back as that number. |
| Base64.Atob | App.tsx:286 | `atob` fails with InvalidCharacterError exactly when the input, less ASCII white space and up to two trailing '=', has length 1 mod 4 or a non-alphabet character. On success every character is below 256. |
| Base64.DecodeEncodeUnpadded | App.tsx:286 | Decoding the unpadded encoding of any bytes gives the bytes back. |
| Base64.AtobEncode | App.tsx:286 | `atob` on the padded encoding that `readAsDataURL` writes yields one character per byte, with that byte's code. |
| Base64.EncodeFillsGroups | App.tsx:295-302 | The padded encoding is a whole number of four-character groups. |
| Files.FileTypeIsNormal | App.tsx:292 | The type the `File` constructor stores is always printable lower-case ASCII, or empty. |
| Files.NormalTypeChars | App.tsx:292 | A type is left unchanged by the `File` constructor exactly when all its characters are printable ASCII and none is an upper-case letter. |
| DataUrl.CloseFrom | App.tsx:282 | Finds the first ';' after a position with no line terminator before it, or establishes that there is none. |
| DataUrl.SearchFrom | App.tsx:282 | Returns the leftmost start from a position at which `/:(.*?);/` matches, with its end; none is returned exactly when no position matches. |
| DataUrl.ClosesUnique | App.tsx:282 | The lazy group fixes the end of a match: a match has one end for a given start. |
| DataUrl.MimeMatchIsLeftmost | App.tsx:282-283 | The captured MIME type is the group of the leftmost match, and there is none exactly when the expression matches nowhere in the header. |
| DataUrl.ParseDataUrl | App.tsx:280-286 | "Invalid data URL" exactly when there is no comma. Otherwise a missing or empty group is "Could not parse MIME type". On success the type is the group's non-empty text. The payload is the comma-free text after the first comma, up to the next comma or the end. |
| DataUrl.HeaderWithoutSemicolonRejected | App.tsx:282-283 | A header without ';' is rejected with "Could not parse MIME type from data URL". |
| DataUrl.ParseFormat | services/geminiService.ts:17-24 | Parsing `data:<t>;base64,<p>` gives back t and p when t is header-safe and p has no comma. An empty t is the missing-MIME-type error. |
| DataUrl.HeaderMatch | App.tsx:282 | In `data:<t>;base64` the expression captures exactly t when t has no ';', ',' or line terminator. |
| DataUrl.CharCodes | App.tsx:288-290 | One byte per character, each the character code modulo 256, which is what a Uint8Array store keeps. |
| DataUrl.FileFromDataUrl | App.tsx:279-292 | A decoded file carries the requested name and a type in the `File` constructor's normal form. |
| DataUrl.FillCharCodes | App.tsx:287-290 | The `while (n--)` loop fills a new array of the string's length with the string's character codes modulo 256. |
| DataUrl.DataUrlToFile | App.tsx:279-292 | The byte-filling loop produces exactly the specified file. On success the array has the decoded string's length, and byte i is the code of character i of `atob`'s output. |
| DataUrl.CharCodesBinary | App.tsx:288-290 | Reading back the character codes of `atob`'s output gives the encoded bytes. |
| DataUrl.FileRoundTrip | App.tsx:279-302 | A file whose type is normal and header-safe comes back equal, with name, type and bytes, from `dataURLtoFile(fileToDataURL(f), f.name)`. |
| GeminiService.FindInline | services/geminiService.ts:40 | `find(part => part.inlineData)` returns the first part with inline data, or none when no part has any. |
| GeminiService.FirstInline | services/geminiService.ts:40 | The optional chain yields inline data exactly when there is a first candidate whose content has parts and one of them carries inline data. What it yields is the inline data of the first such part, as `find` returns it. |
| GeminiService.FileToPart | services/geminiService.ts:9-24 | Fails exactly when the file's data URL fails to parse, and with the same error. Otherwise the part holds the parsed MIME type and payload. |
| GeminiService.FileToPartContents | services/geminiService.ts:9-24 | A file with a non-empty header-safe type is sent as that type and the padded encoding of its bytes. |
| GeminiService.FileToPartNeedsType | services/geminiService.ts:17-20 | A file with an empty type, the type the `File` constructor leaves of an unusual one, is refused with the missing-MIME-type error. |
| GeminiService.HandleApiResponse | services/geminiService.ts:27-64 | Succeeds exactly when there is no block reason and some part carries inline data, and then returns `data:<mime>;base64,<data>`. A block reason is the Blocked error. Otherwise a truthy finish reason other than STOP is "stopped unexpectedly", and anything else is "did not return an image". |
| GeminiService.BlockWinsOverImage | services/geminiService.ts:32-46 | A block reason makes the call fail even when the response also carries an image. |
| GeminiService.NoImageNoResult | services/geminiService.ts:49-63 | Without an image part and without an early stop the call always fails, and the outcome depends only on the response text. |
| GeminiService.ApiResponseParsesBack | services/geminiService.ts:17-45 | The returned data URL, parsed by the same split-and-match logic, gives back the response's MIME type and data. |
| GeminiService.EchoedFileRoundTrip | services/geminiService.ts:9-46 | A response that echoes `fileToPart`'s output yields the file's own data URL, which decodes back to the file. |
| GeminiService.HandleTextApiResponse | services/geminiService.ts:66-98 | Succeeds exactly when there is no block reason and the trimmed text is non-empty and starts with "v " or "#". It then returns the trimmed text. The errors are as for images, in the same order. |
| GeminiService.TextResultIsTrimmedObj | services/geminiService.ts:77-83 | A returned text is the response text with white space removed from both ends, and begins a Wavefront OBJ file. |
| GeminiService.BlankTextRejected | services/geminiService.ts:77-97 | Text that is all white space never counts as a model. |
| GeminiService.GenerateImageFromText | services/geminiService.ts:298-303 | Succeeds exactly when the list of generated images is present and non-empty and its first entry has an image, and returns `data:image/png;base64,` followed by the first image's bytes. A missing or empty list is the "did not return an image" error. A first entry without an image also fails. |
| GeminiService.GeneratedImageFile | services/geminiService.ts:298-303 | The generated data URL decodes, through `dataURLtoFile`, to a PNG file holding the bytes the service encoded. |
| GeminiService.PngTypeSurvives | services/geminiService.ts:300 | "image/png" is left unchanged by the `File` constructor and by a data-URL header. |
| History.SlicePrefix | App.tsx:474 | `slice(0, end)` is a prefix of the list, of length `end` when `end` lies inside it. |
| History.AddImage | App.tsx:473-477 | The result becomes the current image, the cursor invariant holds afterwards, and the entries before the new one are a prefix of the old list. |
| History.AddImageKeepsPrefix | App.tsx:473-477 | Under the invariant, the new list is `old[..index+1] + [file]` with the cursor at its last entry. The original image is kept. |
| History.Upload | App.tsx:484-487 | The file becomes the whole list, the current image and the original image. |
| History.RequestUndo | App.tsx:705-717 | Opens a dialog that captures the cursor exactly when `canUndo`; otherwise nothing changes. |
| History.RequestRedo | App.tsx:719-731 | Opens a dialog that captures the cursor exactly when `canRedo`; otherwise nothing changes. |
| History.ConfirmAsWritten | App.tsx:709-714 | As written, confirming sets the cursor to the captured cursor minus or plus one, and closes the dialog. |
| History.Confirm | App.tsx:709-714 | Corrected confirmation: the list is unchanged and the dialog closes. The cursor moves by one only when the guard still holds for the current cursor. The invariant is preserved. |
| History.Cancel | App.tsx:1076-1082 | Dismissing the dialog changes neither the list nor the cursor. |
| History.Reset | App.tsx:733-740 | With a non-empty list the cursor goes to 0, so the current image is the original; the list is kept. An empty session is unchanged. |
| History.Clear | App.tsx:742-744 | An empty list with cursor -1, so there is no current and no original image. |
| History.UndoConfirmed | App.tsx:705-717 | `canUndo` holds exactly for a non-empty list with a cursor other than 0. A confirmed undo moves only the cursor, down by one, and an impossible undo changes nothing. |
| History.RedoConfirmed | App.tsx:719-731 | `canRedo` holds exactly when the cursor is not at the last entry. A confirmed redo moves only the cursor, up by one, and an impossible redo changes nothing. |
| History.UndoThenRedo | App.tsx:705-731 | A confirmed undo followed by a confirmed redo restores the session. |
| History.ResetThenRedo | App.tsx:719-740 | After a reset of two or more entries, redo is possible and leads to entry 1 of the intact list. |
| History.ConfirmAgreesWhenFresh | App.tsx:705-731 | While the cursor has not moved since the dialog opened, the corrected and the written confirmation agree. |
| History.StepKeepsInv | App.tsx:705-752 | Every user action keeps the cursor inside a non-empty list and `index == -1` for an empty one. |
| History.RunKeepsInv | App.tsx:470-487 | From any valid session, any sequence of actions keeps the invariant. The current image is then `history[index]` and the original is `history[0]`. |
| History.StaleRedoBreaksInv | App.tsx:719-731 | As written, a redo confirmed after an upload has replaced the list leaves the cursor past its end. |
| History.StaleRedoCorrected | App.tsx:719-731 | With the corrected confirmation the same trace leaves the cursor on the only entry. |
| Persistence.ReadProp | App.tsx:409-411 | Reading a property of null or undefined throws, and the error is a TypeError. Otherwise a present property of an object yields its value, and a missing property, or any property of another value, yields undefined. |
| Persistence.FileRecords | App.tsx:389 | One `{name, type, dataUrl}` record per file, in order. |
| Persistence.Save | App.tsx:385-401 | The session key is present after the save exactly when the history is non-empty. |
| Persistence.SavedRecord | App.tsx:389-392 | The saved record holds one entry per file, in order, with its name and data URL, and the cursor unchanged. |
| Persistence.SaveLeavesOtherKeys | App.tsx:391-397 | No key other than `pixshopSession` changes. |
| Persistence.FailedSaveKeepsEarlier | App.tsx:391-394 | When `setItem` throws and the `catch` only logs, the record of the earlier save stays under the key, and the next load restores that earlier session instead of the current one. |
| Persistence.SaveIdempotent | App.tsx:385-401 | Saving the same session twice is saving it once. |
| Persistence.SaveOverwrites | App.tsx:391-397 | Writing a non-empty session replaces whatever an earlier save or removal left. |
| Persistence.LoadItemOfString | App.tsx:411 | An entry whose `dataUrl` is a string decodes as `dataURLtoFile(item.dataUrl, String(item.name))`, with a missing name read as undefined. |
| Persistence.MapThrowing | App.tsx:411 | A successful `map` with a throwing callback yields one result per entry, in order, and every entry decoded. |
| Persistence.MapThrowingAllOk | App.tsx:411 | When every entry decodes, the mapping succeeds. |
| Persistence.MapThrowingFirstFailure | App.tsx:411 | The mapping fails with the failure of the first entry that throws. |
| Persistence.LoadSaved | App.tsx:408-416 | Any object whose `history` is an array and whose `index` is a number is restored with that index when every entry decodes, and is discarded with the first failing entry's error otherwise; a restored session never comes from anything else. A null or undefined record throws a TypeError and is discarded. A record with a truthy `history` that is not an array and a numeric `index` throws a TypeError at `.map` and is discarded. A record that is not an object, or whose `history` is missing or falsy, or whose `index` is missing or not a number, is left alone. |
| Persistence.Load | App.tsx:404-425 | With no key, or an empty text under it, the key is left alone. A text `JSON.parse` rejects throws a SyntaxError and is discarded. A parsed record is judged by the record check, and a restore needs a parsed record under the key. |
| Persistence.AfterLoad | App.tsx:419-422 | After a thrown error the key is removed and every other key is kept; otherwise the storage is unchanged. |
| Persistence.LoadRecord | App.tsx:389-411 | A saved entry of a restorable file decodes back to the same file. |
| Persistence.LoadRecords | App.tsx:389-411 | The saved entries of restorable files decode back to the files, in order. |
| Persistence.LoadSavedSession | App.tsx:389-414 | The saved record of a non-empty history of restorable files is accepted, and yields the same files and cursor. |
| Persistence.LoadSave | App.tsx:385-425 | Save then load restores the same names, types, bytes, order and cursor. |
| Persistence.LoadSaveEmpty | App.tsx:396-408 | Saving an empty history leaves nothing to load. |
| Persistence.LoadAcceptsAnyIndex | App.tsx:410-413 | A stored cursor outside the list is restored as it is, and breaks the cursor invariant. |
| Persistence.LoadSavedRecord | App.tsx:408-416 | The two-key record `{history, index}` that the auto-save writes, with an array `history` and a numeric `index`, is restored with that index when all entries decode, and is otherwise discarded with the mapping's failure. |
| Persistence.BadEntryDiscarded | App.tsx:411-422 | A record with an entry that does not decode is discarded, with the failure of the first such entry. |
| Persistence.MountAsWrittenForgets | App.tsx:385-425 | As written, mounting on a stored session forgets it: the session stays empty and the key is removed, though the record on its own would load. |
| Persistence.Mount | App.tsx:385-425 | Corrected mounting (load before the first save) ends with no dialog open. When the load restores nothing, the session is the initial empty one and the store is the old store without `pixshopSession`. When it restores a session, that is the loaded history and cursor, and the store is the old store with that session saved on top. |
| Persistence.MountRestores | App.tsx:385-425 | Corrected mounting restores a stored session and writes it back unchanged. |
| App.AIResult | App.tsx:498-512 | An image action fails with `fileToPart`'s error when that fails, and always fails on a blocked response. A result is the decoded data URL from `handleApiResponse` under the new file name. |
| App.EchoedImageAdded | App.tsx:505-508 | A response that echoes the current image adds a file with the same type and bytes under the new name. |
| App.RunImageAction | App.tsx:505-508 | The body of the `try` produces exactly the specified result. |
| App.EditPrecheck | App.tsx:518-531 | No message exactly when there is a current image, a non-blank prompt and a hotspot. Each of the three messages is fixed: no image first, then a blank prompt, then a missing hotspot. |
| App.BlankPromptRefused | App.tsx:523-526 | A prompt of white space only is refused before any call is made. |
| App.TextImageResult | App.tsx:564-565 | A generation error passes through unchanged. A result carries the requested file name. |
| App.TextImageBytes | App.tsx:564-566 | A generated image becomes a PNG file holding the bytes the service encoded. |
| App.RunTextToImage | App.tsx:564-565 | The body of the `try` in text mode produces exactly the specified result. |
| App.Session.constructor | App.tsx:385-425 | Mounting sets the session and localStorage to what the corrected mount gives. Storage then agrees with the session, and no error or hotspot is set. |
| App.Session.AutoSave | App.tsx:385-401 | Writes the current history and cursor and changes nothing else, after which storage agrees with the session. |
| App.Session.AddImageToHistory | App.tsx:473-482 | The new session is `AddImage` of the old one, and is saved. |
| App.Session.ImageUpload | App.tsx:484-497 | The new session is `Upload` of the old one, saved as `[file]` at 0. The error and the hotspot are cleared. |
| App.Session.RequestUndo | App.tsx:705-717 | The session is `RequestUndo` of the old one; storage, error and hotspot are unchanged. |
| App.Session.RequestRedo | App.tsx:719-731 | The session is `RequestRedo` of the old one; storage, error and hotspot are unchanged. |
| App.Session.ConfirmPending | App.tsx:709-714 | The session is the corrected `Confirm` of the old one and is saved. The hotspot is cleared. |
| App.Session.CancelPending | App.tsx:1076-1082 | Only the dialog closes. |
| App.Session.Reset | App.tsx:733-740 | The session is `Reset` of the old one and is saved. The error and hotspot are cleared only for a non-empty list. |
| App.Session.UploadNew | App.tsx:742-753 | An empty session with cursor -1, the saved session removed and every other key kept; the error and hotspot are cleared. |
| App.Session.GenericAIAction | App.tsx:498-517 | Without a current image only the error is set. Otherwise a result is appended as `addImageToHistory` does, and the store is the old store with the new session saved on top. A failure anywhere sets "Failed to perform <action>. <message>" and leaves the history, the cursor and localStorage unchanged. |
| App.Session.Generate | App.tsx:518-546 | A failed check sets its message and leaves the history, the cursor, storage and the hotspot unchanged. After the checks, a result is appended, the hotspot cleared, and the new session saved on top of the old store. A failure sets "Failed to generate the image. <message>" and leaves everything else unchanged. |
| App.Session.FinishEdit | App.tsx:535-541 | The end of the localized edit: a result is appended with the hotspot cleared and the new session saved on top of the old store, and a failure sets only the error message. |
| App.Session.GenerateFromText | App.tsx:559-577 | The generated image replaces the history as an upload does, and the new session is saved on top of the old store. A failure sets "Failed to generate image. <message>" and leaves the history, the cursor, storage and hotspot unchanged. |

## Left out

- The remote AI calls, the prompt texts and the `GoogleGenAI` client are left out. Responses are parameters.
- How the SDK derives `response.text` from the candidates is not modelled. The text is a field of the response.
- `generateEditedImage`, `generateFilteredImage`, `generateAdjustedImage`, `generateRemovedBackground`, `generateUpscaledImage`, `generateImageFromImage`, `generateStyleTransfer` and `generate3DModelFromImage` are left out. Each builds a prompt, calls the network and passes the response to `handleApiResponse` or `handleTextApiResponse`, which are modelled.
- Image mode of `handleGenerateImage` is `handleGenericAIAction` with the name "image-generation", which is modelled.
- Crop and rotate on a canvas, style transfer, the 3D panel, hotspot scaling, `FaceDetector`, downloads, tabs, compare mode, the translation tables and the `isLoading` flag are left out. They are UI or floating-point geometry.
- `FileReader` is modelled as the data URL it produces, and its failure is not modelled. For an empty type it is taken to write `data:;base64,`, following the File API text. Chromium and Firefox are reported to write `data:application/octet-stream;base64,` instead; in those browsers an empty-typed file would be sent as `application/octet-stream` rather than refused, so `GeminiService.FileToPartNeedsType` holds under the File API text only.
- Asynchronous ordering is not modelled: the auto-save's promises, and a second auto-save racing the first. A handler closure that runs with an older `history` is not modelled either. The stale confirmation of the findings below is the one race the model covers.
- JSON text is modelled by the value `JSON.parse` returns. A text `JSON.parse` rejects is one value, `Unparsable`, and `JSON.stringify` is not written out.
- Stored numbers are integers only. Fractions, NaN and the infinities are left out.
- The wording of browser error messages is not modelled: `atob`'s InvalidCharacterError, and the TypeErrors for reading a property of null or undefined or calling a missing method. The model keeps their kind, plus a placeholder text.
- Base64.Atob: the contract states when `atob` fails and that every character it returns is below 256. On valid input it states what the characters are only for output of the padded encoding, through Base64.AtobEncode.
- App.Session.AutoSave: every `localStorage.setItem` is taken to succeed, so storage agrees with the session after each handler. In the program `setItem` can throw (a QuotaExceededError for a large history of base64 images); the `catch` only logs, the previous record stays under the key, and the stored session then lags behind the one on screen. `Persistence.SaveAttempt` and `Persistence.FailedSaveKeepsEarlier` model that failing write, but the session class does not use them.
- Persistence.Save: its contract states only whether the key is present. The content of the record is stated by Persistence.SavedRecord and Persistence.LoadSave.

## Findings

| source | as written | input that shows it | evidently intended | confidence | as-written member | corrected member |
|---|---|---|---|---|---|---|
| App.tsx:385-425 | The auto-save effect is declared before the load effect, and React runs a component's effects in declaration order. On mount the history is empty, so the auto-save removes `pixshopSession` synchronously, before the load effect reads it. | localStorage holding a saved session of one image at index 0, then a page reload | The saved session is restored, with the same images and cursor, and stays stored | not executed | Persistence.MountAsWrittenForgets | Persistence.MountRestores |
| App.tsx:705-731 | `onConfirm` sets the cursor from the `historyIndex` captured when the dialog opened, without checking it against the current list. | History [a, b] at 0. Open redo, let a pending text-to-image generation finish (the list becomes [x] at 0), then confirm: the cursor becomes 1 in a list of one | Confirming steps the current cursor only while undo or redo is still possible | not executed | History.StaleRedoBreaksInv | History.StaleRedoCorrected |
