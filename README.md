# Document upload page: date-of-birth extractor and upload slots

This project models the logic of the applicant's document upload page
(`frontend/src/pages/DocumentUpload.jsx`) and proves properties of it. It has two parts.

- **`extractDOB`**. A case-insensitive regular expression with three alternatives
  reads a date of birth out of OCR text:
  - a `Date of Birth`/`DOB` label, then `dd[/-]mm[/-]yyyy`;
  - `yyyy[/-]mm[/-]dd`;
  - `d{1,2}[/-]d{1,2}[/-]yy`.

  The captured groups are rearranged into a `/`-separated date, and a two-digit year is
  widened by a century rule. When nothing matches, the result is `"Not found"`.
  - The pattern is matched by hand over `seq<char>`, following JavaScript's search:
    - the leftmost start position wins;
    - at one position the alternatives are tried in order, and so are the five label
      spellings;
    - `\s*` and `\d{1,2}` are greedy;
    - every letter of the pattern is ASCII, and without the `u` flag the `i` flag never
      folds a non-ASCII character onto an ASCII one, so folding the ASCII capitals decides
      every comparison the pattern makes.
  - Module `Text` holds the character classes. Module `Dob` holds the matcher, the
    rendering and the lemmas.
- **The five upload slots**: GATE scorecard, caste, PwD and EWS certificates, and the
  experience letter.
  - Each slot has:
    - a document entry: empty, the raw file while its upload runs, or `{file, url}`;
    - an `uploaded` flag;
    - a `validity` flag.
  - Module `UploadSlots` gives one slot as a value, together with the events that reach
    it (`Step`, `Run`) and their properties.
  - Module `UploadForm` has the class `DocumentsComponent`. It holds the page state as
    maps over the slots. Its handler methods update those maps in place, and each is
    specified against `Step`.
- **The label formatter** `key.replace(/([A-Z])/g, ' $1')` is module `Labels`.

The model takes these effects as parameters:
- the result of each Firebase Storage call (upload, download URL, delete);
- the OCR text returned by the extraction service;
- the profile stored in `localStorage`: corrupt or `null` (reading it throws), or a `dob`
  that may be absent.

## Model

| member | source | states |
|---|---|---|
| `Text.Fold` | frontend/src/pages/DocumentUpload.jsx:145 | folding maps each ASCII capital to its lower-case letter and leaves every other character alone; since every letter of the pattern is ASCII and the `i` flag without `u` never folds a non-ASCII character onto an ASCII one, comparing folded characters decides every comparison the pattern makes |
| `Text.IsSpace` | frontend/src/pages/DocumentUpload.jsx:145 | `\s` matches the ECMAScript white space and line terminator characters: space, tab, newline and carriage return among them, and never a digit, a date separator or the `:` of a label |
| `Text.DigitsBelow` | frontend/src/pages/DocumentUpload.jsx:152 | `parseInt(yy, 10)` (modelled by `Text.DigitsValue`) reads a run of decimal digits in base ten, so its value lies below `10` to the power of the run's length (two digits give less than 100) |
| `Dob.LabelAt` | frontend/src/pages/DocumentUpload.jsx:145 | a label spelling that matches at a position fits inside the text from there |
| `Dob.LabelAtPointwise` | frontend/src/pages/DocumentUpload.jsx:145 | a label spelling matches at a position exactly when the text there has the same letters up to case, character by character |
| `Dob.SkipSpaces` | frontend/src/pages/DocumentUpload.jsx:145 | `\s*` after the label consumes a run of white space and stops at the first character that is not white space |
| `Dob.NumberLength` | frontend/src/pages/DocumentUpload.jsx:145 | `\d{1,2}` takes two digits when two are present, one when only one is, and fails without a digit |
| `Dob.DayMonthYearAt` | frontend/src/pages/DocumentUpload.jsx:145 | a date part found at `k` is the text's own digits `t[k..k+2]`, `t[k+3..k+5]`, `t[k+6..k+10]`, with a `/` or `-` at `k+2` and `k+5` |
| `Dob.LabelledFrom` | frontend/src/pages/DocumentUpload.jsx:145 | a labelled match comes from the first label spelling, in pattern order, that the text spells at `i` and that a date follows after its white space; when none does, there is no labelled match |
| `Dob.YearFirstAt` | frontend/src/pages/DocumentUpload.jsx:145 | a year-first match at `i` is the text's own digits `t[i..i+4]`, `t[i+5..i+7]`, `t[i+8..i+10]`, with separators at `i+4` and `i+7` |
| `Dob.ShortAt` | frontend/src/pages/DocumentUpload.jsx:145 | a short match at `i` is a day of 1-2 digits, a separator, a month of 1-2 digits, a separator and two year digits, each taken from the text at those places |
| `Dob.MatchAt` | frontend/src/pages/DocumentUpload.jsx:145 | the alternatives are tried in order: a year-first result only when the labelled branch fails, a short one only when both earlier branches fail, and no match exactly when all three fail |
| `Dob.FirstMatch` | frontend/src/pages/DocumentUpload.jsx:145-146 | a scan over start positions returns only a match found at one of them |
| `Dob.Search` | frontend/src/pages/DocumentUpload.jsx:145-146 | the search over the whole text returns well-formed groups only |
| `Dob.FirstMatchFinds` | frontend/src/pages/DocumentUpload.jsx:145-146 | the scan returns the match at the first position that has one |
| `Dob.FirstMatchIsLeftmost` | frontend/src/pages/DocumentUpload.jsx:145-146 | whatever the scan returns matches at some position before which nothing matches |
| `Dob.FirstMatchFails` | frontend/src/pages/DocumentUpload.jsx:145-146 | the scan fails exactly when no position matches |
| `Dob.SearchFindsLeftmost` | frontend/src/pages/DocumentUpload.jsx:145-146 | a match at `p` with none before it is the match `text.match` returns |
| `Dob.SearchIsLeftmost` | frontend/src/pages/DocumentUpload.jsx:145-146 | the match returned starts at a position before which no match starts |
| `Dob.SearchFailsIffNoMatch` | frontend/src/pages/DocumentUpload.jsx:145-146 | `text.match` returns null exactly when no position of the text matches |
| `Dob.Century` | frontend/src/pages/DocumentUpload.jsx:152 | the century prefix is two digits, and it is `20` exactly when the two-digit year is below 50 |
| `Dob.Render` | frontend/src/pages/DocumentUpload.jsx:147-153 | splitting the result on `/` gives back groups 1/2/3, groups 5/6/4, or groups 7/8 and the widened year |
| `Dob.ExtractDob` | frontend/src/pages/DocumentUpload.jsx:144-157 | the result is `Not found` exactly when the search fails, and any other result has the shape `a/b/yyyy` |
| `Dob.ThreeFields` | frontend/src/pages/DocumentUpload.jsx:148-153 | three runs of digits joined by `/`, as each template literal joins its groups, split back into those three runs |
| `Dob.RenderIsDateShaped` | frontend/src/pages/DocumentUpload.jsx:147-153 | every rendered date is three `/`-separated digit fields of lengths 1-2, 1-2 and 4 |
| `Dob.ExtractDobResult` | frontend/src/pages/DocumentUpload.jsx:144-157 | the result is `Not found` exactly when nothing matches, and otherwise it has the shape `a/b/yyyy` |
| `Dob.NoDigitNoDate` | frontend/src/pages/DocumentUpload.jsx:144-157 | a text without a digit always gives `Not found` |
| `Dob.NoDigitNoMatchAt` | frontend/src/pages/DocumentUpload.jsx:145 | no branch of the pattern matches at a position of a text without digits |
| `Dob.LabelledDate` | frontend/src/pages/DocumentUpload.jsx:145-148 | a label in any case (`Date of Birth`, `DOB`, each with an optional colon right after it), white space and `dd[/-]mm[/-]yyyy`, with no earlier match, gives `dd/mm/yyyy` |
| `Dob.LabelledAt` | frontend/src/pages/DocumentUpload.jsx:145 | a label in any case, white space and `dd[/-]mm[/-]yyyy` are matched by the first branch where the label starts |
| `Dob.AnyTag` | frontend/src/pages/DocumentUpload.jsx:145 | each of the four label spellings, in any case and followed by the date, is matched by the first branch |
| `Dob.LongColonFormTried` | frontend/src/pages/DocumentUpload.jsx:145 | `Date of Birth:` is read by the last label alternative, because the spellings without the colon stop at it |
| `Dob.DateAfterSpaces` | frontend/src/pages/DocumentUpload.jsx:145 | white space and then `dd[/-]mm[/-]yyyy` is read as those three groups |
| `Dob.NoLabelAtDigit` | frontend/src/pages/DocumentUpload.jsx:145 | the first branch never matches at a digit |
| `Dob.YearFirstDate` | frontend/src/pages/DocumentUpload.jsx:145-150 | `yyyy[/-]mm[/-]dd` with no earlier match gives the second number, the third, then the year |
| `Dob.YearFirstLaidOut` | frontend/src/pages/DocumentUpload.jsx:145 | four digits, a separator, two digits, a separator and two digits are read by the second branch as year, month and day |
| `Dob.OnlyShortAt` | frontend/src/pages/DocumentUpload.jsx:145 | at a digit followed by a separator within two places, only the third branch can match |
| `Dob.ShortLaidOut` | frontend/src/pages/DocumentUpload.jsx:145 | the third branch captures day, month and two-digit year exactly as written |
| `Dob.ShortDate` | frontend/src/pages/DocumentUpload.jsx:145-153 | `d{1,2}[/-]d{1,2}[/-]yy` with no earlier match gives day and month unpadded and the year widened by the century rule |
| `Dob.CenturyWindow` | frontend/src/pages/DocumentUpload.jsx:152 | a widened year lies in 1950..2049, keeps its last two digits, and is in the 2000s exactly when the two digits are below 50 |
| `Dob.LabelledExample` | frontend/src/pages/DocumentUpload.jsx:145-148 | `DOB: 05/08/1998` gives `05/08/1998` |
| `Dob.YearFirstExample` | frontend/src/pages/DocumentUpload.jsx:149-150 | `1998-08-05` gives `08/05/1998` |
| `Dob.ShortExample` | frontend/src/pages/DocumentUpload.jsx:151-153 | `5/8/98` gives `5/8/1998` |
| `Dob.CenturyExample` | frontend/src/pages/DocumentUpload.jsx:151-153 | `01/02/49` gives `01/02/2049` |
| `Dob.BareDateExample` | frontend/src/pages/DocumentUpload.jsx:145-153 | an unlabelled `05/08/1998` is read by the third branch as `05/08/19` and gives `05/08/2019` |
| `Labels.Spaced` | frontend/src/pages/DocumentUpload.jsx:84 | the label never begins with a capital, and every capital in it stands right after a space |
| `Labels.UnspacedSpaced` | frontend/src/pages/DocumentUpload.jsx:84 | dropping the space before each capital gives back the key |
| `Labels.SpacedInjective` | frontend/src/pages/DocumentUpload.jsx:84 | two different keys never get the same label |
| `Labels.SpacedAppend` | frontend/src/pages/DocumentUpload.jsx:84 | the global replacement works character by character, so the label of a concatenation is the concatenation of the labels |
| `Labels.SpacedLowerCase` | frontend/src/pages/DocumentUpload.jsx:84 | a key without capitals is shown unchanged |
| `UploadSlots.Position` | frontend/src/pages/DocumentUpload.jsx:53-59 | every slot is listed in the key order of the state objects |
| `UploadSlots.AllSlotsComplete` | frontend/src/pages/DocumentUpload.jsx:189 | `Object.keys(uploadedDocs)` lists every slot |
| `UploadSlots.Key` | frontend/src/pages/DocumentUpload.jsx:47-51 | each slot's property name is a camel-case name without `/` |
| `UploadSlots.KeyInjective` | frontend/src/pages/DocumentUpload.jsx:47-51 | different slots have different property names |
| `UploadSlots.StoragePath` | frontend/src/pages/DocumentUpload.jsx:90 | a file goes to the folder `uploads`, then a folder named after the slot's key, then its own name |
| `UploadSlots.StoragePathNamesSlot` | frontend/src/pages/DocumentUpload.jsx:90 | two uploads share a Storage path only for the same slot and the same file name, so the delete in `handleRemove` reaches only the object of its own slot |
| `UploadSlots.AlreadyUploadedNotice` | frontend/src/pages/DocumentUpload.jsx:84 | the notice is the fixed sentence around the slot's label: every capital of the label stands after an inserted space, and dropping those spaces gives back the key |
| `UploadSlots.NoticeNamesSlot` | frontend/src/pages/DocumentUpload.jsx:84 | two slots never get the same notice |
| `UploadSlots.StatusText` | frontend/src/pages/DocumentUpload.jsx:190 | the status is `Uploaded` exactly when the slot is uploaded |
| `UploadSlots.Verdict` | frontend/src/pages/DocumentUpload.jsx:126-141 | an extraction gives a verdict exactly when the OCR text arrives and the stored profile parses to an object; it is a pass only when a stored dob exists |
| `UploadSlots.Step` | frontend/src/pages/DocumentUpload.jsx:77-171 | every event keeps `uploaded` equal to "the entry carries a URL"; an entry only moves from empty to picked, to stored, or from stored back to the initial state |
| `UploadSlots.RunKeepsConsistent` | frontend/src/pages/DocumentUpload.jsx:107-108 | in any order of events, a slot is marked uploaded exactly when its entry carries a URL |
| `UploadSlots.SecondPickRefused` | frontend/src/pages/DocumentUpload.jsx:79-86 | the first pick stores the raw file at once, and any later pick for the slot, even during the upload, changes nothing |
| `UploadSlots.PickedIsStuck` | frontend/src/pages/DocumentUpload.jsx:80-85 | while the entry is the raw file, picks, removals and failed uploads change nothing, so a slot whose upload failed stays stuck |
| `UploadSlots.UploadThenRemove` | frontend/src/pages/DocumentUpload.jsx:103-113 | pick, successful upload, any extraction and a successful removal bring the slot back to its initial state |
| `UploadSlots.RemoveOnlyStored` | frontend/src/pages/DocumentUpload.jsx:159-170 | a removal changes the slot only when it holds a stored file and the delete succeeds |
| `UploadSlots.ValidityAfterExtraction` | frontend/src/pages/DocumentUpload.jsx:131-137 | after an extraction, validity is exactly "stored dob `===` extracted dob"; a pass needs a stored dob that is `Not found` or of shape `a/b/yyyy` |
| `UploadSlots.FailedExtractionKeepsSlot` | frontend/src/pages/DocumentUpload.jsx:138-141 | an extraction that throws leaves the slot unchanged |
| `UploadSlots.LateVerdictAfterRemove` | frontend/src/pages/DocumentUpload.jsx:112 | a verdict that arrives after the file was removed lands on the empty slot, and the next file starts out marked incorrect |
| `UploadForm.DocumentsComponent.constructor` | frontend/src/pages/DocumentUpload.jsx:46-69 | every slot starts empty, not uploaded and valid; progress is 0, no status, nothing submitted |
| `UploadForm.DocumentsComponent.HandleFileChange` | frontend/src/pages/DocumentUpload.jsx:77-90 | no file does nothing; an empty slot stores the raw file and uploads to `uploads/<key>/<name>`; a filled slot only gets the notice with the spaced label; other slots are untouched |
| `UploadForm.DocumentsComponent.OnUploadProgress` | frontend/src/pages/DocumentUpload.jsx:95-98 | the progress bar takes the reported percentage and nothing else changes |
| `UploadForm.DocumentsComponent.OnUploadFinished` | frontend/src/pages/DocumentUpload.jsx:99-113 | success stores `{file, url}`, sets `uploaded`, resets progress, sets `isSubmitted` and starts extraction; failure changes nothing; other slots are untouched |
| `UploadForm.DocumentsComponent.HandleExtractText` | frontend/src/pages/DocumentUpload.jsx:117-142 | validity of the slot becomes "stored dob `===` extracted dob", or stays as it was when the request or the profile lookup throws |
| `UploadForm.DocumentsComponent.HandleRemove` | frontend/src/pages/DocumentUpload.jsx:159-171 | the delete goes to the object the upload wrote; success resets only this slot to its initial state, failure or an entry without a stored file changes nothing |
| `UploadForm.DocumentsComponent.IsAllDocsUploaded` | frontend/src/pages/DocumentUpload.jsx:261 | true exactly when all five `uploaded` flags are set, that is when all five entries carry a URL |
| `UploadForm.DocumentsComponent.HandleSubmit` | frontend/src/pages/DocumentUpload.jsx:173-195 | each of the five slots is recorded `Uploaded` or `Not Uploaded` from its flag and nothing else changes; a corrupt or `null` stored profile throws first and records nothing |
| `UploadForm.SubmitWhenComplete` | frontend/src/pages/DocumentUpload.jsx:282-283 | when the Submit button is shown (all uploaded) and the stored profile parses to an object, every slot is recorded `Uploaded`; with a corrupt or `null` stored profile `handleSubmit` throws and nothing is recorded; the documents, flags, progress and panel state never change |

## Left out

- Firebase Storage (`ref`, `uploadBytesResumable`, `getDownloadURL`, `deleteObject`), the
  OCR request to `/extract-text`, and `localStorage` with `JSON.parse` are foreign I/O.
  Their outcomes are parameters.
- A stored `dob` that is present but is not a string is modelled as absent: it is never
  `===` to the extracted string.
- The progress percentage `Math.round(bytesTransferred / totalBytes * 100)` is floating
  point. `OnUploadProgress` takes the rounded value.
- Toasts and `console` output are not modelled.
  - The notice for a refused pick is modelled, as `AlreadyUploadedNotice`.
  - The success and failure toasts are not.
  - The `documentsData` and `fullName` read by `handleSubmit` are only logged, so they
    are not modelled.
- UI code is left out:
  - the `Checkbox` spinner timer;
  - the `isOpen` accordion;
  - navigation in `handleFinalSubmit`;
  - the JSX rendering, including the order in which `Object.entries(submissionStatus)`
    lists the status lines.
- `UploadForm.DocumentsComponent.HandleSubmit` stores the statuses in a map. The order in
  which `forEach` inserts them is not kept.
- The `!file` guard of `handleExtractText` is not modelled: it is only called with the
  uploaded file, which is never null.
- Interleavings are modelled one slot event at a time: each handler is one atomic step.
  React's batching of several `set` calls within one render is not modelled.
- Strings are sequences of Unicode scalar values, not UTF-16 code units. This changes
  nothing for the ASCII patterns involved.
- Between label and date, `\s*` also accepts no white space, so `DOB05/08/1998` is read
  as a labelled date. The model follows the code: it accepts any run of ECMAScript white
  space and line terminators, including none.
- The backend (Express routes, Mongoose models, Multer) and `AdminReview.jsx` are not
  part of this model. They are library calls and network code with no logic of their own.
