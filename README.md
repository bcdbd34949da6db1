# Student card registration: a Dafny model

This project models the card-registration page of a student ID card verification portal (`src/pages/AdminPanel.tsx`). An administrator fills in a six-field form: full name, age, gender, city, course start year and course. On save, the page:

1. validates the form;
2. asks the backend for a verification code;
3. uploads the student's photo, if one was chosen;
4. inserts the card row;
5. clears the form on success, or leaves it alone on error.

The loading flag is set while this runs and cleared at the end.

The model has five modules:

- `Wrappers` (`wrappers.dfy`): the `Option` type, standing for the page's nullable values.
- `JsText` (`js_text.dfy`): the JavaScript string operations the page uses, `split` with a one-character separator and `pop`. Proved: `Join(Split(s)) == s`, no piece contains the separator, and splitting at a separator concatenates the pieces on either side.
- `JsNumber` (`js_number.dfy`): `Number(s)`, `isNaN`, `<` against NaN, `parseInt(s)`, and the decimal text of a number, all restricted to decimal integers. Proved: `Number` reads back every formatted integer, and `parseInt` agrees with `Number` on every non-empty text `Number` accepts.
- `StudentForm` (`student_form.dfy`): the form record, the one-field update `Set`, and `ValidateForm` with its ordered checks.
- `AdminPanelPage` (`admin_panel.dfy`): the inserted row `StudentCard`, the storage name of a photo, and the class `AdminPanel`. The class holds the page state (`formData`, `photoFile`, `photoPreview`, `isLoading`) and its handlers.

The backend is represented by the `Backend` value passed to `HandleSubmit`. It gives:

- the code generator's reply (a code, or an error);
- the storage reply (a public URL, or an error);
- the insert reply (success, or an error).

`HandleSubmit` returns the requests it sent, in order. The clock reading and the random number used in the photo's storage name are parameters.

The code enforces less than the form's labels and the on-page note suggest:

- The gender is not checked against the three options of the selector. Any non-empty text passes.
- The page does not check the verification code's length, case or uniqueness, and it does not enforce the `L#LLL#` format the note mentions. Codes come only from the backend generator.
- There is no upper bound on the course start year. `max="2030"` appears only on the input element (src/pages/AdminPanel.tsx:272).
- The page only inserts cards; it never reads one back.

When an insert fails after a successful upload, the uploaded object is not removed. The trace shows this: the upload request is followed by the failed insert and by nothing else.

## Model

| member | source | states |
|---|---|---|
| `StudentForm.ValidateForm` | src/pages/AdminPanel.tsx:45-76 | Rejected(MissingFields) iff some field is empty. Rejected(BadAge) iff all fields are present and `Number(age)` is NaN or below 1. Rejected(BadYear) iff fields and age pass and `Number(courseStartYear)` is NaN or below 1900. Accepted iff all three checks pass. The first failing check decides. |
| `StudentForm.MissingFieldReportedFirst` | src/pages/AdminPanel.tsx:48-55 | Any one empty field gives the single aggregate MissingFields error, whatever the other fields hold. |
| `StudentForm.AgeReportedBeforeYear` | src/pages/AdminPanel.tsx:57-73 | A form with both a bad age and a bad year is rejected for its age only. |
| `StudentForm.EveryAgeFromOneAccepted` | src/pages/AdminPanel.tsx:57-64 | With the other fields passing, every age of at least 1, written in decimal, is accepted. |
| `StudentForm.EveryYearFrom1900Accepted` | src/pages/AdminPanel.tsx:66-73 | With the other fields passing, every year from 1900 on is accepted. There is no upper bound. |
| `StudentForm.SampleAcceptance` | src/pages/AdminPanel.tsx:45-76 | The complete sample card (Maria Silva, 22, Feminino, São Paulo - SP, 2021, Administração) is accepted. |
| `StudentForm.SampleBadAge` | src/pages/AdminPanel.tsx:57-64 | The sample card with age "abc" is rejected with BadAge. |
| `StudentForm.SampleBadYear` | src/pages/AdminPanel.tsx:66-73 | The sample card with year "1899" is rejected with BadYear. |
| `StudentForm.Set` | src/pages/AdminPanel.tsx:26-31 | The named field takes the new value, and every other field keeps its old value. |
| `StudentForm.FormsAgreeingOnFieldsAreEqual` | src/pages/AdminPanel.tsx:17-24 | The form is exactly its six fields: two forms that agree on every field are equal. |
| `StudentForm.SetLaws` | src/pages/AdminPanel.tsx:26-31 | Writing a field's own value back changes nothing. Of two writes to the same field, the last one wins. |
| `StudentForm.SetCommutes` | src/pages/AdminPanel.tsx:26-31 | Writes to two different fields commute. |
| `JsNumber.ToNumber` | src/pages/AdminPanel.tsx:57-73 | `Number(s)` is NaN exactly when the text is non-empty and is neither a digit run nor a sign followed by a digit run. A negative result comes from text that starts with `-`. That it reads back every decimal text is `ToNumberOfFormat`. |
| `JsNumber.IsNaN` | src/pages/AdminPanel.tsx:57-73 | `isNaN` holds exactly of NaN. It has no contract of its own; through it, `ValidateForm` rejects a NaN age or year. |
| `JsNumber.LessThan` | src/pages/AdminPanel.tsx:57-73 | `x < k` is false whenever `x` is NaN, as every JavaScript comparison with NaN is. |
| `JsNumber.ToNumberOfFormat` | src/pages/AdminPanel.tsx:57-73 | `Number` applied to the decimal text of any integer gives back that integer. |
| `JsNumber.FormatNat` | src/pages/AdminPanel.tsx:82 | The decimal text of a number (as in `${Date.now()}`) is a non-empty run of digits with no leading zero. |
| `JsNumber.DecimalValueOfFormat` | src/pages/AdminPanel.tsx:82 | The digits of the decimal text have the value of the number they were made from. |
| `JsNumber.LeadingDigits` | src/pages/AdminPanel.tsx:129-132 | The digit run `parseInt` reads is the longest prefix made of digits: all digits, a prefix, and followed by a non-digit or the end. |
| `JsNumber.LeadingDigitsOfDigits` | src/pages/AdminPanel.tsx:129-132 | On text made only of digits, `parseInt` reads the whole text. |
| `JsNumber.ParseInt` | src/pages/AdminPanel.tsx:129-132 | `parseInt(s)` is NaN exactly when no digit follows the optional sign. A negative result comes from text that starts with `-`. Its agreement with `Number` is `ParseIntAgreesWithToNumber`. |
| `JsNumber.ParseIntAgreesWithToNumber` | src/pages/AdminPanel.tsx:129-132 | On non-empty text that `Number` accepts, `parseInt` gives the same integer. |
| `JsNumber.ParseIntIgnoresTrailingText` | src/pages/AdminPanel.tsx:129-132 | The two conversions differ in general: `parseInt("12ab")` is 12, while `Number("12ab")` is NaN. |
| `JsText.Split` | src/pages/AdminPanel.tsx:81 | `split` never returns an empty array, so `pop` always yields a string. |
| `JsText.Last` | src/pages/AdminPanel.tsx:81 | `pop()` yields the last element: the array is the rest followed by that element. |
| `JsText.JoinSplit` | src/pages/AdminPanel.tsx:81 | Joining the pieces of `split` with the separator gives back the original text. |
| `JsText.SplitPiecesAreFree` | src/pages/AdminPanel.tsx:81 | No piece of `split` contains the separator. |
| `JsText.SplitWithoutSeparator` | src/pages/AdminPanel.tsx:81 | Text without the separator splits into itself alone. |
| `JsText.SplitAtSeparator` | src/pages/AdminPanel.tsx:81-82 | Splitting `u + sep + t` gives the pieces of `u` followed by the pieces of `t`. |
| `AdminPanelPage.FileExtension` | src/pages/AdminPanel.tsx:81 | The extension taken by `split('.').pop()` contains no dot. That it is the longest dot-free suffix of the name is `FileExtensionIsLastDotFreeSuffix`. |
| `AdminPanelPage.FileExtensionIsLastDotFreeSuffix` | src/pages/AdminPanel.tsx:81 | The extension has no dot. It is a suffix of the name, and either the whole name (when there is no dot) or the part after the last dot. |
| `AdminPanelPage.StoragePath` | src/pages/AdminPanel.tsx:82-83 | The storage name is the clock reading, a dash, the random text, a dot and the extension. It has no contract of its own; `StoragePathKeepsExtension` states that it keeps the file's extension. |
| `AdminPanelPage.StoragePathKeepsExtension` | src/pages/AdminPanel.tsx:81-83 | The storage name `clock-random.ext` has the picked file's extension, whatever the clock and random parts. The verification code plays no part in it. |
| `AdminPanelPage.UploadRequests` | src/pages/AdminPanel.tsx:79-87 | `uploadPhoto` sends no request without a photo. With one, it sends exactly one upload of that photo to `student-photos`, under a name with the photo's extension. |
| `AdminPanelPage.PhotoUrl` | src/pages/AdminPanel.tsx:78-98 | The URL is null exactly when there is no photo or the upload failed. Otherwise it is the public URL of the storage reply. |
| `AdminPanelPage.CardFor` | src/pages/AdminPanel.tsx:124-135 | The inserted row. It has no contract of its own; `AcceptedFormCard` states its fields for an accepted form. |
| `AdminPanelPage.AcceptedFormCard` | src/pages/AdminPanel.tsx:124-135 | For an accepted form, the inserted row has the generated code and the photo URL. Its age and start year are `parseInt` results equal to `Number`'s, at least 1 and at least 1900. Name, gender, city and course are copied unchanged. |
| `AdminPanelPage.SampleFormCard` | src/pages/AdminPanel.tsx:126-135 | The row for the sample card has age 22 and start year 2021 as integers. |
| `AdminPanelPage.AdminPanel.constructor` | src/pages/AdminPanel.tsx:13-24 | The page starts with an empty form, no photo, no preview and the loading flag cleared. |
| `AdminPanelPage.AdminPanel.HandleInputChange` | src/pages/AdminPanel.tsx:26-31 | Only `formData` changes. The named field takes the value, and all other fields are unchanged. |
| `AdminPanelPage.AdminPanel.HandlePhotoUpload` | src/pages/AdminPanel.tsx:33-43 | A picked file becomes `photoFile`, and its data URL becomes the preview. With no file picked, nothing changes. |
| `AdminPanelPage.AdminPanel.UploadPhoto` | src/pages/AdminPanel.tsx:78-99 | With no photo: no request and a null URL. Otherwise: exactly one upload to `student-photos` under the storage name. A failed upload yields a null URL; a successful one yields the public URL. |
| `AdminPanelPage.AdminPanel.HandleSubmit` | src/pages/AdminPanel.tsx:101-168 | A rejected form sends nothing and changes nothing, including the loading flag. An accepted form clears the loading flag at the end, sends every request while it is set, and sends the code request first. A generator error stops after that request and keeps the form. Otherwise the requests are: code, the optional upload, then the insert of the row, whose photo URL is null without a photo or after a failed upload. A successful insert resets form, photo and preview; a failed one keeps them. |
| `AdminPanelPage.SaveWithFailedUpload` | src/pages/AdminPanel.tsx:121-156 | Typing an acceptable card, picking a photo whose upload fails, and saving still inserts the card with a null photo URL. The page then has an empty form, no photo and the loading flag cleared. |

## Left out

- Toasts (including the message texts), `console` logging, `e.preventDefault()`, and the JSX markup and styling are not modelled. A rejection is an error tag, not a message.
- `Number`, `isNaN` and `parseInt` are modelled on decimal integers only. `Number` takes an optional sign followed by digits; the empty text is 0, as in JavaScript. Whitespace, decimal fractions, exponents, hexadecimal and `Infinity` are not modelled. So `"12.5"` is NaN here, while JavaScript would accept it as an age, and `parseInt` here does not skip leading whitespace. These inputs pass through a numeric field, so the model's verdicts may differ from the browser's only on such text. JavaScript numbers are doubles, while the model's integers are unbounded, so rounding of very large values is not modelled either.
- `AdminPanelPage.AcceptedFormCard`: the agreement of `parseInt` with `Number`, and with it the bounds 1 and 1900 on the inserted age and year, hold only for decimal-integer text. The page validates with `Number` (src/pages/AdminPanel.tsx:57, 66) but inserts `parseInt` (src/pages/AdminPanel.tsx:129, 132), and a number input can hold exponent and fraction forms. In the browser, year "19e2" passes validation as 1900 and is inserted as 19, and age "0.1e1" passes as 1 and is inserted as 0. The model, whose `Number` rejects such text, does not exhibit this.
- The backend calls (`rpc('generate_verification_code')`, `storage.upload`, `from('student_cards').insert`) are network calls. Each is a request in the returned trace, answered by the caller-supplied `Backend` value.
- `getPublicUrl` (src/pages/AdminPanel.tsx:94-96) is not awaited and sends no request. The model takes the URL from the storage reply `Uploaded(publicUrl)`, so the URL is not tied to the storage path.
  - A generator reply that has neither data nor an error is not modelled.
  - The generated code's format and uniqueness are not modelled, because the page neither checks nor relies on them.
- `Date.now()` and `Math.random()` are parameters of `HandleSubmit` (a natural number and a text).
- The bytes of the photo are not modelled; only its file name matters.
- `FileReader` is asynchronous. `HandlePhotoUpload` takes its data URL as an argument and sets the preview at once.
- `AdminPanelPage.AdminPanel.HandleSubmit`: the model runs the save as one atomic step. The page awaits the code generator, the upload and the insert (src/pages/AdminPanel.tsx:110, 121, 124). While it waits, only the save button is disabled (line 329), so `handleInputChange` and `handlePhotoUpload` can still run. The inserted row uses the form data captured when the form was submitted (lines 128-133). A successful save then resets the form, photo and preview (lines 147-156), which erases any edits typed in the meantime. The model does not capture edits made while the save is pending.
- React applies state updates asynchronously and in batches. The model applies them in order. `handleSubmit` does not check `isLoading`: only the disabled button prevents a second submit. The model does not check it either.
- `handleInputChange` accepts any key. With a key outside the six field names it would add a new property to the form. The model's `Field` type admits only the six names the inputs pass.
- `src/pages/Index.tsx` (it only logs the entered code) and `src/pages/VerificationResult.tsx` (hardcoded placeholder data) are not part of this model.
