/**
 * The card registration page: its state (the form, the chosen photo and its
 * preview, the loading flag), the record it inserts, the storage name of an
 * uploaded photo, and the submit flow that validates, asks the backend for a
 * verification code, uploads the photo if there is one, inserts the card and
 * then resets or keeps the form.
 *
 * The backend (code generator, photo storage, card table) is not modelled:
 * each call is a request in the trace that `HandleSubmit` returns, and its
 * reply comes from the `Backend` value the caller supplies.
 */
module AdminPanelPage {
  import opened Wrappers
  import opened JsText
  import opened JsNumber
  import opened StudentForm

  /** The file the admin picked; only its name matters to the page. */
  datatype Photo = Photo(name: string)

  /** A row of the `student_cards` table as the page sends it. */
  datatype StudentCard = StudentCard(
    verificationCode: string,
    fullName: string,
    age: JsNumber,
    gender: string,
    city: string,
    courseStartYear: JsNumber,
    course: string,
    photoUrl: Option<string>)

  const PhotoBucket := "student-photos"
  const CardTable := "student_cards"

  /** What the page asks of the backend, in the order it asks. */
  datatype Request =
    | GenerateCode
    | UploadObject(bucket: string, path: string, photo: Photo)
    | InsertRow(table: string, card: StudentCard)

  /** The replies the backend gives to each kind of request. */
  datatype CodeReply = Generated(code: string) | CodeFailed
  datatype UploadReply = Uploaded(publicUrl: string) | UploadFailed
  datatype InsertReply = InsertOk | InsertFailed
  datatype Backend = Backend(codeReply: CodeReply, uploadReply: UploadReply, insertReply: InsertReply)

  /** `photoFile.name.split('.').pop()`: the text after the last dot, or the whole name. */
  function FileExtension(name: string): (ext: string)
    ensures '.' !in ext
  {
    SplitPiecesAreFree(name, '.');
    Last(Split(name, '.'))
  }

  /** The extension is the longest suffix of the name without a dot: it has no dot,
      and it is either the whole name or preceded by a dot. */
  lemma FileExtensionIsLastDotFreeSuffix(name: string)
    ensures '.' !in FileExtension(name)
    ensures |FileExtension(name)| <= |name|
    ensures name[|name| - |FileExtension(name)|..] == FileExtension(name)
    ensures |FileExtension(name)| < |name| ==> name[|name| - |FileExtension(name)| - 1] == '.'
    ensures '.' !in name ==> FileExtension(name) == name
  {
    var parts := Split(name, '.');
    SplitPiecesAreFree(name, '.');
    JoinSplit(name, '.');
    if |parts| >= 2 {
      JoinLast(parts, '.');
      var front := Join(parts[..|parts| - 1], '.');
      assert name == front + ['.'] + Last(parts);
      assert name[|front| + 1..] == Last(parts);
      assert '.' in name;
    } else {
      assert name == parts[0];
    }
    if '.' !in name {
      SplitWithoutSeparator(name, '.');
    }
  }

  /** `${Date.now()}-${Math.random()}.${fileExt}`: the clock reading and the random
      number's text are supplied by the caller; the verification code plays no part. */
  function StoragePath(clock: nat, random: string, name: string): string {
    FormatNat(clock) + "-" + random + "." + FileExtension(name)
  }

  /** The stored object keeps the extension of the picked file, whatever the clock and the random part. */
  lemma StoragePathKeepsExtension(clock: nat, random: string, name: string)
    ensures FileExtension(StoragePath(clock, random, name)) == FileExtension(name)
    ensures |StoragePath(clock, random, name)| > |FileExtension(name)|
  {
    var ext := FileExtension(name);
    var front := FormatNat(clock) + "-" + random;
    FileExtensionIsLastDotFreeSuffix(name);
    assert StoragePath(clock, random, name) == front + ['.'] + ext;
    SplitAtSeparator(front, ext, '.');
    SplitWithoutSeparator(ext, '.');
  }

  /** The URL `uploadPhoto` yields (stated as a function so that `HandleSubmit`'s contract can
      name the inserted row): none without a photo or after a failed upload. */
  function PhotoUrl(photo: Option<Photo>, reply: UploadReply): (url: Option<string>)
    ensures url.None? <==> photo.None? || reply.UploadFailed?
    ensures url.Some? ==> reply == Uploaded(url.value)
  {
    if photo.None? then None
    else if reply.UploadFailed? then None
    else Some(reply.publicUrl)
  }

  /** The requests `uploadPhoto` sends (stated as a function so that `HandleSubmit`'s contract
      can give the whole trace): one upload of the chosen photo, else none. */
  function UploadRequests(photo: Option<Photo>, clock: nat, random: string): (rs: seq<Request>)
    ensures |rs| == if photo.Some? then 1 else 0
    ensures photo.Some? ==> rs[0].UploadObject? && rs[0].bucket == PhotoBucket && rs[0].photo == photo.value
    ensures photo.Some? ==> FileExtension(rs[0].path) == FileExtension(photo.value.name)
  {
    if photo.None? then []
    else
      StoragePathKeepsExtension(clock, random, photo.value.name);
      [UploadObject(PhotoBucket, StoragePath(clock, random, photo.value.name), photo.value)]
  }

  /** The row the page inserts: the generated code, `parseInt` of the two numeric
      fields, the photo URL, and the other four fields as typed. */
  function CardFor(f: FormData, code: string, photoUrl: Option<string>): StudentCard {
    StudentCard(code, f.fullName, ParseInt(f.age), f.gender, f.city, ParseInt(f.courseStartYear), f.course, photoUrl)
  }

  /** The row inserted for a form the validator accepted carries the code, whole numbers
      that pass the validator's bounds (the same ones `Number` read), and the text fields unchanged. */
  lemma AcceptedFormCard(f: FormData, code: string, photoUrl: Option<string>)
    requires ValidateForm(f) == Accepted
    ensures CardFor(f, code, photoUrl).verificationCode == code
    ensures CardFor(f, code, photoUrl).age == ToNumber(f.age)
    ensures CardFor(f, code, photoUrl).age.Finite? && CardFor(f, code, photoUrl).age.value >= MinAge
    ensures CardFor(f, code, photoUrl).courseStartYear == ToNumber(f.courseStartYear)
    ensures CardFor(f, code, photoUrl).courseStartYear.Finite?
    ensures CardFor(f, code, photoUrl).courseStartYear.value >= MinCourseStartYear
    ensures CardFor(f, code, photoUrl).fullName == f.fullName && CardFor(f, code, photoUrl).gender == f.gender
    ensures CardFor(f, code, photoUrl).city == f.city && CardFor(f, code, photoUrl).course == f.course
    ensures CardFor(f, code, photoUrl).photoUrl == photoUrl
  {
    assert Get(f, Age) != "" && Get(f, CourseStartYear) != "";
    ParseIntAgreesWithToNumber(f.age);
    ParseIntAgreesWithToNumber(f.courseStartYear);
  }

  /** The page component's state. */
  class AdminPanel {
    var formData: FormData
    var photoFile: Option<Photo>
    var photoPreview: Option<string>
    var isLoading: bool

    constructor ()
      ensures formData == EmptyForm && photoFile == None && photoPreview == None && !isLoading
    {
      formData := EmptyForm;
      photoFile := None;
      photoPreview := None;
      isLoading := false;
    }

    /** `handleInputChange`: overwrite exactly one field of the form. */
    method HandleInputChange(field: Field, value: string)
      modifies this`formData
      ensures formData == Set(old(formData), field, value)
      ensures Get(formData, field) == value
      ensures forall other :: other != field ==> Get(formData, other) == Get(old(formData), other)
    {
      formData := Set(formData, field, value);
    }

    /** `handlePhotoUpload`: keep the picked file and the data URL the file reader makes of it;
        with no file picked nothing changes. */
    method HandlePhotoUpload(file: Option<Photo>, dataUrl: string)
      modifies this`photoFile, this`photoPreview
      ensures file.Some? ==> photoFile == file && photoPreview == Some(dataUrl)
      ensures file.None? ==> photoFile == old(photoFile) && photoPreview == old(photoPreview)
    {
      if file.Some? {
        photoFile := file;
        photoPreview := Some(dataUrl);
      }
    }

    /** `uploadPhoto`: nothing to do without a photo; otherwise one upload under a fresh
        storage name, whose failure yields no URL instead of an error. */
    method UploadPhoto(reply: UploadReply, clock: nat, random: string) returns (url: Option<string>, sent: seq<Request>)
      ensures photoFile.None? ==> url == None && sent == []
      ensures photoFile.Some? ==>
        sent == [UploadObject(PhotoBucket, StoragePath(clock, random, photoFile.value.name), photoFile.value)]
      ensures photoFile.Some? && reply.UploadFailed? ==> url == None
      ensures photoFile.Some? && reply.Uploaded? ==> url == Some(reply.publicUrl)
    {
      if photoFile.None? {
        return None, [];
      }
      var path := StoragePath(clock, random, photoFile.value.name);
      sent := [UploadObject(PhotoBucket, path, photoFile.value)];
      match reply {
        case UploadFailed => url := None;
        case Uploaded(publicUrl) => url := Some(publicUrl);
      }
    }

    /** `handleSubmit`: a rejected form stops everything before any request or state change.
        An accepted one sets the loading flag, asks for a code, uploads the photo if there is one
        (a failed upload only drops the URL), inserts the card, resets the form on success or
        keeps it on error, and always ends with the loading flag cleared. `sent` lists the
        requests in the order they go out; `loadingWhenSent` tells whether the loading flag
        was set each time one went out. */
    method HandleSubmit(backend: Backend, clock: nat, random: string) returns (sent: seq<Request>, loadingWhenSent: bool)
      modifies this`formData, this`photoFile, this`photoPreview, this`isLoading
      ensures ValidateForm(old(formData)).Rejected? ==>
        sent == [] && formData == old(formData) && photoFile == old(photoFile)
        && photoPreview == old(photoPreview) && isLoading == old(isLoading)
      ensures ValidateForm(old(formData)).Accepted? ==>
        !isLoading && loadingWhenSent && |sent| >= 1 && sent[0] == GenerateCode
      ensures ValidateForm(old(formData)).Accepted? && backend.codeReply.CodeFailed? ==>
        sent == [GenerateCode]
        && formData == old(formData) && photoFile == old(photoFile) && photoPreview == old(photoPreview)
      ensures ValidateForm(old(formData)).Accepted? && backend.codeReply.Generated? ==>
        sent ==
          [GenerateCode]
          + UploadRequests(old(photoFile), clock, random)
          + [InsertRow(CardTable, CardFor(old(formData), backend.codeReply.code, PhotoUrl(old(photoFile), backend.uploadReply)))]
      ensures ValidateForm(old(formData)).Accepted? && backend.codeReply.Generated? && backend.insertReply.InsertOk? ==>
        formData == EmptyForm && photoFile == None && photoPreview == None
      ensures ValidateForm(old(formData)).Accepted? && backend.codeReply.Generated? && backend.insertReply.InsertFailed? ==>
        formData == old(formData) && photoFile == old(photoFile) && photoPreview == old(photoPreview)
    {
      loadingWhenSent := true;
      if ValidateForm(formData).Rejected? {
        return [], loadingWhenSent;
      }
      isLoading := true;
      sent, loadingWhenSent := [GenerateCode], loadingWhenSent && isLoading;
      if backend.codeReply.CodeFailed? {
        // the thrown error is caught, and the form is left as it was
        isLoading := false;
        return;
      }
      var photoUrl, uploads := UploadPhoto(backend.uploadReply, clock, random);
      sent, loadingWhenSent := sent + uploads, loadingWhenSent && isLoading;
      var card := CardFor(formData, backend.codeReply.code, photoUrl);
      sent, loadingWhenSent := sent + [InsertRow(CardTable, card)], loadingWhenSent && isLoading;
      if backend.insertReply.InsertOk? {
        formData := EmptyForm;
        photoFile := None;
        photoPreview := None;
      }
      isLoading := false;
    }
  }

  /** The row inserted for the sample form carries its age and year as whole numbers. */
  lemma SampleFormCard(code: string, photoUrl: Option<string>)
    ensures CardFor(SampleForm, code, photoUrl) == StudentCard(
      code, "Maria Silva", Finite(22), "Feminino", "São Paulo - SP", Finite(2021), "Administração", photoUrl)
  {
    SampleAcceptance();
    SampleAge();
    SampleYear();
    AcceptedFormCard(SampleForm, code, photoUrl);
  }

  /** A session on a new page: the admin types an acceptable card field by field, picks a
      photo whose upload then fails, and saves. The card is still inserted, without a photo
      URL, and the page ends with an empty form, no photo and the loading flag cleared. */
  method SaveWithFailedUpload(typed: FormData, code: string, photoName: string, dataUrl: string, clock: nat, random: string)
    returns (sent: seq<Request>, form: FormData, photo: Option<Photo>, loading: bool)
    requires ValidateForm(typed) == Accepted
    ensures sent ==
      [GenerateCode]
      + [UploadObject(PhotoBucket, StoragePath(clock, random, photoName), Photo(photoName))]
      + [InsertRow(CardTable, CardFor(typed, code, None))]
    ensures form == EmptyForm && photo == None && !loading
  {
    var page := new AdminPanel();
    page.HandleInputChange(FullName, typed.fullName);
    page.HandleInputChange(Age, typed.age);
    page.HandleInputChange(Gender, typed.gender);
    page.HandleInputChange(City, typed.city);
    page.HandleInputChange(CourseStartYear, typed.courseStartYear);
    page.HandleInputChange(Course, typed.course);
    assert page.formData == typed;
    assert ValidateForm(page.formData).Accepted?;
    page.HandlePhotoUpload(Some(Photo(photoName)), dataUrl);
    assert UploadRequests(page.photoFile, clock, random)
      == [UploadObject(PhotoBucket, StoragePath(clock, random, photoName), Photo(photoName))];
    assert PhotoUrl(page.photoFile, UploadFailed) == None;
    var loadingWhenSent;
    sent, loadingWhenSent := page.HandleSubmit(Backend(Generated(code), UploadFailed, InsertOk), clock, random);
    form, photo, loading := page.formData, page.photoFile, page.isLoading;
  }
}
