/**
 * The admin page's working form: six text fields, the update that
 * overwrites one of them, and the validator that runs before a card is saved.
 */
module StudentForm {
  import opened JsNumber

  /** The six inputs of the form, held as the text the inputs produce. */
  datatype FormData = FormData(
    fullName: string,
    age: string,
    gender: string,
    city: string,
    courseStartYear: string,
    course: string)

  /** The field names the inputs pass to the change handler. */
  datatype Field = FullName | Age | Gender | City | CourseStartYear | Course

  /** The form as the page starts and as a successful save leaves it. */
  const EmptyForm := FormData("", "", "", "", "", "")

  /** The smallest accepted age and course start year. */
  const MinAge := 1
  const MinCourseStartYear := 1900

  function Get(f: FormData, field: Field): string {
    match field
    case FullName => f.fullName
    case Age => f.age
    case Gender => f.gender
    case City => f.city
    case CourseStartYear => f.courseStartYear
    case Course => f.course
  }

  /** `{...prev, [field]: value}`: the named field takes the new value, every other field keeps its own. */
  function Set(f: FormData, field: Field, value: string): (r: FormData)
    ensures Get(r, field) == value
    ensures forall other :: other != field ==> Get(r, other) == Get(f, other)
  {
    match field
    case FullName => f.(fullName := value)
    case Age => f.(age := value)
    case Gender => f.(gender := value)
    case City => f.(city := value)
    case CourseStartYear => f.(courseStartYear := value)
    case Course => f.(course := value)
  }

  /** Two forms that agree on every field are the same form. */
  lemma FormsAgreeingOnFieldsAreEqual(f: FormData, g: FormData)
    requires forall field :: Get(f, field) == Get(g, field)
    ensures f == g
  {
    assert Get(f, FullName) == Get(g, FullName);
    assert Get(f, Age) == Get(g, Age);
    assert Get(f, Gender) == Get(g, Gender);
    assert Get(f, City) == Get(g, City);
    assert Get(f, CourseStartYear) == Get(g, CourseStartYear);
    assert Get(f, Course) == Get(g, Course);
  }

  /** Writing a field back with its own value changes nothing; the last of two writes to a field wins. */
  lemma SetLaws(f: FormData, field: Field, v: string, w: string)
    ensures Set(f, field, Get(f, field)) == f
    ensures Set(Set(f, field, v), field, w) == Set(f, field, w)
  {
  }

  /** Writes to two different fields commute. */
  lemma SetCommutes(f: FormData, a: Field, b: Field, v: string, w: string)
    requires a != b
    ensures Set(Set(f, a, v), b, w) == Set(Set(f, b, w), a, v)
  {
  }

  /** The validator's outcomes; a rejection names the one check that failed first. */
  datatype ValidationError = MissingFields | BadAge | BadYear
  datatype Verdict = Accepted | Rejected(error: ValidationError)

  /** Every field holds some text. */
  predicate AllPresent(f: FormData) {
    forall field :: Get(f, field) != ""
  }

  /** `Number(s)` is a number no smaller than `lo`. */
  predicate NumberAtLeast(s: string, lo: int) {
    ToNumber(s).Finite? && ToNumber(s).value >= lo
  }

  /** `validateForm`: presence of all six fields, then the age, then the start year;
      the first failing check decides the verdict. */
  function ValidateForm(f: FormData): (v: Verdict)
    ensures v == Rejected(MissingFields) <==> exists field :: Get(f, field) == ""
    ensures v == Rejected(BadAge) <==> AllPresent(f) && !NumberAtLeast(f.age, MinAge)
    ensures v == Rejected(BadYear) <==>
      AllPresent(f) && NumberAtLeast(f.age, MinAge) && !NumberAtLeast(f.courseStartYear, MinCourseStartYear)
    ensures v == Accepted <==>
      AllPresent(f) && NumberAtLeast(f.age, MinAge) && NumberAtLeast(f.courseStartYear, MinCourseStartYear)
  {
    if f.fullName == "" || f.age == "" || f.gender == "" || f.city == "" || f.courseStartYear == "" || f.course == "" then
      assert Get(f, FullName) == "" || Get(f, Age) == "" || Get(f, Gender) == ""
          || Get(f, City) == "" || Get(f, CourseStartYear) == "" || Get(f, Course) == "";
      Rejected(MissingFields)
    else
      var age := ToNumber(f.age);
      var year := ToNumber(f.courseStartYear);
      if IsNaN(age) || LessThan(age, MinAge) then Rejected(BadAge)
      else if IsNaN(year) || LessThan(year, MinCourseStartYear) then Rejected(BadYear)
      else Accepted
  }

  /** A form with both a bad age and a bad year is reported for its age only. */
  lemma AgeReportedBeforeYear(f: FormData)
    requires AllPresent(f)
    requires !NumberAtLeast(f.age, MinAge) && !NumberAtLeast(f.courseStartYear, MinCourseStartYear)
    ensures ValidateForm(f) == Rejected(BadAge)
  {
  }

  /** An empty field is reported whatever the other fields hold, however bad. */
  lemma MissingFieldReportedFirst(f: FormData, field: Field)
    requires Get(f, field) == ""
    ensures ValidateForm(f) == Rejected(MissingFields)
  {
  }

  /** No upper bound: once the other fields pass, every year from 1900 on is accepted,
      written as the decimal text a number input produces. */
  lemma EveryYearFrom1900Accepted(f: FormData, year: nat)
    requires AllPresent(f) && NumberAtLeast(f.age, MinAge)
    requires year >= MinCourseStartYear
    ensures ValidateForm(Set(f, CourseStartYear, FormatNat(year))) == Accepted
  {
    ToNumberOfFormat(year);
    var g := Set(f, CourseStartYear, FormatNat(year));
    assert FormatInt(year) == FormatNat(year);
    assert forall field :: Get(g, field) != "" by {
      forall field ensures Get(g, field) != "" {
        if field != CourseStartYear {
          assert Get(g, field) == Get(f, field);
        }
      }
    }
  }

  /** Every age of at least one is accepted in a form whose other fields pass. */
  lemma EveryAgeFromOneAccepted(f: FormData, age: nat)
    requires AllPresent(f) && NumberAtLeast(f.courseStartYear, MinCourseStartYear)
    requires age >= MinAge
    ensures ValidateForm(Set(f, Age, FormatNat(age))) == Accepted
  {
  }

  /** A complete, well-formed form. */
  const SampleForm := FormData("Maria Silva", "22", "Feminino", "São Paulo - SP", "2021", "Administração")

  lemma SampleAge()
    ensures ToNumber(SampleForm.age) == Finite(22)
  {
    ToNumberOfFormat(22);
    assert FormatInt(22) == "22";
  }

  lemma SampleYear()
    ensures ToNumber(SampleForm.courseStartYear) == Finite(2021)
  {
    ToNumberOfFormat(2021);
    assert FormatInt(2021) == "2021";
  }

  /** The sample form is accepted. */
  lemma SampleAcceptance()
    ensures ValidateForm(SampleForm) == Accepted
  {
    SampleAge();
    SampleYear();
  }

  /** The sample form with an age that is not a number is rejected for its age. */
  lemma SampleBadAge()
    ensures ValidateForm(SampleForm.(age := "abc")) == Rejected(BadAge)
  {
  }

  /** The sample form with a start year before 1900 is rejected for its year. */
  lemma SampleBadYear()
    ensures ValidateForm(SampleForm.(courseStartYear := "1899")) == Rejected(BadYear)
  {
    SampleAge();
    ToNumberOfFormat(1899);
    assert FormatInt(1899) == "1899";
  }
}
