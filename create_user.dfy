/**
 * The "Create New Employee" dialog of `components/create-user-modal.tsx`:
 * the form, its validation, the per-field error clearing on input, and the
 * record built on a valid submission.
 *
 * `Number(...)` on the age text is the parameter `toNumber` (`None` stands
 * for `NaN`); `Date.now()` and `Math.random()` are the parameters `id` and
 * `roll`.
 */
module CreateUser {
  import opened Wrappers
  import opened Text
  import opened Types

  /** The form's fields. */
  datatype Field =
    | FirstName | LastName | Email | Phone | Age | Department | Title
    | Bio | AddressLine | City | State | PostalCode | Country

  /** The text typed into every field. */
  datatype FormData = FormData(
    firstName: string, lastName: string, email: string, phone: string, age: string,
    department: string, title: string, bio: string, address: string, city: string,
    state: string, postalCode: string, country: string)
  {
    /** `formData[field]`. */
    function Get(f: Field): string
    {
      match f
      case FirstName => firstName
      case LastName => lastName
      case Email => email
      case Phone => phone
      case Age => age
      case Department => department
      case Title => title
      case Bio => bio
      case AddressLine => address
      case City => city
      case State => state
      case PostalCode => postalCode
      case Country => country
    }

    /** `{ ...formData, [field]: value }`: the named field holds `value`, every other keeps its text. */
    function With(f: Field, value: string): (r: FormData)
      ensures r.Get(f) == value
      ensures forall g :: g != f ==> r.Get(g) == Get(g)
    {
      match f
      case FirstName => this.(firstName := value)
      case LastName => this.(lastName := value)
      case Email => this.(email := value)
      case Phone => this.(phone := value)
      case Age => this.(age := value)
      case Department => this.(department := value)
      case Title => this.(title := value)
      case Bio => this.(bio := value)
      case AddressLine => this.(address := value)
      case City => this.(city := value)
      case State => this.(state := value)
      case PostalCode => this.(postalCode := value)
      case Country => this.(country := value)
    }
  }

  /** The form as it opens and as it is reset after a creation. */
  const EmptyForm := FormData("", "", "", "", "", "", "", "", "", "", "", "", "")

  lemma EmptyFormIsEmpty(f: Field)
    ensures EmptyForm.Get(f) == ""
  {
  }

  /**
   * The pattern `\S+@\S+\.\S+` matches at `at` (the `@`) and `dot` (the `.`):
   * a non-blank character before the `@`, a non-empty run of non-blank
   * characters up to the `.`, and a non-blank character after it. The pattern
   * is not anchored, so nothing is said about the rest of the text.
   */
  predicate EmailMatchAt(s: string, at: int, dot: int)
  {
    0 < at && at + 1 < dot && dot + 1 < |s| &&
    !IsSpace(s[at - 1]) && s[at] == '@' &&
    (forall k | at < k < dot :: !IsSpace(s[k])) &&
    s[dot] == '.' && !IsSpace(s[dot + 1])
  }

  /** `/\S+@\S+\.\S+/.test(s)`. */
  predicate EmailLike(s: string)
  {
    exists at, dot | 0 < at < dot < |s| :: EmailMatchAt(s, at, dot)
  }

  /** A text the pattern accepts has an `@` followed, later, by a `.`. */
  lemma EmailLikeHasAtAndDot(s: string)
    requires EmailLike(s)
    ensures exists i, j :: 0 <= i < j < |s| && s[i] == '@' && s[j] == '.'
  {
    var at, dot :| 0 < at < dot < |s| && EmailMatchAt(s, at, dot);
    assert s[at] == '@' && s[dot] == '.';
  }

  /** The pattern is unanchored: text around an accepted address does not make it rejected. */
  lemma EmailLikeInContext(s: string, before: string, after: string)
    requires EmailLike(s)
    ensures EmailLike(before + s + after)
  {
    var at, dot :| 0 < at < dot < |s| && EmailMatchAt(s, at, dot);
    var t := before + s + after;
    forall k | 0 <= k < |s| ensures t[|before| + k] == s[k] {
      assert t[|before| + k] == (before + s)[|before| + k];
    }
    forall k | |before| + at < k < |before| + dot ensures !IsSpace(t[k]) {
      assert t[|before| + (k - |before|)] == s[k - |before|];
    }
    assert EmailMatchAt(t, |before| + at, |before| + dot);
  }

  /** `!text.trim()`: nothing but whitespace was typed. */
  predicate Missing(text: string)
  {
    Trim(text) == ""
  }

  /** The error of a text field that must not be blank. */
  function RequiredError(text: string, message: string): Option<string>
  {
    if Missing(text) then Some(message) else None
  }

  /** The error of a choice that must be made (the text is not trimmed). */
  function ChoiceError(value: string, message: string): Option<string>
  {
    if value == "" then Some(message) else None
  }

  /** The email's error: required first, then the pattern. */
  function EmailError(email: string): Option<string>
  {
    if Missing(email) then Some("Email is required")
    else if !EmailLike(email) then Some("Email is invalid")
    else None
  }

  /** `isNaN(n) || n < 18 || n > 100`, with `None` for `NaN`. */
  predicate OutOfRange(n: Option<real>)
  {
    n.None? || n.value < 18.0 || n.value > 100.0
  }

  /** The age's error, given the text and the number it reads as: required first, then a number from 18 to 100. */
  function AgeError(age: string, n: Option<real>): Option<string>
  {
    if Missing(age) then Some("Age is required")
    else if OutOfRange(n) then Some("Age must be between 18 and 100")
    else None
  }

  /** The field's error message for this form, if it has one (`validateForm`, field by field). */
  function FieldError(form: FormData, toNumber: string -> Option<real>, f: Field): Option<string>
  {
    match f
    case FirstName => RequiredError(form.firstName, "First name is required")
    case LastName => RequiredError(form.lastName, "Last name is required")
    case Email => EmailError(form.email)
    case Phone => RequiredError(form.phone, "Phone is required")
    case Age => AgeError(form.age, toNumber(form.age))
    case Department => ChoiceError(form.department, "Department is required")
    case Title => RequiredError(form.title, "Job title is required")
    case _ => None
  }

  /** The "required" message of a field that must be filled in, `None` for an optional one. */
  function RequiredMessage(f: Field): Option<string>
  {
    match f
    case FirstName => Some("First name is required")
    case LastName => Some("Last name is required")
    case Email => Some("Email is required")
    case Phone => Some("Phone is required")
    case Age => Some("Age is required")
    case Department => Some("Department is required")
    case Title => Some("Job title is required")
    case _ => None
  }

  /**
   * What the dialog accepts, written without the messages: names, phone and
   * title not blank, an email that is not blank and matches the pattern, an
   * age that is not blank and reads as a number from 18 to 100 (fractions
   * allowed), and a department that is not the empty string (it is not trimmed).
   */
  ghost predicate Acceptable(form: FormData, toNumber: string -> Option<real>)
  {
    !Blank(form.firstName) && !Blank(form.lastName) &&
    !Blank(form.email) && EmailLike(form.email) &&
    !Blank(form.phone) &&
    !Blank(form.age) && toNumber(form.age).Some? && 18.0 <= toNumber(form.age).value <= 100.0 &&
    form.department != "" &&
    !Blank(form.title)
  }

  /** A blank required field reports exactly its "required" message, whatever else it holds. */
  lemma BlankIsRequired(form: FormData, toNumber: string -> Option<real>, f: Field)
    requires RequiredMessage(f).Some? && f != Department && Blank(form.Get(f))
    ensures FieldError(form, toNumber, f) == RequiredMessage(f)
  {
    TrimEmptyIff(form.Get(f));
  }

  /** The optional fields never carry an error. */
  lemma OptionalNeverFails(form: FormData, toNumber: string -> Option<real>, f: Field)
    requires RequiredMessage(f).None?
    ensures FieldError(form, toNumber, f).None?
  {
  }

  /** A field with an error is a required one. */
  lemma ErrorsOnlyOnRequired(form: FormData, toNumber: string -> Option<real>, f: Field)
    requires FieldError(form, toNumber, f).Some?
    ensures RequiredMessage(f).Some?
  {
  }

  /** A field reports nothing exactly when the form meets its condition. */
  lemma NoErrorsIff(form: FormData, toNumber: string -> Option<real>)
    ensures (forall f :: FieldError(form, toNumber, f).None?) <==> Acceptable(form, toNumber)
  {
    TrimEmptyIff(form.firstName);
    TrimEmptyIff(form.lastName);
    TrimEmptyIff(form.email);
    TrimEmptyIff(form.phone);
    TrimEmptyIff(form.age);
    TrimEmptyIff(form.title);
    if forall f :: FieldError(form, toNumber, f).None? {
      assert FieldError(form, toNumber, FirstName).None?;
      assert FieldError(form, toNumber, LastName).None?;
      assert FieldError(form, toNumber, Email).None?;
      assert FieldError(form, toNumber, Phone).None?;
      assert FieldError(form, toNumber, Age).None?;
      assert FieldError(form, toNumber, Department).None?;
      assert FieldError(form, toNumber, Title).None?;
    }
  }

  /** The empty form reports the "required" message on every required field and nothing else. */
  lemma EmptyFormErrors(toNumber: string -> Option<real>, f: Field)
    ensures FieldError(EmptyForm, toNumber, f) == RequiredMessage(f)
  {
    assert Missing("");
    match f
    case FirstName =>
    case LastName =>
    case Email =>
    case Phone =>
    case Age =>
    case Department =>
    case Title =>
    case _ =>
  }

  /** The dictionary holds the field's error exactly when it has one. */
  ghost predicate Reports(errors: map<Field, string>, form: FormData, toNumber: string -> Option<real>, f: Field)
  {
    (f in errors <==> FieldError(form, toNumber, f).Some?) &&
    (f in errors ==> FieldError(form, toNumber, f) == Some(errors[f]))
  }

  /** The dictionary reports the fields in `checked` and holds no other. */
  ghost predicate ReportsOn(errors: map<Field, string>, form: FormData, toNumber: string -> Option<real>, checked: set<Field>)
  {
    forall f :: (f in errors <==> f in checked && FieldError(form, toNumber, f).Some?) &&
      (f in errors ==> FieldError(form, toNumber, f) == Some(errors[f]))
  }

  /** Entering one more field's check keeps the dictionary reporting the fields checked so far. */
  lemma RecordReports(errors: map<Field, string>, form: FormData, toNumber: string -> Option<real>, checked: set<Field>, f: Field)
    requires ReportsOn(errors, form, toNumber, checked) && f !in checked
    ensures ReportsOn(Record(errors, f, FieldError(form, toNumber, f)), form, toNumber, checked + {f})
  {
  }

  /** The seven checks of the form, in order. */
  ghost function Checked(form: FormData, toNumber: string -> Option<real>): map<Field, string>
  {
    var e1 := Record(map[], FirstName, FieldError(form, toNumber, FirstName));
    var e2 := Record(e1, LastName, FieldError(form, toNumber, LastName));
    var e3 := Record(e2, Email, FieldError(form, toNumber, Email));
    var e4 := Record(e3, Phone, FieldError(form, toNumber, Phone));
    var e5 := Record(e4, Age, FieldError(form, toNumber, Age));
    var e6 := Record(e5, Department, FieldError(form, toNumber, Department));
    Record(e6, Title, FieldError(form, toNumber, Title))
  }

  /** After the seven checks the dictionary reports every field. */
  lemma CheckedReports(form: FormData, toNumber: string -> Option<real>)
    ensures forall f :: Reports(Checked(form, toNumber), form, toNumber, f)
  {
    var e0: map<Field, string> := map[];
    var e1 := Record(e0, FirstName, FieldError(form, toNumber, FirstName));
    RecordReports(e0, form, toNumber, {}, FirstName);
    var e2 := Record(e1, LastName, FieldError(form, toNumber, LastName));
    RecordReports(e1, form, toNumber, {FirstName}, LastName);
    var e3 := Record(e2, Email, FieldError(form, toNumber, Email));
    RecordReports(e2, form, toNumber, {FirstName, LastName}, Email);
    var e4 := Record(e3, Phone, FieldError(form, toNumber, Phone));
    RecordReports(e3, form, toNumber, {FirstName, LastName, Email}, Phone);
    var e5 := Record(e4, Age, FieldError(form, toNumber, Age));
    RecordReports(e4, form, toNumber, {FirstName, LastName, Email, Phone}, Age);
    var e6 := Record(e5, Department, FieldError(form, toNumber, Department));
    RecordReports(e5, form, toNumber, {FirstName, LastName, Email, Phone, Age}, Department);
    var e7 := Record(e6, Title, FieldError(form, toNumber, Title));
    RecordReports(e6, form, toNumber, {FirstName, LastName, Email, Phone, Age, Department}, Title);
    forall f ensures Reports(e7, form, toNumber, f) {
      if f !in {FirstName, LastName, Email, Phone, Age, Department, Title} {
        assert FieldError(form, toNumber, f) == None;
      }
    }
  }

  /** A dictionary that reports every field holds exactly the failing fields, with their messages. */
  lemma ReportsFields(errors: map<Field, string>, form: FormData, toNumber: string -> Option<real>)
    requires forall f :: Reports(errors, form, toNumber, f)
    ensures forall f :: f in errors <==> FieldError(form, toNumber, f).Some?
    ensures forall f :: f in errors ==> FieldError(form, toNumber, f) == Some(errors[f])
  {
    forall f ensures f in errors <==> FieldError(form, toNumber, f).Some? {
      assert Reports(errors, form, toNumber, f);
    }
    forall f | f in errors ensures FieldError(form, toNumber, f) == Some(errors[f]) {
      assert Reports(errors, form, toNumber, f);
    }
  }

  /** A dictionary of exactly the failing fields is empty exactly when the form is acceptable. */
  lemma NoReportsIff(errors: map<Field, string>, form: FormData, toNumber: string -> Option<real>)
    requires forall f :: f in errors <==> FieldError(form, toNumber, f).Some?
    ensures errors == map[] <==> Acceptable(form, toNumber)
  {
    NoErrorsIff(form, toNumber);
    if errors != map[] {
      var f :| f in errors;
      assert FieldError(form, toNumber, f).Some?;
    }
  }

  /** A check's outcome entered in the dictionary: its message, if any, under the field's name. */
  function Record(errors: map<Field, string>, f: Field, error: Option<string>): map<Field, string>
  {
    if error.Some? then errors[f := error.value] else errors
  }

  /** `if (!text.trim()) newErrors[f] = message`. */
  method RequireText(errors: map<Field, string>, f: Field, text: string, message: string) returns (r: map<Field, string>)
    ensures r == Record(errors, f, RequiredError(text, message))
  {
    r := errors;
    if Missing(text) {
      r := r[f := message];
    }
  }

  /** The email check: the "required" message first, else the pattern's. */
  method CheckEmail(errors: map<Field, string>, email: string) returns (r: map<Field, string>)
    ensures r == Record(errors, Email, EmailError(email))
  {
    r := errors;
    if Missing(email) {
      r := r[Email := "Email is required"];
    } else if !EmailLike(email) {
      r := r[Email := "Email is invalid"];
    }
  }

  /** The age check, given the text and the number it reads as. */
  method CheckAge(errors: map<Field, string>, age: string, n: Option<real>) returns (r: map<Field, string>)
    ensures r == Record(errors, Age, AgeError(age, n))
  {
    r := errors;
    if Missing(age) {
      r := r[Age := "Age is required"];
    } else if OutOfRange(n) {
      r := r[Age := "Age must be between 18 and 100"];
    }
  }

  /** `if (!value) newErrors[f] = message`. */
  method RequireChoice(errors: map<Field, string>, f: Field, value: string, message: string) returns (r: map<Field, string>)
    ensures r == Record(errors, f, ChoiceError(value, message))
  {
    r := errors;
    if value == "" {
      r := r[f := message];
    }
  }

  /**
   * `validateForm`: the error dictionary, filled one check at a time, holds
   * exactly the fields that fail with their messages, and the form is valid
   * exactly when it is acceptable.
   */
  method ValidateForm(form: FormData, toNumber: string -> Option<real>) returns (errors: map<Field, string>, valid: bool)
    ensures forall f :: f in errors <==> FieldError(form, toNumber, f).Some?
    ensures forall f :: f in errors ==> FieldError(form, toNumber, f) == Some(errors[f])
    ensures valid <==> errors == map[]
  {
    errors := map[];
    errors := RequireText(errors, FirstName, form.firstName, "First name is required");
    errors := RequireText(errors, LastName, form.lastName, "Last name is required");
    errors := CheckEmail(errors, form.email);
    errors := RequireText(errors, Phone, form.phone, "Phone is required");
    errors := CheckAge(errors, form.age, toNumber(form.age));
    errors := RequireChoice(errors, Department, form.department, "Department is required");
    errors := RequireText(errors, Title, form.title, "Job title is required");
    assert errors == Checked(form, toNumber);
    CheckedReports(form, toNumber);
    ReportsFields(errors, form, toNumber);
    valid := |errors| == 0;
  }

  /** The dialog's state: whether it is open, the form, and the errors on show. */
  datatype Modal = Modal(open: bool, form: FormData, errors: map<Field, string>)

  /** A field shows an error when its entry is a non-empty message. */
  predicate ShowsError(errors: map<Field, string>, f: Field)
  {
    f in errors && errors[f] != ""
  }

  /**
   * `handleInputChange`: the field takes the new text and nothing else in the
   * form changes; a shown error on that field is blanked (its entry stays),
   * and every other field's error is left alone.
   */
  function HandleInputChange(m: Modal, f: Field, value: string): (r: Modal)
    ensures r.open == m.open
    ensures r.form.Get(f) == value && forall g :: g != f ==> r.form.Get(g) == m.form.Get(g)
    ensures r.errors.Keys == m.errors.Keys
    ensures !ShowsError(r.errors, f)
    ensures forall g :: g != f && g in m.errors ==> r.errors[g] == m.errors[g]
    ensures !ShowsError(m.errors, f) ==> r.errors == m.errors
  {
    Modal(m.open, m.form.With(f, value),
      if ShowsError(m.errors, f) then m.errors[f := ""] else m.errors)
  }

  /** Typing into a field never makes any field show an error it did not show. */
  lemma InputChangeShowsNoNewError(m: Modal, f: Field, value: string, g: Field)
    requires ShowsError(HandleInputChange(m, f, value).errors, g)
    ensures ShowsError(m.errors, g) && g != f
  {
  }

  /** `Math.floor(Math.random() * 5) + 1`. */
  function RandomRating(roll: real): (r: int)
    requires 0.0 <= roll < 1.0
    ensures 1 <= r <= 5
  {
    (roll * 5.0).Floor + 1
  }

  /** The bio given to a new employee who left the bio empty. */
  function DefaultBio(department: string): string
  {
    "Experienced professional in " + department + ". Passionate about innovation and team collaboration."
  }

  /**
   * The record built on submission: the form's text in the employee's fields,
   * the company "TechCorp Inc.", the placeholder image, a rating from 1 to 5,
   * the typed bio or else the templated one, and no projects or feedback.
   */
  function NewUser(form: FormData, id: int, age: real, roll: real): (r: Employee)
    requires 0.0 <= roll < 1.0
    ensures r.id == id && r.age == age
    ensures r.firstName == form.firstName && r.lastName == form.lastName
    ensures r.email == form.email && r.phone == form.phone
    ensures r.address == Address(form.address, form.city, form.state, form.postalCode, form.country)
    ensures r.company == Company(form.department, "TechCorp Inc.", form.title)
    ensures r.Department() == form.department
    ensures r.image == "/placeholder.svg"
    ensures 1 <= r.rating <= 5
    ensures r.bio != ""
    ensures form.bio != "" ==> r.bio == form.bio
    ensures form.bio == "" ==> r.bio == DefaultBio(form.department)
    ensures r.projects == [] && r.feedback == []
  {
    Employee(id, form.firstName, form.lastName, form.email, age, form.phone,
      Address(form.address, form.city, form.state, form.postalCode, form.country),
      Company(form.department, "TechCorp Inc.", form.title),
      "/placeholder.svg", RandomRating(roll),
      if form.bio != "" then form.bio else DefaultBio(form.department),
      [], [])
  }

  /**
   * `handleSubmit`: an unacceptable form stays as it is and shows the errors
   * of exactly its failing fields; an acceptable one yields the new employee,
   * closes the dialog and resets the form and its errors.
   */
  method HandleSubmit(m: Modal, toNumber: string -> Option<real>, id: int, roll: real)
    returns (next: Modal, created: Option<Employee>)
    requires 0.0 <= roll < 1.0
    ensures created.Some? <==> Acceptable(m.form, toNumber)
    ensures created.None? ==> next.open == m.open && next.form == m.form
    ensures created.None? ==> forall f :: ShowsError(next.errors, f) <==> FieldError(m.form, toNumber, f).Some?
    ensures created.Some? ==> next == Modal(false, EmptyForm, map[])
    ensures created.Some? ==>
      toNumber(m.form.age).Some? && created.value == NewUser(m.form, id, toNumber(m.form.age).value, roll)
  {
    var errors, valid := ValidateForm(m.form, toNumber);
    NoReportsIff(errors, m.form, toNumber);
    if !valid {
      next := Modal(m.open, m.form, errors);
      created := None;
      forall f | f in errors ensures errors[f] != "" {
        assert FieldError(m.form, toNumber, f) == Some(errors[f]);
      }
      return;
    }
    assert FieldError(m.form, toNumber, Age).None?;
    var user := NewUser(m.form, id, toNumber(m.form.age).value, roll);
    created := Some(user);
    next := Modal(false, EmptyForm, map[]);
  }
}
