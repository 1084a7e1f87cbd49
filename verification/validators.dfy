/** The six field validators. Each answers with a verdict and, on failure, the
    message the shell shows; each checks for emptiness before it checks the
    format. All but the id validator look at the stripped text. */
module Validators {
  import opened Text
  import opened Results
  import opened Salary

  /** Why a validator rejects its input: one reason per rule. */
  datatype Failure =
    | IdEmpty | IdNotAlnum
    | NameEmpty | NameFormat
    | DepartmentEmpty | DepartmentFormat
    | SalaryEmpty | SalaryNegative | SalaryNotNumber
    | EmailEmpty | EmailFormat
    | ContactEmpty

  /** The message the source returns, and the shell prints, for each reason. */
  function Message(f: Failure): string {
    match f
    case IdEmpty => "Employee ID cannot be empty."
    case IdNotAlnum => "Employee ID must be alphanumeric (letters and numbers only)."
    case NameEmpty => "Name cannot be empty."
    case NameFormat => "Name must contain only alphabetic characters and spaces."
    case DepartmentEmpty => "Department cannot be empty."
    case DepartmentFormat => "Department can only contain letters, numbers, spaces, and hyphens."
    case SalaryEmpty => "Salary cannot be empty."
    case SalaryNegative => "Salary cannot be negative."
    case SalaryNotNumber => "Salary must be a valid number (e.g., 50000 or 65000.50)."
    case EmailEmpty => "Email cannot be empty."
    case EmailFormat => "Invalid email format (must contain '@' and '.', no spaces allowed)."
    case ContactEmpty => "Contact Details cannot be empty."
  }

  /** The `(ok, message)` pair a validator returns. */
  datatype Verdict = Accepted | Rejected(reason: Failure)

  /** The class `[a-zA-Z ]`. */
  predicate IsNameChar(c: char) { IsLetter(c) || c == ' ' }

  /** The class `[a-zA-Z0-9 \-]`. */
  predicate IsDepartmentChar(c: char) { IsAlnum(c) || c == ' ' || c == '-' }

  /** `re.fullmatch('[cls]+', s)`, scanned one character at a time. */
  function FullRun(s: string, cls: char -> bool): (r: bool)
    ensures r <==> s != [] && forall i :: 0 <= i < |s| ==> cls(s[i])
  {
    s != [] && cls(s[0]) && (|s| == 1 || FullRun(s[1..], cls))
  }

  /** What `re.match(r'^\S+@\S+\.\S+$', s)` asks of a stripped string: no
      whitespace anywhere, an '@' after at least one character, and after it a
      '.' with at least one character between the two and one after the '.'.
      `\S` matches '@' and '.' too, so any such pair of positions will do. */
  ghost predicate EmailShaped(s: string) {
    && (forall i :: 0 <= i < |s| ==> !IsSpace(s[i]))
    && exists at, dot :: 1 <= at && at + 2 <= dot && dot + 2 <= |s| && s[at] == '@' && s[dot] == '.'
  }

  /** The email pattern, decided by taking the first '@' after position 0 and
      then the first '.' at least two places after it. */
  function MatchesEmailPattern(s: string): (r: bool)
    ensures r <==> EmailShaped(s)
  {
    if s == [] then false
    else
      var at := FindChar(s, '@', 1);
      var ok := (forall i | 0 <= i < |s| :: !IsSpace(s[i])) && at + 2 <= |s| && FindChar(s, '.', at + 2) + 2 <= |s|;
      assert ok ==> s[at] == '@' && s[FindChar(s, '.', at + 2)] == '.';
      assert EmailShaped(s) ==> ok by {
        if EmailShaped(s) {
          var a, d :| 1 <= a && a + 2 <= d && d + 2 <= |s| && s[a] == '@' && s[d] == '.';
          assert at <= a;
          assert FindChar(s, '.', at + 2) <= d;
        }
      }
      ok
  }

  /** `is_valid_employee_id_format`: the id is not stripped. */
  function IdCheck(employeeId: string): (r: Verdict)
    ensures r.Accepted? <==> employeeId != [] && forall i :: 0 <= i < |employeeId| ==> IsAlnum(employeeId[i])
    ensures r.Rejected? ==> (r.reason == IdEmpty <==> employeeId == [])
    ensures r.Rejected? ==> r.reason in {IdEmpty, IdNotAlnum}
  {
    if employeeId == [] then Rejected(IdEmpty)
    else if !FullRun(employeeId, IsAlnum) then Rejected(IdNotAlnum)
    else Accepted
  }

  /** `is_valid_name_format`. */
  function NameCheck(name: string): (r: Verdict)
    ensures r.Accepted? <==> Strip(name) != [] && forall i :: 0 <= i < |Strip(name)| ==> IsNameChar(Strip(name)[i])
    ensures r.Rejected? ==> (r.reason == NameEmpty <==> Strip(name) == [])
    ensures r.Rejected? ==> r.reason in {NameEmpty, NameFormat}
  {
    var t := Strip(name);
    if t == [] then Rejected(NameEmpty)
    else if !FullRun(t, IsNameChar) then Rejected(NameFormat)
    else Accepted
  }

  /** `is_valid_department_format`. */
  function DepartmentCheck(department: string): (r: Verdict)
    ensures r.Accepted? <==> Strip(department) != [] && forall i :: 0 <= i < |Strip(department)| ==> IsDepartmentChar(Strip(department)[i])
    ensures r.Rejected? ==> (r.reason == DepartmentEmpty <==> Strip(department) == [])
    ensures r.Rejected? ==> r.reason in {DepartmentEmpty, DepartmentFormat}
  {
    var t := Strip(department);
    if t == [] then Rejected(DepartmentEmpty)
    else if !FullRun(t, IsDepartmentChar) then Rejected(DepartmentFormat)
    else Accepted
  }

  /** `is_valid_salary_format`: blank text, then text `float` cannot read,
      then a negative amount. */
  function SalaryCheck(salaryText: string): (r: Verdict)
    ensures r.Accepted? <==> ParseAmount(salaryText).Some? && ParseAmount(salaryText).value >= 0
    ensures r.Rejected? ==> (r.reason == SalaryEmpty <==> Strip(salaryText) == [])
    ensures r.Rejected? && Strip(salaryText) != [] ==> (r.reason == SalaryNegative <==> ParseAmount(salaryText).Some?)
    ensures r.Rejected? ==> r.reason in {SalaryEmpty, SalaryNegative, SalaryNotNumber}
  {
    if Strip(salaryText) == [] then Rejected(SalaryEmpty)
    else
      match ParseAmount(salaryText)
      case None => Rejected(SalaryNotNumber)
      case Some(c) => if c < 0 then Rejected(SalaryNegative) else Accepted
  }

  /** `is_valid_email_format`. */
  function EmailCheck(email: string): (r: Verdict)
    ensures r.Accepted? <==> Strip(email) != [] && EmailShaped(Strip(email))
    ensures r.Rejected? ==> (r.reason == EmailEmpty <==> Strip(email) == [])
    ensures r.Rejected? ==> r.reason in {EmailEmpty, EmailFormat}
  {
    var t := Strip(email);
    if t == [] then Rejected(EmailEmpty)
    else if !MatchesEmailPattern(t) then Rejected(EmailFormat)
    else Accepted
  }

  /** `is_valid_contact_details_format`: any text that is not blank. */
  function ContactCheck(contact: string): (r: Verdict)
    ensures r.Accepted? <==> exists i :: 0 <= i < |contact| && !IsSpace(contact[i])
    ensures r.Rejected? ==> r.reason == ContactEmpty
  {
    StripBlank(contact);
    if Strip(contact) == [] then Rejected(ContactEmpty) else Accepted
  }

  /** Recovers the reason from a message, by its length and, for the two
      messages of equal length, the character before the final full stop.
      The source has no such function: it is here only as the left inverse
      of `Message` that proves `MessagesDistinct`. */
  function ReasonOf(m: string): Option<Failure> {
    match |m|
    case 28 => Some(IdEmpty)
    case 60 => Some(IdNotAlnum)
    case 21 => Some(NameEmpty)
    case 56 => if m[54] == 's' then Some(NameFormat) else Some(SalaryNotNumber)
    case 27 => Some(DepartmentEmpty)
    case 66 => Some(DepartmentFormat)
    case 23 => Some(SalaryEmpty)
    case 26 => Some(SalaryNegative)
    case 22 => Some(EmailEmpty)
    case 67 => Some(EmailFormat)
    case 32 => Some(ContactEmpty)
    case _ => None
  }

  /** The message names its reason: no two rules share a message, so a caller
      can tell from the message alone which rule failed. */
  lemma MessageNamesReason(f: Failure)
    ensures ReasonOf(Message(f)) == Some(f)
  {
    if f.IdEmpty? || f.IdNotAlnum? || f.NameEmpty? || f.NameFormat? {
      IdOrNameMessage(f);
    } else if f.EmailEmpty? || f.EmailFormat? || f.ContactEmpty? {
      EmailOrContactMessage(f);
    } else {
      DepartmentOrSalaryMessage(f);
    }
  }

  lemma IdOrNameMessage(f: Failure)
    requires f.IdEmpty? || f.IdNotAlnum? || f.NameEmpty? || f.NameFormat?
    ensures ReasonOf(Message(f)) == Some(f)
  {
    match f
    case IdEmpty =>
    case IdNotAlnum =>
    case NameEmpty =>
    case NameFormat => assert Message(f)[54] == 's';
  }

  lemma DepartmentOrSalaryMessage(f: Failure)
    requires f.DepartmentEmpty? || f.DepartmentFormat? || f.SalaryEmpty? || f.SalaryNegative? || f.SalaryNotNumber?
    ensures ReasonOf(Message(f)) == Some(f)
  {
    match f
    case DepartmentEmpty =>
    case DepartmentFormat =>
    case SalaryEmpty =>
    case SalaryNegative =>
    case SalaryNotNumber => assert Message(f)[54] == ')';
  }

  lemma EmailOrContactMessage(f: Failure)
    requires f.EmailEmpty? || f.EmailFormat? || f.ContactEmpty?
    ensures ReasonOf(Message(f)) == Some(f)
  {
    match f
    case EmailEmpty =>
    case EmailFormat =>
    case ContactEmpty =>
  }

  lemma MessagesDistinct(f: Failure, g: Failure)
    requires f != g
    ensures Message(f) != Message(g)
  {
    MessageNamesReason(f);
    MessageNamesReason(g);
  }

  /** Validating an already stripped value gives the same verdict as
      validating the raw one, so a value stored stripped passes again. */
  lemma NameCheckStripped(s: string)
    ensures NameCheck(Strip(s)) == NameCheck(s)
  {
    StripIdempotent(s);
  }

  lemma DepartmentCheckStripped(s: string)
    ensures DepartmentCheck(Strip(s)) == DepartmentCheck(s)
  {
    StripIdempotent(s);
  }

  lemma EmailCheckStripped(s: string)
    ensures EmailCheck(Strip(s)) == EmailCheck(s)
  {
    StripIdempotent(s);
  }

  lemma ContactCheckStripped(s: string)
    ensures ContactCheck(Strip(s)) == ContactCheck(s)
  {
    StripIdempotent(s);
  }

  /** An id that passes has no whitespace, so the strip the constructor
      applies leaves it as it is. */
  lemma ValidIdIsStripped(employeeId: string)
    requires IdCheck(employeeId).Accepted?
    ensures Strip(employeeId) == employeeId
  {
    StripNoSpace(employeeId);
  }
}
