/** The verdicts the repository's validator tests expect, and the boundary
    cases of the salary rule: zero passes, a lone sign is not a number, blank
    text is empty. */
module ValidatorExamples {
  import opened Text
  import opened Salary
  import opened Validators
  import opened Results
  import opened Records

  lemma IdExamples()
    ensures IdCheck("BF001").Accepted? && IdCheck("") == Rejected(IdEmpty)
    ensures IdCheck("BF 001") == Rejected(IdNotAlnum)
  {
    assert !IsAlnum("BF 001"[2]);
  }

  lemma NameAccepted()
    ensures NameCheck("Alice Smith").Accepted?
  {
    var s := "Alice Smith";
    StripFixed(s);
    assert forall i :: 0 <= i < |s| ==> IsNameChar(s[i]);
  }

  /** A name with a character outside letters and spaces is refused for
      its format, not as empty. */
  lemma NameWithOtherCharRejected(s: string, i: nat)
    requires s == Strip(s) && i < |s| && !IsNameChar(s[i])
    ensures NameCheck(s) == Rejected(NameFormat)
  {
  }

  lemma NameRejected()
    ensures NameCheck("Alice123") == Rejected(NameFormat)
  {
    var s := "Alice123";
    StripFixed(s);
    NameWithOtherCharRejected(s, 5);
  }

  lemma DepartmentAccepted()
    ensures DepartmentCheck("Engineering").Accepted?
  {
    var s := "Engineering";
    StripFixed(s);
    assert forall i :: 0 <= i < |s| ==> IsDepartmentChar(s[i]);
  }

  lemma DepartmentWithOtherCharRejected(s: string, i: nat)
    requires s == Strip(s) && i < |s| && !IsDepartmentChar(s[i])
    ensures DepartmentCheck(s) == Rejected(DepartmentFormat)
  {
  }

  lemma DepartmentRejected()
    ensures DepartmentCheck("Eng@Dept") == Rejected(DepartmentFormat)
  {
    var s := "Eng@Dept";
    StripFixed(s);
    DepartmentWithOtherCharRejected(s, 3);
  }

  /** A plain run of digits, "0" included, is a salary that passes. */
  lemma DigitsAccepted(s: string)
    requires s != [] && AllDigits(s)
    ensures SalaryCheck(s).Accepted?
  {
    DigitsParse(s);
    StripFixed(s);
  }

  /** A minus sign before a non-zero run of digits is a negative salary. */
  lemma NegativeRejected(s: string)
    requires s != [] && AllDigits(s) && DigitsValue(s) > 0
    ensures SalaryCheck("-" + s) == Rejected(SalaryNegative)
  {
    var t := "-" + s;
    assert t[1..] == s;
    DigitsParse(s);
    StripFixed(t);
  }

  /** A sign with no digits after it is not a number. */
  lemma SignAloneRejected(c: char)
    requires c == '+' || c == '-'
    ensures SalaryCheck([c]) == Rejected(SalaryNotNumber)
  {
    var t := [c];
    assert FindChar(t[1..], '.', 0) == 0;
    StripFixed(t);
  }

  /** Text with no digit at all, such as "abc", is not a number. */
  lemma WordRejected()
    ensures SalaryCheck("abc") == Rejected(SalaryNotNumber)
  {
    var s := "abc";
    StripFixed(s);
    assert !HasDigit(s) by {
      assert forall i :: 0 <= i < |s| ==> !IsDigit(s[i]);
    }
  }

  lemma EmailAccepted()
    ensures EmailCheck("test@example.com").Accepted?
  {
    var s := "test@example.com";
    StripFixed(s);
    assert forall i :: 0 <= i < |s| ==> !IsSpace(s[i]);
    assert s[4] == '@' && s[12] == '.';
  }

  /** Text of whitespace only is an empty salary. */
  lemma SalaryBlankRejected()
    ensures SalaryCheck(" \t") == Rejected(SalaryEmpty)
  {
    assert IsSpace(" \t"[0]) && IsSpace(" \t"[1]);
  }

  /** A space anywhere fails the pattern, with the format message. */
  lemma EmailWithSpaceRejected()
    ensures EmailCheck("test @example.com") == Rejected(EmailFormat)
  {
    var s := "test @example.com";
    StripFixed(s);
    assert IsSpace(s[4]);
  }

  lemma ContactExamples()
    ensures ContactCheck("123-456-7890").Accepted?
    ensures ContactCheck("") == Rejected(ContactEmpty)
  {
    assert !IsSpace("123-456-7890"[0]);
  }

  /** Contact details and emails may hold a comma, the default delimiter of
      the data file. */
  lemma CommaAccepted()
    ensures ContactCheck("Main St, Springfield").Accepted?
    ensures EmailCheck("a,b@c.de").Accepted?
  {
    assert !IsSpace("Main St, Springfield"[0]);
    var s := "a,b@c.de";
    StripFixed(s);
    assert forall i :: 0 <= i < |s| ==> !IsSpace(s[i]);
    assert s[3] == '@' && s[5] == '.';
  }

  /** The test rows' salary "75000.50" reads as 7500050 cents. */
  lemma SampleSalaryReads()
    ensures ParseAmount("75000.50") == Some(7500050)
  {
    assert NatToDecimal(7) == "7";
    assert NatToDecimal(75) == "75";
    assert NatToDecimal(750) == "750";
    assert NatToDecimal(7500) == "7500";
    assert NatToDecimal(75000) == "75000";
    assert FormatAmount(7500050) == "75000.50";
    AmountRoundTrip(7500050);
  }

  /** Reading back a row whose department is empty raises the
      department's error rather than returning `None`. */
  lemma FromDictDepartmentEmpty()
    ensures FromDict(map["Employee ID" := "BF001", "Name" := "Alice Smith", "Department" := "",
                         "Salary" := "75000.50", "Email" := "alice.s@bitfutura.test",
                         "Contact Details" := "123-456-7890"]) == Raised(DepartmentEmpty)
  {
    var row := map["Employee ID" := "BF001", "Name" := "Alice Smith", "Department" := "",
                   "Salary" := "75000.50", "Email" := "alice.s@bitfutura.test",
                   "Contact Details" := "123-456-7890"];
    assert Get(row, "Salary", "0") == "75000.50";
    assert Get(row, "Employee ID", "") == "BF001" && Get(row, "Name", "") == "Alice Smith";
    assert Get(row, "Department", "") == "";
    SampleSalaryReads();
    IdExamples();
    NameAccepted();
    assert DepartmentCheck("") == Rejected(DepartmentEmpty);
  }
}
