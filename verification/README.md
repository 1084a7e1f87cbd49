# Employee record store

A Dafny model of the core of `employee_management.py`, a command-line
employee management system. It covers:

- the six field validators;
- the `Employee` record: its validating constructor, `to_dict` and `from_dict`;
- the `EmployeeManagementSystem` store. It keeps a list of records in memory
  and mirrors it in a delimited data file.

The store is a class whose methods change the list and the file, as the
source does:

- loading and saving;
- the lookups by id and by department;
- adding, updating and deleting a record;
- the id-sorted listing and the department report.

Keyboard input arrives as the answers typed at each prompt. The data file is
its text, present or absent. Reading it splits the text into lines at `\n`,
`\r` and `\r\n`, as Python does for a file opened in text mode; saving
writes each line followed by `\n`.

Modules, one per file:

- `Results` (`results.dfy`): Option and Result.
- `Text` (`text.dfy`): the string operations the source uses, on ASCII.
- `Salary` (`salary.dfy`): salary text read into whole cents and written
  back with two decimals.
- `Validators` (`validators.dfy`): the validators and their messages.
- `ValidatorExamples` (`validator_examples.dfy`): the verdicts the
  repository's tests expect.
- `Records` (`records.dfy`): the record, its constructor and its
  dictionary form.
- `Sorting` (`sorting.dfy`): `sorted` with a key.
- `Persistence` (`persistence.dfy`): reading and writing the data file.
- `Reports` (`reports.dfy`): the department grouping and the report.
- `Store` (`store.dfy`): the dialogues and the `EmployeeManagementSystem`
  class.

What is proved:

- Each validator's verdict, in both directions, with its message. No two
  messages are the same.
- The constructor fails with the first failing validator's reason.
  Otherwise it yields a valid record of stripped fields.
- `from_dict` returns `None` exactly when the salary does not read, and
  otherwise raises the constructor's error or creates its record.
  `from_dict(to_dict(e))` gives back `e`.
- Loading:
  - keeps the first record of each id, in file order;
  - keeps only valid records;
  - numbers its warnings from line 2;
  - ignores every line that gives no record.
- Saving and loading again gives back a non-empty list exactly when the
  delimiter is not a line break, no value contains the delimiter, and no
  contact details contain `\n` or `\r`.
  - Contact details and emails may hold a comma, the default delimiter. A
    record with one is skipped as malformed on the next load.
  - Contact details are the only field whose validator admits a line break
    inside. Such a record is written raw and is cut in two on reading, so it
    does not come back.
- The store always holds valid records with distinct ids.
- Adding appends the record the dialogue admits.
- Updating replaces one record by one with the same id, after every
  non-blank answer passed its validator.
- Deleting removes exactly the record found and keeps the others in order.
- The listing is the records sorted by id, with nothing lost or added.
- The report groups records by stripped, lower-cased department.
  - The groups are sorted by display name and the records in each by name.
  - Every record is in exactly one group, under the first spelling of its
    department.
  - The group sizes add up to the number of records.

## Model

| member | source | states |
|---|---|---|
| Text.StripBlank | employee_management.py:73 | the strip of a string is empty exactly when every character is whitespace, the test `not s.strip()` |
| Text.StripFixed | employee_management.py:190-195 | a string that neither starts nor ends with whitespace is its own strip |
| Text.StripIdempotent | employee_management.py:190-195 | stripping a stripped value changes nothing, so stored fields stay as stored |
| Text.StripNoSpace | employee_management.py:190 | a string without whitespace is its own strip |
| Text.Lower | employee_management.py:325 | `lower()` keeps the length and maps each character to its lower-case form, leaving no upper-case letter |
| Text.Split | employee_management.py:262 | `split(d)` gives at least one piece and no piece holds the separator |
| Text.JoinFirst | employee_management.py:301 | a join starts with the first character of its first piece |
| Text.JoinLast | employee_management.py:301 | a join ends with the last character of its last piece |
| Text.JoinSplit | employee_management.py:262 | joining the pieces of a split gives back the string |
| Text.SplitPrefix | employee_management.py:262 | a separator-free prefix is glued to the first piece of the rest |
| Text.SplitJoin | employee_management.py:258-262 | splitting the join of separator-free pieces gives back the pieces |
| Text.CountAppend | employee_management.py:262 | separators counted in a concatenation add up |
| Text.CountPositive | employee_management.py:262 | a string that holds the separator counts at least one |
| Text.SplitPieces | employee_management.py:262 | a split has one piece more than there are separators in the string |
| Text.JoinCount | employee_management.py:301 | a join holds the separators between its pieces plus those inside any piece |
| Text.SplitJoinTooMany | employee_management.py:262-263 | a piece that holds the separator makes the split of the join longer than the list of pieces |
| Text.StripOmits | employee_management.py:260 | a character absent from a string is absent from its strip |
| Text.SplitOmits | employee_management.py:262 | a character absent from a string is absent from every piece of its split |
| Text.SplitWhole | employee_management.py:262 | a string without the separator splits into one piece |
| Text.JoinOmits | employee_management.py:301 | a character that is neither the separator nor in any piece is not in the join |
| Text.LineEnd | employee_management.py:259 | the position of the first line break, with none before it |
| Text.Lines | employee_management.py:257-259 | the lines of a text file read in universal-newline mode hold no line break |
| Text.FileTextAppend | employee_management.py:298-302 | writing one more line appends it and its `\n` |
| Text.LineEndAt | employee_management.py:259 | a line without a break ends where the next break starts |
| Text.LinesFileText | employee_management.py:257-302 | reading back lines written each with `\n` gives the lines, when none holds a line break |
| Text.LeTotal | employee_management.py:578 | any two strings are ordered one way or the other |
| Text.LeTransitive | employee_management.py:578 | the string order is transitive |
| Text.LeAntisymmetric | employee_management.py:578 | strings ordered both ways are equal |
| Salary.ParseUnsigned | employee_management.py:98 | an unsigned decimal that reads has at least one digit |
| Salary.ParseNumber | employee_management.py:98 | a number that reads has a digit, and a negative one starts with '-' |
| Salary.ParseAmount | employee_management.py:98 | `float(s)` ignores surrounding whitespace and needs a digit |
| Salary.DigitsParse | employee_management.py:98 | a plain run of digits reads as that many whole units |
| Salary.NatToDecimal | employee_management.py:203 | the integer part is written as non-empty digits whose value is the number |
| Salary.FormatAmount | employee_management.py:203 | `f"{x:.2f}"` ends with a digit, starts with a digit for a non-negative amount and with '-' for a negative one |
| Salary.UnsignedRoundTrip | employee_management.py:203 | a non-negative rendering reads back as its cents |
| Salary.AmountRoundTrip | employee_management.py:203-214 | the salary written by `to_dict` is read back by `float` in `from_dict` as the same amount |
| Salary.FormatAmountUnbroken | employee_management.py:203 | a written amount holds no line break |
| Validators.FullRun | employee_management.py:75 | `re.fullmatch('[cls]+', s)` holds exactly when `s` is non-empty and every character is in the class |
| Validators.MatchesEmailPattern | employee_management.py:113 | the scan for the first '@' and the first '.' after it decides the email pattern exactly |
| Validators.IdCheck | employee_management.py:57-66 | accepts exactly a non-empty all-alphanumeric id, without stripping; empty is reported before the format |
| Validators.NameCheck | employee_management.py:68-77 | accepts exactly when the strip is a non-empty run of letters and spaces; empty is reported before the format |
| Validators.DepartmentCheck | employee_management.py:79-88 | accepts exactly when the strip is a non-empty run of letters, digits, spaces and hyphens; empty before format |
| Validators.SalaryCheck | employee_management.py:90-103 | accepts exactly a readable non-negative amount; blank text is empty, readable negative text is negative, the rest is not a number |
| Validators.EmailCheck | employee_management.py:105-115 | accepts exactly when the strip has no whitespace, an '@' at index 1 or later, and a later '.' one character apart from it with a character after it |
| Validators.ContactCheck | employee_management.py:117-124 | accepts exactly text with a non-whitespace character |
| Validators.MessageNamesReason | employee_management.py:62-123 | every failure message determines its reason |
| Validators.IdOrNameMessage | employee_management.py:62-76 | the id and name messages determine their reasons |
| Validators.DepartmentOrSalaryMessage | employee_management.py:84-102 | the department and salary messages determine their reasons |
| Validators.EmailOrContactMessage | employee_management.py:111-123 | the email and contact messages determine their reasons |
| Validators.MessagesDistinct | employee_management.py:62-123 | two different reasons never share a message |
| Validators.NameCheckStripped | employee_management.py:73-75 | the name verdict of a stripped value equals that of the raw value |
| Validators.DepartmentCheckStripped | employee_management.py:84-86 | the department verdict of a stripped value equals that of the raw value |
| Validators.EmailCheckStripped | employee_management.py:111-113 | the email verdict of a stripped value equals that of the raw value |
| Validators.ContactCheckStripped | employee_management.py:122 | the contact verdict of a stripped value equals that of the raw value |
| Validators.ValidIdIsStripped | employee_management.py:190 | an accepted id is its own strip, so the constructor stores it as given |
| ValidatorExamples.IdExamples | test_employee_system.py:41-44 | "BF001" passes, "" is empty, "BF 001" is not alphanumeric |
| ValidatorExamples.NameAccepted | test_employee_system.py:47 | "Alice Smith" passes |
| ValidatorExamples.NameWithOtherCharRejected | employee_management.py:75-76 | a stripped name with a character outside letters and spaces fails for its format |
| ValidatorExamples.NameRejected | test_employee_system.py:48-49 | "Alice123" fails for its format |
| ValidatorExamples.DepartmentAccepted | test_employee_system.py:52 | "Engineering" passes |
| ValidatorExamples.DepartmentWithOtherCharRejected | employee_management.py:86-87 | a stripped department with another character fails for its format |
| ValidatorExamples.DepartmentRejected | test_employee_system.py:53-54 | "Eng@Dept" fails for its format |
| ValidatorExamples.DigitsAccepted | test_employee_system.py:57 | every plain run of digits, "50000" among them, passes |
| ValidatorExamples.NegativeRejected | test_employee_system.py:58 | a minus sign before a positive run of digits fails as negative |
| ValidatorExamples.SignAloneRejected | employee_management.py:97-102 | a lone sign is not a number |
| ValidatorExamples.WordRejected | test_employee_system.py:59 | "abc" is not a number |
| ValidatorExamples.EmailAccepted | test_employee_system.py:62 | "test@example.com" passes |
| ValidatorExamples.SalaryBlankRejected | employee_management.py:95-96 | whitespace-only salary text is empty |
| ValidatorExamples.EmailWithSpaceRejected | test_employee_system.py:63-65 | "test @example.com" fails for its format |
| ValidatorExamples.ContactExamples | test_employee_system.py:67-70 | "123-456-7890" passes and "" is empty |
| ValidatorExamples.CommaAccepted | employee_management.py:113-124 | contact details and emails may contain a comma, the file's delimiter |
| ValidatorExamples.SampleSalaryReads | test_employee_system.py:23-26 | the test rows' salary "75000.50" reads as 7500050 cents |
| ValidatorExamples.FromDictDepartmentEmpty | test_employee_system.py:113-118 | `from_dict` on a row with an empty department raises the department's empty message |
| Records.AllValidAppend | employee_management.py:426 | appending a valid record keeps every record valid |
| Records.DistinctIdsAppend | employee_management.py:394-426 | appending a record with a new id keeps the ids distinct |
| Records.AllValidReplace | employee_management.py:529-533 | replacing a record by a valid one keeps every record valid |
| Records.IdsReplace | employee_management.py:529-533 | replacing a record by one with its id keeps the same ids, and keeps them distinct |
| Records.Without | employee_management.py:563 | `del list[i]` leaves one record fewer, the others in their order |
| Records.AllValidRemove | employee_management.py:563 | removing a record keeps the rest valid |
| Records.IdsRemove | employee_management.py:563 | removing the record at `i` removes exactly its id and keeps the ids distinct |
| Records.StrippedFieldsValid | employee_management.py:190-195 | the stripped fields of validated inputs form a valid record |
| Records.NewEmployee | employee_management.py:182-195 | the constructor succeeds exactly when all six validators accept. It fails with the reason of the first that rejects, in the order id, name, department, salary, email, contact details. On success the record is valid, each string field is its input stripped, and the salary is the amount read |
| Records.ToDict | employee_management.py:197-206 | `to_dict` has exactly the six columns and writes the salary with two decimals |
| Records.ToDictColumns | employee_management.py:197-206 | each column of `to_dict` holds its field |
| Records.FromDict | employee_management.py:208-232 | `from_dict` returns `None` exactly when the salary does not read. Otherwise it raises exactly when the constructor fails on the columns, with the constructor's reason. A record it creates is valid, holds the amount read, keeps the id as given, and holds the other columns stripped |
| Records.NegativeSalaryRaises | employee_management.py:213-229 | a readable negative salary raises rather than returning `None` |
| Records.DictRoundTrip | employee_management.py:197-226 | `from_dict(to_dict(e))` gives back `e` |
| Persistence.ZipMap | employee_management.py:265 | `dict(zip(keys, values))` has exactly the keys |
| Persistence.ZipMapAt | employee_management.py:265 | with distinct keys each key maps to its own value |
| Persistence.ZipMapValues | employee_management.py:265 | every value of `dict(zip(keys, values))` is one of the values |
| Persistence.ClassifyLine | employee_management.py:260-283 | a line is blank exactly when its strip is empty. A non-blank line with the wrong number of values is malformed, with that number. A line of the right arity is skipped as unreadable exactly when its salary does not read, and as invalid exactly when `from_dict` raises, with its reason. A parsed line gives the valid record `from_dict` creates from its own columns. No line is a duplicate on its own |
| Persistence.Outcomes | employee_management.py:259-262 | every line after the header is classified on its own |
| Persistence.CandidateParsed | employee_management.py:266-275 | every candidate record comes from a parsed line |
| Persistence.FirstOnly | employee_management.py:268-275 | keeping first occurrences keeps at most as many records |
| Persistence.FirstOnlyIds | employee_management.py:268-275 | keeping first occurrences keeps every id and only the records given |
| Persistence.HasIdAppend | employee_management.py:275 | appending a record adds exactly its id |
| Persistence.LoadFrom | employee_management.py:259-283 | the records loaded have distinct ids |
| Persistence.FileLines | employee_management.py:255-259 | the lines read from the file hold no line break, and a missing file has none |
| Persistence.LoadedFromLine | employee_management.py:253-292 | every record loaded is the record of some line after the header |
| Persistence.LoadedValid | employee_management.py:253-292 | every record loaded is valid |
| Persistence.NoteLines | employee_management.py:259-283 | warnings carry line numbers from 2 on, increasing in file order |
| Persistence.LoadKeepsFirstOccurrences | employee_management.py:268-275 | the records loaded are exactly the first record of each id among the parsed lines, in file order |
| Persistence.CandidatesAppend | employee_management.py:259-275 | the candidates of two runs of lines are those of each, one after the other |
| Persistence.SkippedLineContributesNothing | employee_management.py:261-283 | a blank, malformed, unreadable or invalid line can be removed without changing the records loaded |
| Persistence.LoadFromStep | employee_management.py:259-283 | one more line through the loader adds its record, its warning or nothing |
| Persistence.IsIdUnseen | employee_management.py:268-273 | the duplicate scan answers true exactly when no earlier record has the id |
| Persistence.LoadEmployees | employee_management.py:253-292 | the loading loop yields the records and warnings of `Loaded`, classifying each line with `ClassifyLine`; no file or an empty file gives none |
| Persistence.RenderValues | employee_management.py:299-300 | a record is written as one value per column |
| Persistence.Rendered | employee_management.py:296-302 | the file written has one line per record after the header |
| Persistence.RenderedStep | employee_management.py:298-302 | writing one more record adds its line at the end |
| Persistence.EmployeeKeysDistinct | employee_management.py:37 | the standard column names are pairwise different |
| Persistence.StandardColumns | employee_management.py:299-300 | under the standard columns a record is written as its six fields in order |
| Persistence.ZipRenderedColumns | employee_management.py:265 | the values written, zipped back with the column names, give `to_dict` |
| Persistence.ValidEnds | employee_management.py:190-195 | a valid record starts with a non-blank id and ends with non-blank contact details |
| Persistence.LineStripped | employee_management.py:260 | a saved line of such a record is not blank and survives the strip on reading |
| Persistence.LineSplits | employee_management.py:301 | a saved line without the delimiter in its values splits back into them |
| Persistence.LineRoundTrip | employee_management.py:258-266 | a saved line of a valid delimiter-free record reads back as that record |
| Persistence.LoadAllParsed | employee_management.py:259-275 | lines that each give a new record load as exactly those records, with no warning |
| Persistence.ValidUnbroken | employee_management.py:57-124 | a valid record's id, name, department, email and written salary hold no line break |
| Persistence.HeaderUnbroken | employee_management.py:297 | the header holds no line break when the delimiter is not one |
| Persistence.LineUnbroken | employee_management.py:299-302 | a valid record's line holds no line break when its contact details and the delimiter hold none |
| Persistence.SavedLines | employee_management.py:257-302 | then reading the saved file gives back exactly the lines written |
| Persistence.SaveLoadRoundTrip | employee_management.py:253-306 | saving valid records with distinct ids, no delimiter in any value and no line break in any contact details, under a delimiter that is not a line break, and loading again gives back the list with no warning |
| Persistence.LoadFromLength | employee_management.py:259-275 | the loader keeps at most one record per line |
| Persistence.DelimiterBreaksLine | employee_management.py:262-263 | a valid record with the delimiter in a value is written as a line that is skipped on reading |
| Persistence.SaveLoadLoses | employee_management.py:294-306 | with intact lines, if some record holds the delimiter, saving and loading again loses records |
| Persistence.LoadedUnbroken | employee_management.py:257-266 | whatever the file, a loaded record's contact details hold no line break |
| Persistence.BreakDelimiterLoadsNothing | employee_management.py:257-263 | with a line break as the delimiter no line splits into enough values, and nothing loads |
| Persistence.SaveLoadCutsLine | employee_management.py:257-302 | a record whose contact details hold a line break is not among the records loaded back |
| Persistence.SaveLoadExactly | employee_management.py:253-306 | saving and loading again gives back a list exactly when it is empty, or the delimiter is not a line break and no record holds the delimiter in a value or a line break in its contact details |
| Sorting.SortedCons | employee_management.py:578 | an element no greater than a sorted sequence can go in front of it |
| Sorting.Insert | employee_management.py:578 | inserting into a sorted sequence keeps it sorted and adds exactly the element |
| Sorting.SortBy | employee_management.py:578 | `sorted(s, key=...)` is sorted by the key and is a permutation of `s` |
| Reports.AddToGroup | employee_management.py:590-595 | after a turn of the loop the record ends the group of its key and no group disappears |
| Reports.AddToGroupWellKeyed | employee_management.py:593-595 | a turn of the loop keeps the keys listed once each and exactly those of the groups |
| Reports.GroupAllWellKeyed | employee_management.py:589-595 | the grouping lists each key once, in the order first met, and no other |
| Reports.GroupAllStep | employee_management.py:590-595 | the grouping of one more record is one more turn of the loop |
| Reports.AddToGroupInTwoSteps | employee_management.py:593-595 | opening an empty group and then appending equals one turn of the loop |
| Reports.AddToGroupDisplay | employee_management.py:592-594 | a turn keeps the display name of open groups, and a new group shows the record's display name |
| Reports.AddToGroupConsistent | employee_management.py:591-595 | a turn keeps every group non-empty and of its own key |
| Reports.GroupAllConsistent | employee_management.py:589-595 | every group is non-empty and holds only records of its key |
| Reports.GroupAllCovers | employee_management.py:590-595 | every record is in the group of its key |
| Reports.FirstOfKeyExtend | employee_management.py:593-594 | the first record of a key stays first when a record is appended |
| Reports.FirstOfKeyNew | employee_management.py:593-594 | an appended record with an unseen key is the first of its key |
| Reports.GroupOpener | employee_management.py:592-594 | each group is shown under the display name of the first record of its key |
| Reports.SumSizesOther | employee_management.py:620 | changing a group not listed leaves the sum of sizes alone |
| Reports.SumSizesGrow | employee_management.py:595 | growing a listed group by one record adds one to the sum |
| Reports.GroupSizesSum | employee_management.py:589-595 | the group sizes add up to the number of records |
| Reports.SumSizesAppend | employee_management.py:620 | the sum over two key lists is the sum of the sums |
| Reports.SumSizesRemove | employee_management.py:620 | taking a key out of the list takes its group's size off the sum |
| Reports.SumSizesPermutation | employee_management.py:602-620 | the sum does not depend on the order of the keys |
| Reports.RemoveAt | employee_management.py:602 | removing the element at `i` removes one copy of it |
| Reports.DistinctCard | employee_management.py:622 | a list of distinct keys is as long as their set |
| Reports.DistinctCount | employee_management.py:602 | a list of distinct keys holds each at most once |
| Reports.PermutationDistinct | employee_management.py:602 | the sorted keys are distinct, as the keys are |
| Reports.SectionsStep | employee_management.py:604-607 | the sections of one more key end with that key's section |
| Reports.SectionTotalStep | employee_management.py:620 | the running total grows by the size of the section added |
| Reports.SectionTotalSizes | employee_management.py:620 | the running total is the sum of the group sizes |
| Reports.ReportCounts | employee_management.py:620-623 | the report counts every record once, and one department per section |
| Reports.SectionAt | employee_management.py:604-607 | the section at position `i` is that of the `i`-th sorted key, a key of the grouping |
| Reports.ReportSorted | employee_management.py:602-612 | sections come in order of their names, and the records of each in order of name |
| Reports.ReportSection | employee_management.py:604-607 | each section is non-empty and holds records of one key |
| Reports.ReportSectionName | employee_management.py:592-606 | a section is named after the first record of its key in the list |
| Reports.ReportKeysDistinct | employee_management.py:602-604 | no two sections are for the same key |
| Reports.ReportCovers | employee_management.py:590-607 | every record appears in some section |
| Store.IndexOfId | employee_management.py:314-318 | the first position whose id matches, or -1 exactly when none does |
| Store.FirstTrue | employee_management.py:390-422 | a prompt loop stops at the first acceptable answer, or never |
| Store.FirstTrueAt | employee_management.py:390-422 | the first acceptable answer is the one after a run of unacceptable ones |
| Store.FirstTrueNone | employee_management.py:390-422 | with no acceptable answer the loop never stops |
| Store.TakenAccepted | employee_management.py:397-422 | the answer a field prompt takes passes its validator and is stripped |
| Store.TakenIdFresh | employee_management.py:390-396 | the id taken is valid, stripped and not yet in the store |
| Store.AdmissionCreates | employee_management.py:424-425 | the answers taken, the salary as a number, pass the constructor |
| Store.AdmissionValid | employee_management.py:388-427 | a record is admitted exactly when every prompt gets an acceptable answer. It is valid, has a new id and holds the answers taken |
| Store.TakenAt | employee_management.py:390-422 | where each prompt loop stops determines the answers taken |
| Store.AdmissionOf | employee_management.py:424-425 | the record admitted is the one the constructor makes of the answers taken |
| Store.Revised | employee_management.py:488-491 | a field after the update is the current value or the non-blank answer |
| Store.RevisedSalary | employee_management.py:499-504 | the salary after the update is the amount read from a non-blank answer, or the current one |
| Store.PlanUpdate | employee_management.py:481-519 | an update never changes the id |
| Store.Revise | employee_management.py:529-533 | the revised record keeps the id |
| Store.PlanUpdateOutcome | employee_management.py:487-519 | the update stops exactly when a non-blank answer is refused, and changes nothing exactly when every answer is blank |
| Store.PlanUpdateReason | employee_management.py:487-514 | the first refused answer, in prompt order, is the reason given |
| Store.PlanUpdateFields | employee_management.py:481-516 | each field takes its non-blank answer, stripped, and keeps its value for a blank one |
| Store.RevisedValid | employee_management.py:488-516 | a revised field is valid when the current value is and the answer is not refused |
| Store.PlanUpdateValid | employee_management.py:487-533 | an update leaves a valid record valid |
| Store.GroupByDepartment | employee_management.py:589-595 | the grouping loop computes the grouping by department key and display name |
| Store.Tabulate | employee_management.py:602-620 | the report loop yields the sections in sorted key order and the running total of their sizes |
| Store.EmployeeManagementSystem.constructor | employee_management.py:243-251 | the store holds what loading the file gives, valid and with distinct ids |
| Store.EmployeeManagementSystem.SaveEmployees | employee_management.py:294-306 | the file's text becomes the header and one line per record, each followed by `\n` |
| Store.EmployeeManagementSystem.FindEmployeeIndexById | employee_management.py:314-318 | the index found is the first position with the id, or -1 |
| Store.EmployeeManagementSystem.FindEmployeeById | employee_management.py:308-312 | a record is found exactly when some record has the id, and it is the one at the index found |
| Store.EmployeeManagementSystem.IsEmployeeIdUnique | employee_management.py:320-321 | an id is unique exactly when no record has it |
| Store.EmployeeManagementSystem.DoesDepartmentExist | employee_management.py:323-329 | true exactly when the name is non-empty and some non-empty department equals it once both are lower-cased, without stripping |
| Store.EmployeeManagementSystem.PromptId | employee_management.py:390-396 | the id prompt stops at the first answer that is a valid id not yet taken |
| Store.EmployeeManagementSystem.Prompt | employee_management.py:397-422 | a field prompt stops at the first answer its validator accepts |
| Store.EmployeeManagementSystem.AddEmployee | employee_management.py:388-434 | a record is added exactly when the dialogue admits one. It is appended at the end, the file is saved, and the store stays valid with distinct ids. Otherwise nothing changes |
| Store.EmployeeManagementSystem.Append | employee_management.py:425-427 | appends a valid record with a new id and saves |
| Store.EmployeeManagementSystem.UpdateEmployee | employee_management.py:458-539 | each ending happens exactly under the source's conditions: no records exactly when the store is empty, an invalid id, an id not found, and for a found id the plan decides: aborted with the first refused answer's reason, no changes, cancelled without confirmation, updated with it. Only an update changes the store: the found record is replaced by the planned one with the same id, and the file is saved |
| Store.EmployeeManagementSystem.Replace | employee_management.py:529-534 | replaces one record by a valid one with its id and saves |
| Store.EmployeeManagementSystem.DeleteEmployee | employee_management.py:541-569 | the store is reported empty exactly when it is; otherwise the id is refused, not found, or found. A record is deleted exactly when the store is non-empty, the id is valid and present, and the answer confirms. Exactly that record goes, the others stay in order, its id is gone, and the file is saved. Otherwise nothing changes |
| Store.EmployeeManagementSystem.Remove | employee_management.py:563-564 | removes the record at the index, exactly its id, and saves |
| Store.EmployeeManagementSystem.ListAllEmployees | employee_management.py:571-582 | the listing is empty exactly when the store is. Otherwise it is the records sorted by id, a permutation of them, with their count. The store is not changed |
| Store.EmployeeManagementSystem.GenerateDepartmentReport | employee_management.py:584-624 | the report is the department report of the records, with every record counted once and one department per section. The store is not changed |

## Left out

- Salary.ParseAmount: reads only optional whitespace, an optional sign and
  decimal digits with at most two after the point. Python's `float` also
  accepts exponents, underscores, `inf`, `nan` and more fractional digits,
  and rounds. `nan` and `inf` pass the salary validator in the source; they
  are outside the model.
- Salary.FormatAmount: renders exact cents. Rounding of `:.2f` and a
  negative zero are not modelled.
- Records.NewEmployee: the salary is given as text. `add_employee` passes a
  float, which the source validates as `str(salary)`. The model passes the
  amount written with two decimals, which reads back as the same amount.
- Reports.ReportBy: the per-department and overall salary totals are left
  out, because they are float sums. The column layout and upper-casing of
  the printed report are also left out.
- Text.IsSpace, Text.Lower, Text.IsAlnum: ASCII only. Unicode whitespace,
  letters, digits and case mappings are not modelled.
- Store.EmployeeManagementSystem.UpdateEmployee: the source assigns the
  fields of the record object in place. The model replaces the list element
  by a new record value. Nothing else refers to the object, so the effect on
  the list and the file is the same.
- Store.EmployeeManagementSystem.AddEmployee: input that ends at a prompt
  is modelled as that prompt's answers running out. The model runs all six
  prompts before checking. This cannot be observed, since each prompt's
  answers are separate.
- The `if not departments_data` branch of `generate_department_report` is
  left out, because it cannot be reached for a non-empty list.
- The contact check of `update_employee` is left out, because a non-blank
  stripped answer always passes it.
- `view_employee`, `run` and the menu, and `__str__` are left out, because
  they only read and print.
- `EmailSender` and `_send_confirmation_email` are left out, because they
  read credential files and use the network.
- Printed messages and warnings are left out, because they are output only.
  Load warnings are kept as data: the line number and the reason.
- File paths, `os.path` handling and I/O exceptions are left out. The data
  file is its text or absent. A save always succeeds.
- Exceptions other than the constructor's `ValueError` are left out.
- Sort stability is not proved. The insertion sort keeps equal keys in
  order, but only sortedness and permutation are stated.
- The delimiter is one character. The source's default is ",".
