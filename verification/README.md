# CSVList loader in Dafny

This project models `Main.loadPeopleFromCsv` of CSVList and the helpers it uses. The loader reads a `;`-separated file of people: `id;name;gender;birthDate;department;salary`. It turns each data line into a `Person` and gives every person a `Department`. Departments are shared by every row whose department name is the same once trimmed and lowercased. Ids are handed out 1, 2, 3, … in the order the departments are first met. The load is fail-fast: the first bad line aborts it, and nothing is returned.

Modules, one per concern of `Main.java`:

- `Wrappers` (`wrappers.dfy`): `Option` and `Result`.
- `Text` (`text.dfy`) covers the Java string operations the loader uses:
  - `String.trim`, which strips every character `<= U+0020`;
  - `toLowerCase(Locale.ROOT)`, over ASCII, Latin-1 and basic Cyrillic;
  - `contains`;
  - `normalizeDepartmentName` (Main.java:148-150), as `Normalize`: trim, then lowercase.
- `Errors` (`errors.dfy`): the `IllegalArgumentException`s the loader throws, as a datatype. Each one carries the same data as its message.
- `Genders` (`genders.dfy`): the `Gender` enum and `Gender.parse`.
- `Fields` (`fields.dfy`): `isInt`, `parseInt`, `parseDouble` and `parseBirthDate`.
  - `Integer.parseInt` is modelled exactly over ASCII, 32-bit range included.
  - `Double.parseDouble` and `LocalDate.parse` are library code. They enter as two function parameters (`Parsers`).
- `Csv` (`csv.dfy`): `splitCsvLine`.
  - `ScanFields` is a recursive reference definition.
  - `SplitCsvLine` is a loop method that mirrors the Java loop and is proved equal to the reference.
  - An encoder, `JoinCells`, is the tokenizer's round-trip partner.
- `Departments` (`departments.dfy`): the `departmentsByKey` map and the `nextDepartmentId` counter. Everything here is proved for any key function; the loader uses `normalizeDepartmentName`, which is `Text.Normalize`.
- `Loader` (`loader.dfy`): `looksLikeHeader`, the per-line body of the loop (`ClassifyLine`), and a reference definition of the whole load (`Expected`). It also holds `LoadPeopleFromCsv`, a loop method proved equal to `Expected`.

The file is given to the model as its sequence of lines. Line numbers are 1-based positions in that sequence, so blank lines count.

Every error the loader throws names its line, except one: `Gender.parse` throws `"Unknown gender: " + s` with no line number (Main.java:36). The model keeps this. `UnknownGender` carries no line, and the loader's error lemmas state "cites the line, or is the gender error".

## Model

| member | source | states |
|---|---|---|
| Csv.SplitCsvLine | Main.java:177-201 | The loop returns exactly the reference tokenizer's fields. There is one field more than there are `;` outside quotes. Every field is trimmed. |
| Csv.SplitEmpty | Main.java:199 | The empty line splits into one empty field, never into no fields. |
| Csv.SplitCount | Main.java:192-194 | The number of fields is 1 plus the number of separators met outside quotes. |
| Csv.SplitQuotes | Main.java:185-191 | The fields hold exactly as many `"` characters as the line has doubled quotes inside a quoted section. Every other quote only toggles quoting and is dropped. |
| Csv.SplitJoinCells | Main.java:177-201 | For any list of cells, encoded with `;` and quotes (a cell holding `;` or `"` is quoted, with `"` doubled), splitting gives back each cell's trimmed text. |
| Csv.SplitExample | Main.java:185-194 | A quoted `;` stays inside its field, and `""` inside quotes becomes one `"`. |
| Csv.UnclosedQuote | Main.java:185-199 | A quote that is never closed raises no error. Inside quotes, a rest of the line with no further `"` joins the current field whole, separators included, and that field is the last one. |
| Csv.UnclosedSecondField | Main.java:185-199 | On a line of one plain char, a `;`, and then a quote that is never closed, the second field is the whole rest of the line, trimmed, with its separators kept. |
| Csv.UnterminatedQuoteExample | Main.java:185-199 | On the line `x;"a;b`, the `;` after the unclosed quote stays in the field: the fields are `x` and `a;b`. |
| Genders.ParseGenderTokenMeaning | Main.java:30-38 | A non-null token parses to MALE exactly when its trimmed lowercase form is one of `m, male, man, м, муж, мужчина`. It parses to FEMALE exactly for `f, female, woman, ж, жен, женщина`. It fails exactly for everything else. |
| Genders.ParseGender | Main.java:30-38 | null gives an absent gender, not an error. A non-null token gives MALE or FEMALE as above. Every failure is "Unknown gender" naming the raw text. |
| Genders.ParseGenderToken | Main.java:36 | The only error is "Unknown gender" with the untrimmed argument. |
| Genders.GenderTableMatchesTokens | Main.java:34-35 | The two `case` lists are disjoint. Each token of the switch maps to the gender of its own list. |
| Genders.ParseGenderIgnoresCaseAndPadding | Main.java:32 | Surrounding blanks and letter case never change whether a token is accepted or which gender it gives. |
| Genders.GenderRejectsEmpty | Main.java:36 | The empty string is an unknown gender. |
| Genders.GenderAcceptsCyrillic | Main.java:32-34 | Upper-case Cyrillic `МУЖ` is lowercased before the lookup and read as MALE. |
| Genders.GenderAcceptsCapital | Main.java:32-34 | The capital Latin token `M` is lowercased before the lookup and read as MALE. |
| Fields.ParseInt32 | Main.java:154 | The text is accepted exactly when it is an optional `+` or `-` followed by at least one ASCII digit, with a signed value in the `int` range. The result is that signed value, so leading zeros and a `+` are allowed. |
| Fields.ParseShowRoundTrip | Main.java:154 | Every `int` written in decimal parses back to itself. |
| Fields.ParseLeadingZerosExample | Main.java:154 | `+007` is accepted and read as 7. |
| Fields.ParseIntField | Main.java:152-158 | `parseInt` succeeds exactly when `isInt` holds, and yields the parsed value of the trimmed text. Otherwise it throws "bad <field>", naming the line and the raw text. |
| Fields.IsInt | Main.java:131-139 | `isInt` holds exactly when the trimmed text is an optional sign followed by at least one ASCII digit, with a signed value in the `int` range. |
| Fields.ReplaceComma | Main.java:162 | Every `,` becomes `.` and every other character is kept in place, so the text handed to the number parser has the same length and no comma. |
| Fields.ParseDouble | Main.java:160-167 | The salary is the number parser's value for the trimmed text with `,` read as `.`. When that parser fails, the error is "bad <field>" naming the line and the raw text. |
| Fields.DecimalCommaIsPoint | Main.java:162 | Writing the decimal separator as `,` or as `.` gives the same result. |
| Fields.ParseBirthDate | Main.java:169-175 | The date is the date parser's value for the trimmed text. When that parser fails, the error is "bad birthDate" naming the line and the raw text. |
| Fields.FieldParsersIgnorePadding | Main.java:152-175 | Blanks around a value never change whether `parseInt`, `parseDouble` or `parseBirthDate` accepts it, nor the value it yields. |
| Text.Trim | Main.java:95 | The result starts and ends with a character above U+0020, or is empty. It is never longer than the input. |
| Text.TrimEmptyIffBlank | Main.java:95-96 | A trimmed line is empty exactly when every character of the raw line is `<= U+0020`. |
| Text.TrimFixesTrimmed | Main.java:95 | Trimming changes a string exactly when it has a blank at either end. |
| Text.TrimIgnoresPadding | Main.java:95 | Blanks added on either side of a string are removed by trimming. |
| Text.NormalizeIgnoresCaseAndPadding | Main.java:148-150 | The department key ignores surrounding blanks and letter case. Taking the key of a key changes nothing. |
| Text.LowerTrim | Main.java:149 | Lowercasing and trimming commute. |
| Text.Contains | Main.java:143-145 | `contains` holds exactly when the substring occurs at some position. |
| Text.Normalize | Main.java:148-150 | The department key has no blank at either end, is never longer than the raw name, and is already lowercase: lowercasing it again changes nothing. |
| Loader.HeaderIgnoresCase | Main.java:141-146 | Whether a line looks like a header does not depend on letter case. |
| Loader.HeaderExample | Main.java:141-146 | `ID;Name;Department` is recognised as a header. |
| Loader.LooksLikeHeader | Main.java:141-146 | A line is a header exactly when its lowercased text contains `id` or `ид`, `name` or `имя`, and `department` or `подраздел`, each at some position. |
| Loader.ParseRow | Main.java:109-115 | A line's columns parse exactly when id, gender, birth date and salary all parse. Name and department name are only trimmed. The error thrown is that of the first failing column, in the order id, gender, birth date, salary. Every error cites the line, except the gender error. |
| Loader.ParseRowMeaning | Main.java:109-115 | The same conditions and error order, stated directly in terms of `isInt`, the gender tokens, the date parser and the comma-replaced number. |
| Loader.ClassifyLine | Main.java:94-115 | Every error a line raises cites that line's number, except the gender error. |
| Loader.ClassifyLineCases | Main.java:94-107 | Blank lines are skipped wherever they stand. Two kinds of line are skipped only on line 1: a header, and a line of at least 6 fields whose first field is not an `int`. A non-blank, non-skipped line with fewer than 6 fields is rejected with its field count, before the id test runs. A data line gets exactly the row or error of its columns. |
| Loader.ClassifyLineIgnoresPadding | Main.java:95 | Blanks around a whole line change nothing. |
| Loader.OutcomeAt | Main.java:93-94 | Line k of the file is handled with line number k + 1. |
| Loader.LoadPeopleFromCsv | Main.java:81-129 | The loop, with its registry and its list of people, computes exactly the reference load `Expected`. |
| Loader.Expected | Main.java:81-129 | The load as a function of the file's lines: a successful load has at most one person per line. `LoadResult`, `RowsAreDataLines` and the `Loaded…` lemmas state the rest of its meaning. |
| Loader.StateStep | Main.java:93-125 | A skipped line changes neither the registry nor the people. A data line appends exactly one person, whose department is the one resolved for its department name. |
| Loader.LoadFailsAt | Main.java:101-115 | When line i is the first bad line, the load fails with line i's error, whatever follows. |
| Loader.LoadResult | Main.java:81-129 | The load succeeds exactly when no line is bad. Otherwise it fails with the first bad line's error. That error cites the line's number, counting blank lines, or is the gender error. |
| Loader.RowsAreDataLines | Main.java:93-124 | The rows are the parsed lines, one each, in file order. No parsed line is dropped. |
| Loader.LoadedPeopleAreDataLines | Main.java:124 | A successful load has one person per data line, in file order, each carrying that line's id, name, gender, birth date and salary. |
| Loader.LoadedSameDepartment | Main.java:117-122 | Two people share a department exactly when their department names have the same key. |
| Loader.LoadSameDepartment | Main.java:117-150 | The same for the loader's own key: same department exactly when the names agree after trimming and lowercasing. |
| Loader.LoadedFirstSeenDepartment | Main.java:117-122 | Each person's department is the one made at the first row with the same key. It is numbered one past the distinct keys met before that row and named by that row's raw name. |
| Loader.LoadedDepartmentIds | Main.java:83-122 | The department ids of a load are exactly 1..d, where d is the number of distinct department keys. |
| Departments.Resolve | Main.java:117-122 | The key ends up mapped to the returned department. Existing entries are untouched. The key set grows by exactly this key. A known key leaves the registry as it was. A new key gets `Department(nextDepartmentId, rawName)`. The registry invariant is kept. |
| Departments.ResolveAllSpec | Main.java:117-122 | After a column of names: the map's keys are the distinct keys seen. Each row got the department stored under its key, which is the department made at that key's first occurrence. |
| Departments.ValidIds | Main.java:83-122 | In a registry kept by the loader, the ids are exactly 1..n for n departments, and no two keys share an id. |
| Departments.ResolveAllIds | Main.java:83-122 | After a column of names, the registry's ids are exactly 1..d for the d distinct keys. |
| Departments.ResolveAllRowIds | Main.java:83-122 | The rows use exactly the ids 1..d, each of them at least once. |
| Departments.SameDepartmentIffSameKey | Main.java:117-122 | Two rows get the same department exactly when their names have the same key. |
| Departments.FirstSeenOrder | Main.java:120 | A key met for the first time earlier has a smaller id than one met later. |

## Left out

- File input: `BufferedReader`, UTF-8 decoding and `readLine` are not modelled. The loader takes the file's lines as a sequence of strings. The `IOException` path is out of scope.
- `Double.parseDouble` and `LocalDate.parse(_, "dd.MM.yyyy")` are library code. They are parameters of the model (`Parsers`), each returning `None` where the library throws. The model states what the loader does with their results, not which texts they accept.
- Fields.ParseDouble: yields a `real`, so a salary is always a finite exact number. Java loads `NaN`, `Infinity`, `-Infinity` and `-0.0` as salaries (Main.java:163). None of them has a `real` value, so the model can only reject such a row (`BadValue`) or map it to a finite value. IEEE-754 rounding and the texts `Double.parseDouble` accepts, such as the `d`/`f` suffixes, belong to the abstract parser.
- Fields.ParseInt32: models `Integer.parseInt` over ASCII digits only. Non-ASCII Unicode digits, which Java also accepts, are left out.
- Text.Lower: maps only the capitals of ASCII, Latin-1 (U+00C0..U+00DE) and basic Cyrillic (U+0400..U+042F). Every other char is left unchanged, although Java lowercases many of them: Latin Extended capitals such as `Ł` (U+0141) and `Ž` (U+017D), Cyrillic capitals outside that range such as `Ґ` (U+0490), and Greek. For the registry this means `ŁÓDŹ` and `łódź` are one department in Java (Main.java:149) and two in the model. The length-changing case `İ` (U+0130) is not modelled either.
- The `int` counters `lineNo` and `nextDepartmentId` are unbounded integers. A file of more than 2^31 lines or departments is out of scope.
- The `s == null` branches of `isInt` and `normalizeDepartmentName`: the loader never passes null to either. `Gender.parse(null)` is modelled, as `ParseGender(None)`.
- Exception messages are modelled by the data they carry (`LoadError`), not as formatted text.
- Csv.SplitCsvLine: the separator is fixed to `;` (`Csv.Sep`). `splitCsvLine` takes it as a parameter (Main.java:177), but its only call passes `SEP` (Main.java:100), so the loader behaves the same.
- `main`, the `toString` methods and the printed summary are output only.
