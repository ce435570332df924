/** `loadPeopleFromCsv` and `looksLikeHeader`: the line loop that trims each
    line, skips blank lines and (on line 1 only) a header, splits the rest on
    `;`, parses the six columns in the order id, gender, birth date, salary,
    and gives every row the department registered under its department key.
    The first bad line aborts the load with no partial result. */
module Loader {
  import opened Wrappers
  import opened Text
  import opened Errors
  import opened Genders
  import opened Fields
  import opened Csv
  import opened Departments

  /** `Main.Person`; the salary is the value `Double.parseDouble` returned,
      taken as a `real` (so always finite). */
  datatype Person = Person(id: int, name: string, gender: Gender, department: Department, salary: real, birthDate: Date)

  /** The columns of one data line once parsed, before its department is looked up. */
  datatype Row = Row(id: int, name: string, gender: Gender, birthDate: Date, depName: string, salary: real)

  /** What the loop body does with one line: `continue`, parse it, or throw. */
  datatype LineOutcome = Skip | Parsed(row: Row) | Bad(error: LoadError)

  /** `looksLikeHeader`: the lowercased line mentions an id, a name and a
      department column, in English or in Russian. */
  predicate LooksLikeHeader(line: string)
    ensures LooksLikeHeader(line) <==>
      var l := Lower(line);
      && ((exists i :: OccursAt(l, "id", i)) || (exists i :: OccursAt(l, "\U{0438}\U{0434}", i)))
      && ((exists i :: OccursAt(l, "name", i)) || (exists i :: OccursAt(l, "\U{0438}\U{043C}\U{044F}", i)))
      && ((exists i :: OccursAt(l, "department", i)) ||
          (exists i :: OccursAt(l, "\U{043F}\U{043E}\U{0434}\U{0440}\U{0430}\U{0437}\U{0434}\U{0435}\U{043B}", i)))
  {
    var l := Lower(line);
    && (Contains(l, "id") || Contains(l, "\U{0438}\U{0434}"))
    && (Contains(l, "name") || Contains(l, "\U{0438}\U{043C}\U{044F}"))
    && (Contains(l, "department") || Contains(l, "\U{043F}\U{043E}\U{0434}\U{0440}\U{0430}\U{0437}\U{0434}\U{0435}\U{043B}"))
  }

  /** Whether a line is a header never depends on letter case. */
  lemma HeaderIgnoresCase(line: string)
    ensures LooksLikeHeader(Lower(line)) == LooksLikeHeader(line)
  {
    LowerIdempotent(line);
  }

  /** A header naming the id, name and department columns is recognised
      whatever its letter case. */
  lemma HeaderExample()
    ensures LooksLikeHeader("ID;Name;Department")
  {
    var l := "id;name;department";
    LowerHeaderExample();
    assert OccursAt(l, "id", 0);
    assert OccursAt(l, "name", 3);
    assert OccursAt(l, "department", 8);
  }

  lemma LowerHeaderExample()
    ensures Lower("ID;Name;Department") == "id;name;department"
  {
    var l := Lower("ID;Name;Department");
    forall k | 0 <= k < |l| ensures l[k] == "id;name;department"[k] {
    }
  }

  /** The six columns of a data line, parsed in the order of the loop body:
      id, then gender, then birth date, then salary; the first failure is the
      error thrown. Name and department name are only trimmed. */
  function ParseRow(p: Parsers, lineNo: int, cols: seq<string>): (r: Result<Row, LoadError>)
    requires |cols| >= 6
    ensures r.Success? <==>
      && ParseIntField(cols[0], "id", lineNo).Success?
      && ParseGenderToken(cols[2]).Success?
      && ParseBirthDate(p, cols[3], lineNo).Success?
      && ParseDouble(p, cols[5], "salary", lineNo).Success?
    ensures r.Success? ==>
      && r.value.id == ParseIntField(cols[0], "id", lineNo).value
      && r.value.name == Trim(cols[1])
      && r.value.gender == ParseGenderToken(cols[2]).value
      && r.value.birthDate == ParseBirthDate(p, cols[3], lineNo).value
      && r.value.depName == Trim(cols[4])
      && r.value.salary == ParseDouble(p, cols[5], "salary", lineNo).value
    ensures r.Failure? ==>
      if ParseIntField(cols[0], "id", lineNo).Failure? then r.error == BadValue(lineNo, "id", cols[0])
      else if ParseGenderToken(cols[2]).Failure? then r.error == UnknownGender(cols[2])
      else if ParseBirthDate(p, cols[3], lineNo).Failure? then r.error == BadBirthDate(lineNo, cols[3])
      else r.error == BadValue(lineNo, "salary", cols[5])
    ensures r.Failure? ==> r.error.LineNo() == Some(lineNo) || r.error.UnknownGender?
  {
    var id :- ParseIntField(cols[0], "id", lineNo);
    var gender :- ParseGenderToken(cols[2]);
    var birthDate :- ParseBirthDate(p, cols[3], lineNo);
    var salary :- ParseDouble(p, cols[5], "salary", lineNo);
    Success(Row(id, Trim(cols[1]), gender, birthDate, Trim(cols[4]), salary))
  }

  /** What a data line must hold to parse, in the terms of the columns
      themselves: an `int` id, one of the gender tokens, a date and a number
      (with `,` read as the decimal point); and which error a bad one gets. */
  lemma ParseRowMeaning(p: Parsers, lineNo: int, cols: seq<string>)
    requires |cols| >= 6
    ensures ParseRow(p, lineNo, cols).Success? <==>
      && IsInt(cols[0])
      && Normalize(cols[2]) in MaleTokens + FemaleTokens
      && p.date(Trim(cols[3])).Some?
      && p.number(ReplaceComma(Trim(cols[5]))).Some?
    ensures ParseRow(p, lineNo, cols).Success? ==>
      && Some(ParseRow(p, lineNo, cols).value.id) == ParseInt32(Trim(cols[0]))
      && (ParseRow(p, lineNo, cols).value.gender == Male <==> Normalize(cols[2]) in MaleTokens)
      && p.date(Trim(cols[3])) == Some(ParseRow(p, lineNo, cols).value.birthDate)
      && p.number(ReplaceComma(Trim(cols[5]))) == Some(ParseRow(p, lineNo, cols).value.salary)
    ensures ParseRow(p, lineNo, cols).Failure? ==>
      var e := ParseRow(p, lineNo, cols).error;
      if !IsInt(cols[0]) then e == BadValue(lineNo, "id", cols[0])
      else if Normalize(cols[2]) !in MaleTokens + FemaleTokens then e == UnknownGender(cols[2])
      else if p.date(Trim(cols[3])).None? then e == BadBirthDate(lineNo, cols[3])
      else e == BadValue(lineNo, "salary", cols[5])
  {
    ParseGenderTokenMeaning(cols[2]);
  }

  /** The loop body for the line numbered `lineNo` (counting from 1, blank
      lines included), up to the department lookup. Every error it throws
      cites `lineNo`, except the gender error, which cites no line. */
  function ClassifyLine(p: Parsers, lineNo: int, raw: string): (r: LineOutcome)
    ensures r.Bad? ==> r.error.LineNo() == Some(lineNo) || r.error.UnknownGender?
  {
    var line := Trim(raw);
    if line == [] then Skip
    else if lineNo == 1 && LooksLikeHeader(line) then Skip
    else
      var cols := Split(line);
      if |cols| < 6 then Bad(ColumnCount(lineNo, |cols|, line))
      else if lineNo == 1 && !IsInt(cols[0]) then Skip
      else
        match ParseRow(p, lineNo, cols)
        case Success(row) => Parsed(row)
        case Failure(e) => Bad(e)
  }

  /** Which lines the loop body skips, rejects or parses. Blank lines are
      skipped wherever they stand; a header, and a first line whose id column
      is not an `int`, are skipped on line 1 only. The column count is
      checked before that id test, and a data line gets the row `ParseRow`
      makes of its columns or the error it throws. */
  lemma ClassifyLineCases(p: Parsers, lineNo: int, raw: string)
    ensures lineNo != 1 ==> (ClassifyLine(p, lineNo, raw).Skip? <==> IsBlank(raw))
    ensures lineNo == 1 ==> (ClassifyLine(p, lineNo, raw).Skip? <==>
      IsBlank(raw) || LooksLikeHeader(Trim(raw)) || (|Split(Trim(raw))| >= 6 && !IsInt(Split(Trim(raw))[0])))
    ensures !IsBlank(raw) && !(lineNo == 1 && LooksLikeHeader(Trim(raw))) && |Split(Trim(raw))| < 6 ==>
      ClassifyLine(p, lineNo, raw) == Bad(ColumnCount(lineNo, |Split(Trim(raw))|, Trim(raw)))
    ensures ClassifyLine(p, lineNo, raw).Parsed? ==>
      |Split(Trim(raw))| >= 6 && ParseRow(p, lineNo, Split(Trim(raw))) == Success(ClassifyLine(p, lineNo, raw).row)
    ensures ClassifyLine(p, lineNo, raw).Bad? && |Split(Trim(raw))| >= 6 ==>
      ParseRow(p, lineNo, Split(Trim(raw))) == Failure(ClassifyLine(p, lineNo, raw).error)
  {
    TrimEmptyIffBlank(raw);
  }

  /** The whole line is trimmed first, so blanks around it change nothing. */
  lemma ClassifyLineIgnoresPadding(p: Parsers, lineNo: int, left: string, raw: string, right: string)
    requires IsBlank(left) && IsBlank(right)
    ensures ClassifyLine(p, lineNo, left + raw + right) == ClassifyLine(p, lineNo, raw)
  {
    TrimIgnoresPadding(left, raw, right);
  }

  /** The outcome of every line, in file order; the line at index `k` is
      line number `k + 1`. */
  function Outcomes(p: Parsers, lines: seq<string>): (outs: seq<LineOutcome>)
    ensures |outs| == |lines|
  {
    if lines == [] then []
    else Outcomes(p, lines[..|lines| - 1]) + [ClassifyLine(p, |lines|, lines[|lines| - 1])]
  }

  lemma {:induction false} OutcomeAt(p: Parsers, lines: seq<string>, k: int)
    requires 0 <= k < |lines|
    ensures Outcomes(p, lines)[k] == ClassifyLine(p, k + 1, lines[k])
    decreases |lines|
  {
    var prefix := lines[..|lines| - 1];
    if k < |lines| - 1 {
      OutcomeAt(p, prefix, k);
      assert prefix[k] == lines[k];
    }
  }

  /** The first outcome, from `k` on, that is an error. */
  function FirstBadFrom(outs: seq<LineOutcome>, k: nat): (r: Option<nat>)
    requires k <= |outs|
    ensures r.Some? ==> k <= r.value < |outs| && outs[r.value].Bad?
    ensures r.Some? ==> forall j :: k <= j < r.value ==> !outs[j].Bad?
    ensures r.None? ==> forall j :: k <= j < |outs| ==> !outs[j].Bad?
    decreases |outs| - k
  {
    if k == |outs| then None
    else if outs[k].Bad? then Some(k)
    else FirstBadFrom(outs, k + 1)
  }

  function FirstBad(outs: seq<LineOutcome>): Option<nat> {
    FirstBadFrom(outs, 0)
  }

  /** The parsed rows among the outcomes, in order. */
  function Rows(outs: seq<LineOutcome>): (rows: seq<Row>)
    ensures |rows| <= |outs|
  {
    if outs == [] then []
    else
      var prev := Rows(outs[..|outs| - 1]);
      match outs[|outs| - 1]
      case Parsed(row) => prev + [row]
      case _ => prev
  }

  function DepNames(rows: seq<Row>): (names: seq<string>)
    ensures |names| == |rows|
    ensures forall j :: 0 <= j < |rows| ==> names[j] == rows[j].depName
  {
    seq(|rows|, j requires 0 <= j < |rows| => rows[j].depName)
  }

  /** The `new Person(...)` of a row that got department `dep`. */
  function MakePerson(row: Row, dep: Department): Person {
    Person(row.id, row.name, row.gender, dep, row.salary, row.birthDate)
  }

  /** Rows paired with the departments they got, in order. */
  function People(rows: seq<Row>, ds: seq<Department>): (people: seq<Person>)
    requires |ds| == |rows|
    ensures |people| == |rows|
    ensures forall j :: 0 <= j < |rows| ==> people[j] == MakePerson(rows[j], ds[j])
  {
    seq(|rows|, j requires 0 <= j < |rows| => MakePerson(rows[j], ds[j]))
  }

  /** The people of a sequence of rows: each row with the department the
      registry gives its department name under `key`, rows taken in order.
      The loader's key is `normalizeDepartmentName`; the results below hold
      for every key. */
  function Assemble(key: string -> string, rows: seq<Row>): (people: seq<Person>)
    ensures |people| == |rows|
  {
    var names := DepNames(rows);
    var ds := ResolveAll(key, names).1;
    assert |ds| == |rows|;
    People(rows, ds)
  }

  /** What a load with these line outcomes yields: the error of the first bad
      line, or else one person per data line. */
  function LoadOutcomes(key: string -> string, outs: seq<LineOutcome>): (r: Result<seq<Person>, LoadError>)
    ensures r.Success? <==> forall k :: 0 <= k < |outs| ==> !outs[k].Bad?
    ensures r.Failure? ==> exists k :: 0 <= k < |outs| && outs[k] == Bad(r.error) &&
                                     forall j :: 0 <= j < k ==> !outs[j].Bad?
    ensures r.Success? ==> |r.value| == |Rows(outs)|
  {
    match FirstBad(outs)
    case Some(k) => Failure(outs[k].error)
    case None => Success(Assemble(key, Rows(outs)))
  }

  /** What loading the lines of a file yields: at most one person per line. */
  function Expected(p: Parsers, lines: seq<string>): (r: Result<seq<Person>, LoadError>)
    ensures r.Success? ==> |r.value| <= |lines|
  {
    LoadOutcomes(Normalize, Outcomes(p, lines))
  }

  /** One more row resolves its department against the registry left by the
      rows before it. */
  lemma AssembleStep(key: string -> string, rows: seq<Row>, row: Row)
    ensures ResolveAll(key, DepNames(rows + [row])).0 ==
      Resolve(key, ResolveAll(key, DepNames(rows)).0, row.depName).0
    ensures Assemble(key, rows + [row]) ==
      Assemble(key, rows) + [MakePerson(row, Resolve(key, ResolveAll(key, DepNames(rows)).0, row.depName).1)]
  {
    assert DepNames(rows + [row]) == DepNames(rows) + [row.depName];
    ResolveAllAppend(key, DepNames(rows), row.depName);
    var prev := ResolveAll(key, DepNames(rows));
    PeopleAppend(rows, prev.1, row, Resolve(key, prev.0, row.depName).1);
  }

  lemma PeopleAppend(rows: seq<Row>, ds: seq<Department>, row: Row, d: Department)
    requires |ds| == |rows|
    ensures People(rows + [row], ds + [d]) == People(rows, ds) + [MakePerson(row, d)]
  {
  }

  /** The registry and the people after a sequence of outcomes with no error. */
  function State(key: string -> string, outs: seq<LineOutcome>): (Registry, seq<Person>) {
    var rows := Rows(outs);
    (ResolveAll(key, DepNames(rows)).0, Assemble(key, rows))
  }

  /** An outcome leaves the state alone unless it parsed, in which case its
      row resolves its department and adds its person. */
  lemma StateStep(key: string -> string, outs: seq<LineOutcome>, o: LineOutcome)
    ensures !o.Parsed? ==> State(key, outs + [o]) == State(key, outs)
    ensures o.Parsed? ==>
      var res := Resolve(key, State(key, outs).0, o.row.depName);
      State(key, outs + [o]) == (res.0, State(key, outs).1 + [MakePerson(o.row, res.1)])
  {
    assert (outs + [o])[..|outs|] == outs;
    if o.Parsed? {
      AssembleStep(key, Rows(outs), o.row);
    }
  }

  /** The outcomes of one more line extend those of the lines before it. */
  lemma OutcomesStep(p: Parsers, lines: seq<string>, i: int)
    requires 0 <= i < |lines|
    ensures Outcomes(p, lines[..i + 1]) == Outcomes(p, lines[..i]) + [ClassifyLine(p, i + 1, lines[i])]
  {
    assert lines[..i + 1][..i] == lines[..i];
    assert lines[..i + 1][i] == lines[i];
  }

  /** The outcomes of the first `i` lines are the first `i` outcomes. */
  lemma {:induction false} OutcomesPrefix(p: Parsers, lines: seq<string>, i: int)
    requires 0 <= i <= |lines|
    ensures Outcomes(p, lines[..i]) == Outcomes(p, lines)[..i]
    decreases |lines|
  {
    if i < |lines| {
      var prefix := lines[..|lines| - 1];
      assert lines[..i] == prefix[..i];
      OutcomesPrefix(p, prefix, i);
    } else {
      assert lines[..i] == lines;
    }
  }

  /** A load whose line `i + 1` is the first bad one fails with its error. */
  lemma LoadFailsAt(p: Parsers, lines: seq<string>, i: int)
    requires 0 <= i < |lines|
    requires forall j :: 0 <= j < i ==> !Outcomes(p, lines[..i])[j].Bad?
    requires ClassifyLine(p, i + 1, lines[i]).Bad?
    ensures Expected(p, lines) == Failure(ClassifyLine(p, i + 1, lines[i]).error)
  {
    var all := Outcomes(p, lines);
    OutcomesPrefix(p, lines, i);
    OutcomeAt(p, lines, i);
    forall j | 0 <= j < i ensures !all[j].Bad? {
      assert all[j] == Outcomes(p, lines[..i])[j];
    }
    FirstBadIs(all, i);
  }

  /** An error with none before it is the first error. */
  lemma FirstBadIs(outs: seq<LineOutcome>, i: nat)
    requires i < |outs| && outs[i].Bad?
    requires forall j :: 0 <= j < i ==> !outs[j].Bad?
    ensures FirstBad(outs) == Some(i)
  {
  }

  /** `loadPeopleFromCsv` over the lines of the file, written as the Java
      loop: `lineNo` counts every line, the registry and the list of people
      grow as data lines are met, and the first bad line throws. */
  method LoadPeopleFromCsv(p: Parsers, lines: seq<string>) returns (r: Result<seq<Person>, LoadError>)
    ensures r == Expected(p, lines)
  {
    var reg := EmptyRegistry;
    var people: seq<Person> := [];
    ghost var seen: seq<LineOutcome> := [];
    var i := 0;
    while i < |lines|
      invariant 0 <= i <= |lines|
      invariant seen == Outcomes(p, lines[..i])
      invariant forall j :: 0 <= j < i ==> !seen[j].Bad?
      invariant (reg, people) == State(Normalize, seen)
      decreases |lines| - i
    {
      var lineNo := i + 1;
      var outcome := ClassifyLine(p, lineNo, lines[i]);
      match outcome {
        case Skip =>
        case Bad(e) =>
          LoadFailsAt(p, lines, i);
          return Failure(e);
        case Parsed(row) =>
          var depKey := Normalize(row.depName);
          var dep;
          if depKey in reg.byKey {
            dep := reg.byKey[depKey];
          } else {
            dep := Department(reg.nextId, row.depName);
            reg := Registry(reg.byKey[depKey := dep], reg.order + [depKey], reg.nextId + 1);
          }
          people := people + [MakePerson(row, dep)];
      }
      StateStep(Normalize, seen, outcome);
      OutcomesStep(p, lines, i);
      seen := seen + [outcome];
      i := i + 1;
    }
    assert lines[..i] == lines;
    return Success(people);
  }

  /** The load succeeds exactly when no line is bad; otherwise it fails with
      the error of the first bad line, and that error cites the line's
      physical number (blank and skipped lines count) unless it is the
      gender error, which cites none. */
  lemma LoadResult(p: Parsers, lines: seq<string>)
    ensures Expected(p, lines).Success? <==>
      forall k :: 0 <= k < |lines| ==> !ClassifyLine(p, k + 1, lines[k]).Bad?
    ensures Expected(p, lines).Failure? ==> exists k :: (
      && 0 <= k < |lines|
      && ClassifyLine(p, k + 1, lines[k]) == Bad(Expected(p, lines).error)
      && (forall j :: 0 <= j < k ==> !ClassifyLine(p, j + 1, lines[j]).Bad?)
      && (Expected(p, lines).error.LineNo() == Some(k + 1) || Expected(p, lines).error.UnknownGender?))
  {
    var outs := Outcomes(p, lines);
    forall k | 0 <= k < |lines| ensures outs[k] == ClassifyLine(p, k + 1, lines[k]) {
      OutcomeAt(p, lines, k);
    }
  }

  /** The indices of the outcomes that parsed, in increasing order. */
  function DataLines(outs: seq<LineOutcome>): (ks: seq<nat>)
    ensures |ks| <= |outs|
    ensures forall j :: 0 <= j < |ks| ==> ks[j] < |outs|
  {
    if outs == [] then []
    else
      var prev := DataLines(outs[..|outs| - 1]);
      if outs[|outs| - 1].Parsed? then prev + [|outs| - 1] else prev
  }

  /** The rows are those of the data lines, one per data line, in file order. */
  lemma {:induction false} RowsAreDataLines(outs: seq<LineOutcome>)
    ensures |Rows(outs)| == |DataLines(outs)|
    ensures forall j, l :: 0 <= j < l < |DataLines(outs)| ==> DataLines(outs)[j] < DataLines(outs)[l]
    ensures forall j :: 0 <= j < |DataLines(outs)| ==>
      outs[DataLines(outs)[j]].Parsed? && Rows(outs)[j] == outs[DataLines(outs)[j]].row
    ensures forall k :: 0 <= k < |outs| && outs[k].Parsed? ==> k in DataLines(outs)
  {
    RowsAtDataLines(outs);
    DataLinesIncreasing(outs);
    DataLinesComplete(outs);
  }

  lemma {:induction false} RowsAtDataLines(outs: seq<LineOutcome>)
    ensures |Rows(outs)| == |DataLines(outs)|
    ensures forall j :: 0 <= j < |DataLines(outs)| ==>
      outs[DataLines(outs)[j]].Parsed? && Rows(outs)[j] == outs[DataLines(outs)[j]].row
    decreases |outs|
  {
    if outs != [] {
      var prefix := outs[..|outs| - 1];
      RowsAtDataLines(prefix);
      var ks, rows := DataLines(prefix), Rows(prefix);
      forall j | 0 <= j < |ks| ensures prefix[ks[j]] == outs[ks[j]] {
      }
    }
  }

  lemma {:induction false} DataLinesIncreasing(outs: seq<LineOutcome>)
    ensures forall j, l :: 0 <= j < l < |DataLines(outs)| ==> DataLines(outs)[j] < DataLines(outs)[l]
    decreases |outs|
  {
    if outs != [] {
      DataLinesIncreasing(outs[..|outs| - 1]);
    }
  }

  lemma {:induction false} DataLinesComplete(outs: seq<LineOutcome>)
    ensures forall k :: 0 <= k < |outs| && outs[k].Parsed? ==> k in DataLines(outs)
    decreases |outs|
  {
    if outs != [] {
      var prefix := outs[..|outs| - 1];
      DataLinesComplete(prefix);
      forall k | 0 <= k < |prefix| ensures prefix[k] == outs[k] {
      }
    }
  }

  /** A successful load holds one person per data line, in file order, each
      carrying the id, name, gender, birth date and salary of its line. */
  lemma {:induction false} LoadedPeopleAreDataLines(key: string -> string, outs: seq<LineOutcome>)
    requires LoadOutcomes(key, outs).Success?
    ensures |LoadOutcomes(key, outs).value| == |DataLines(outs)|
    ensures forall j :: 0 <= j < |DataLines(outs)| ==>
      outs[DataLines(outs)[j]].Parsed? &&
      LoadOutcomes(key, outs).value[j] == MakePerson(outs[DataLines(outs)[j]].row, LoadOutcomes(key, outs).value[j].department)
  {
    RowsAtDataLines(outs);
  }

  /** Two loaded people share a department exactly when their department
      names have the same key. */
  lemma LoadedSameDepartment(key: string -> string, outs: seq<LineOutcome>, j: int, l: int)
    requires LoadOutcomes(key, outs).Success?
    requires 0 <= j < |Rows(outs)| && 0 <= l < |Rows(outs)|
    ensures LoadOutcomes(key, outs).value[j].department == LoadOutcomes(key, outs).value[l].department <==>
      key(Rows(outs)[j].depName) == key(Rows(outs)[l].depName)
  {
    SameDepartmentIffSameKey(key, DepNames(Rows(outs)), j, l);
  }

  /** Every loaded person's department is the one made at the first row with
      the same department key: numbered one past the distinct keys met before
      that row, and named by that row's raw department name. */
  lemma LoadedFirstSeenDepartment(key: string -> string, outs: seq<LineOutcome>, j: int)
    requires LoadOutcomes(key, outs).Success?
    requires 0 <= j < |Rows(outs)|
    ensures LoadOutcomes(key, outs).value[j].department == FirstSeenDepartment(key, DepNames(Rows(outs)), j)
  {
    ResolveAllSpec(key, DepNames(Rows(outs)));
  }

  /** The department ids of the loaded people. */
  function DepartmentIds(people: seq<Person>): set<int> {
    set j | 0 <= j < |people| :: people[j].department.id
  }

  /** The department ids of a load are exactly 1..d, for the d distinct
      department keys among its rows. */
  lemma LoadedDepartmentIds(key: string -> string, outs: seq<LineOutcome>)
    requires LoadOutcomes(key, outs).Success?
    ensures forall n :: n in DepartmentIds(LoadOutcomes(key, outs).value) <==>
      1 <= n <= |KeySet(key, DepNames(Rows(outs)))|
  {
    var names := DepNames(Rows(outs));
    var ds := ResolveAll(key, names).1;
    var people := LoadOutcomes(key, outs).value;
    ResolveAllRowIds(key, names);
    assert forall j :: 0 <= j < |people| ==> people[j].department == ds[j];
    assert DepartmentIds(people) == RowIds(ds) by {
      forall n | n in RowIds(ds) ensures n in DepartmentIds(people) {
        var j :| 0 <= j < |ds| && ds[j].id == n;
        assert people[j].department.id == n;
      }
    }
  }

  /** For the loader itself: two people of a successful load share a
      department exactly when their department names agree after trimming
      and lowercasing. */
  lemma LoadSameDepartment(p: Parsers, lines: seq<string>, j: int, l: int)
    requires Expected(p, lines).Success?
    requires 0 <= j < |Expected(p, lines).value| && 0 <= l < |Expected(p, lines).value|
    ensures Expected(p, lines).value[j].department == Expected(p, lines).value[l].department <==>
      Normalize(Rows(Outcomes(p, lines))[j].depName) == Normalize(Rows(Outcomes(p, lines))[l].depName)
  {
    LoadedSameDepartment(Normalize, Outcomes(p, lines), j, l);
  }
}
