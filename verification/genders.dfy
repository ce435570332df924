/** `Main.Gender` and its `parse` method: a fixed token table, looked up after
    trimming and lowercasing, in English and Russian. */
module Genders {
  import opened Wrappers
  import opened Text
  import opened Errors

  datatype Gender = Male | Female

  /** The tokens each gender is recognised by, as sets: the reference the
      lookup table below is checked against. */
  const MaleTokens: set<string> := {"m", "male", "man", "\U{043C}", "\U{043C}\U{0443}\U{0436}",
    "\U{043C}\U{0443}\U{0436}\U{0447}\U{0438}\U{043D}\U{0430}"}
  const FemaleTokens: set<string> := {"f", "female", "woman", "\U{0436}", "\U{0436}\U{0435}\U{043D}",
    "\U{0436}\U{0435}\U{043D}\U{0449}\U{0438}\U{043D}\U{0430}"}

  /** The `switch` of `Gender.parse` as data: token to gender, in case order. */
  const GenderTable: seq<(string, Gender)> := [
    ("m", Male), ("male", Male), ("man", Male),
    ("\U{043C}", Male), ("\U{043C}\U{0443}\U{0436}", Male),
    ("\U{043C}\U{0443}\U{0436}\U{0447}\U{0438}\U{043D}\U{0430}", Male),
    ("f", Female), ("female", Female), ("woman", Female),
    ("\U{0436}", Female), ("\U{0436}\U{0435}\U{043D}", Female),
    ("\U{0436}\U{0435}\U{043D}\U{0449}\U{0438}\U{043D}\U{0430}", Female)
  ]

  /** The first entry of `table` whose token is `v`, if any. */
  function Lookup(table: seq<(string, Gender)>, v: string): (r: Option<Gender>)
    ensures r.None? <==> forall i :: 0 <= i < |table| ==> table[i].0 != v
    ensures r.Some? ==> exists i :: 0 <= i < |table| && table[i] == (v, r.value)
  {
    if table == [] then None
    else if table[0].0 == v then Some(table[0].1)
    else
      var r := Lookup(table[1..], v);
      assert forall i :: 1 <= i < |table| ==> table[i] == table[1..][i - 1];
      r
  }

  /** The table lists exactly the tokens of the two sets, each with its gender. */
  lemma GenderTableMatchesTokens()
    ensures MaleTokens !! FemaleTokens
    ensures forall i :: 0 <= i < |GenderTable| ==>
      GenderTable[i].0 in MaleTokens + FemaleTokens &&
      (GenderTable[i].0 in MaleTokens <==> GenderTable[i].1 == Male)
    ensures forall t :: t in MaleTokens ==> (t, Male) in GenderTable
    ensures forall t :: t in FemaleTokens ==> (t, Female) in GenderTable
  {
    TokenSetsDisjoint();
    TableEntriesInSets();
    MaleTokensInTable();
    FemaleTokensInTable();
  }

  lemma TokenSetsDisjoint()
    ensures MaleTokens !! FemaleTokens
  {
  }

  lemma TableEntriesInSets()
    ensures forall i :: 0 <= i < |GenderTable| ==>
      GenderTable[i].0 in MaleTokens + FemaleTokens &&
      (GenderTable[i].0 in MaleTokens <==> GenderTable[i].1 == Male)
  {
    forall i | 0 <= i < |GenderTable|
      ensures GenderTable[i].0 in MaleTokens + FemaleTokens
      ensures GenderTable[i].0 in MaleTokens <==> GenderTable[i].1 == Male
    {
      if i < 6 {
        assert GenderTable[i].1 == Male;
      } else {
        assert GenderTable[i].1 == Female;
      }
    }
  }

  lemma MaleTokensInTable()
    ensures forall t :: t in MaleTokens ==> (t, Male) in GenderTable
  {
  }

  lemma FemaleTokensInTable()
    ensures forall t :: t in FemaleTokens ==> (t, Female) in GenderTable
  {
  }

  /** Looking up a table that lists exactly two disjoint token sets, each
      with its own gender, decides membership in those sets. */
  lemma {:induction false} LookupDecidesTokens(table: seq<(string, Gender)>, males: set<string>, females: set<string>, v: string)
    requires males !! females
    requires forall i :: 0 <= i < |table| ==>
      table[i].0 in males + females && (table[i].0 in males <==> table[i].1 == Male)
    requires forall t :: t in males ==> (t, Male) in table
    requires forall t :: t in females ==> (t, Female) in table
    ensures Lookup(table, v) == Some(Male) <==> v in males
    ensures Lookup(table, v) == Some(Female) <==> v in females
    ensures Lookup(table, v) == None <==> v !in males + females
  {
    var r := Lookup(table, v);
    if r.Some? {
      var i :| 0 <= i < |table| && table[i] == (v, r.value);
      assert v in males + females;
    }
  }

  lemma LookupMatchesTokens(v: string)
    ensures Lookup(GenderTable, v) == Some(Male) <==> v in MaleTokens
    ensures Lookup(GenderTable, v) == Some(Female) <==> v in FemaleTokens
    ensures Lookup(GenderTable, v) == None <==> v !in MaleTokens + FemaleTokens
  {
    GenderTableMatchesTokens();
    LookupDecidesTokens(GenderTable, MaleTokens, FemaleTokens, v);
  }

  /** `Gender.parse` on a non-null string: the table entry of the trimmed,
      lowercased token, or the "Unknown gender" error naming the raw text. */
  function ParseGenderToken(s: string): (r: Result<Gender, LoadError>)
    ensures r.Failure? ==> r.error == UnknownGender(s)
  {
    match Lookup(GenderTable, Normalize(s))
    case Some(g) => Success(g)
    case None => Failure(UnknownGender(s))
  }

  /** What `Gender.parse` accepts: exactly the twelve tokens, after trimming
      and lowercasing, each read as its own gender. */
  lemma ParseGenderTokenMeaning(s: string)
    ensures ParseGenderToken(s) == Success(Male) <==> Normalize(s) in MaleTokens
    ensures ParseGenderToken(s) == Success(Female) <==> Normalize(s) in FemaleTokens
    ensures ParseGenderToken(s).Failure? <==> Normalize(s) !in MaleTokens + FemaleTokens
  {
    LookupMatchesTokens(Normalize(s));
  }

  /** `Gender.parse`, whose argument may be null: null gives null, not an error. */
  function ParseGender(s: Option<string>): (r: Result<Option<Gender>, LoadError>)
    ensures s.None? ==> r == Success(None)
    ensures s.Some? && r.Success? ==> r.value.Some?
    ensures s.Some? ==> (r == Success(Some(Male)) <==> Normalize(s.value) in MaleTokens)
    ensures s.Some? ==> (r == Success(Some(Female)) <==> Normalize(s.value) in FemaleTokens)
    ensures s.Some? && r.Failure? ==> r.error == UnknownGender(s.value)
  {
    match s
    case None => Success(None)
    case Some(t) =>
      ParseGenderTokenMeaning(t);
      match ParseGenderToken(t)
      case Success(g) => Success(Some(g))
      case Failure(e) => Failure(e)
  }

  /** Letter case and surrounding blanks never change what a gender token means. */
  lemma ParseGenderIgnoresCaseAndPadding(left: string, s: string, right: string)
    requires IsBlank(left) && IsBlank(right)
    ensures ParseGenderToken(left + s + right).Success? == ParseGenderToken(s).Success?
    ensures ParseGenderToken(Lower(s)).Success? == ParseGenderToken(s).Success?
    ensures ParseGenderToken(s).Success? ==>
      ParseGenderToken(left + s + right).value == ParseGenderToken(s).value &&
      ParseGenderToken(Lower(s)).value == ParseGenderToken(s).value
  {
    NormalizeIgnoresCaseAndPadding(left, s, right);
  }

  /** A capital Latin token is accepted. */
  lemma GenderAcceptsCapital()
    ensures ParseGender(Some("M")) == Success(Some(Male))
  {
    assert Trim("M") == "M" by {
      assert IsTrimmed("M");
    }
    assert Lower("M") == "m" by {
      assert Lower("M")[0] == 'm';
    }
    assert "m" in MaleTokens;
  }

  /** A capital Cyrillic token is accepted. */
  lemma GenderAcceptsCyrillic()
    ensures ParseGender(Some("\U{041C}\U{0423}\U{0416}")) == Success(Some(Male))
  {
    var muzh := "\U{041C}\U{0423}\U{0416}";
    assert Trim(muzh) == muzh by {
      assert IsTrimmed(muzh);
    }
    LowerCyrillicExample();
    assert "\U{043C}\U{0443}\U{0436}" in MaleTokens;
  }

  lemma LowerCyrillicExample()
    ensures Lower("\U{041C}\U{0423}\U{0416}") == "\U{043C}\U{0443}\U{0436}"
  {
    var l := Lower("\U{041C}\U{0423}\U{0416}");
    forall k | 0 <= k < 3 ensures l[k] == "\U{043C}\U{0443}\U{0436}"[k] {
    }
  }

  /** The empty string is not a gender. */
  lemma GenderRejectsEmpty()
    ensures ParseGender(Some("")) == Failure(UnknownGender(""))
  {
    assert Normalize("") == "";
  }
}
