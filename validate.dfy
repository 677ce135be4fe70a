/** The `POST /validate` handler (main.py lines 35-63): a first-failure-wins
    sequence of checks on the applicant's name, age and marks. A failing
    check raises, the handler catches it and answers `{"Error": message}`;
    when every check passes the handler falls off its end and returns
    `None`. */
module StudentValidation {
  import opened Ascii
  import opened NameNormalization
  import opened NamePattern

  const NameError: string := "Invalid Name"
  const AgeError: string := "Invalid Age"
  const MarksError: string := "Invalid Marks: Marks should be between 0 and 100"

  const MinAge: int := 17
  const MaxAge: int := 25
  const MinMark: int := 0
  const MaxMark: int := 100

  /** What the handler returns: `None` when every check passes, or
      `{"Error": message}`. */
  datatype Response = NoError | Error(message: string)

  predicate AgeInRange(age: int) {
    MinAge <= age <= MaxAge
  }

  predicate MarksInRange(marks: map<string, int>) {
    forall subject :: subject in marks ==> MinMark <= marks[subject] <= MaxMark
  }

  /** Which raw names pass, stated without normalisation: at least one
      character that is not whitespace, and every character an ASCII letter
      of either case or whitespace. */
  ghost predicate NameAccepted(name: string) {
    (exists i :: 0 <= i < |name| && !IsSpace(name[i]))
    && forall i :: 0 <= i < |name| ==> IsLetter(name[i]) || IsSpace(name[i])
  }

  /** The name check of the handler (normalise, then `validate_name`) accepts
      exactly the names described by `NameAccepted`. */
  lemma NormalizedNameAccepted(name: string)
    ensures ValidateName(Normalize(name)) <==> NameAccepted(name)
  {
    if ValidateName(Normalize(name)) {
      AcceptedFromValid(name);
    }
    if NameAccepted(name) {
      ValidFromAccepted(name);
    }
  }

  /** A non-whitespace character of the raw name reappears, upper-cased,
      among the non-whitespace characters of the normalised name. */
  lemma RawCharSurvives(name: string, i: int)
    requires 0 <= i < |name| && !IsSpace(name[i])
    ensures ToUpper(name[i]) in NonSpace(Normalize(name))
  {
    var ns := NonSpace(name);
    NonSpaceMembers(name);
    var k :| 0 <= k < |ns| && ns[k] == name[i];
    assert Upper(ns)[k] == ToUpper(name[i]);
  }

  /** Every non-whitespace character of the normalised name is the
      upper-cased form of a non-whitespace character of the raw name. */
  lemma NormalizedCharOrigin(name: string, j: int)
    requires 0 <= j < |Normalize(name)| && !IsSpace(Normalize(name)[j])
    ensures exists d :: d in name && !IsSpace(d) && ToUpper(d) == Normalize(name)[j]
  {
    var n := Normalize(name);
    var ns := NonSpace(name);
    NonSpaceMembers(n);
    NonSpaceMembers(name);
    assert n[j] in Upper(ns);
    var k :| 0 <= k < |ns| && Upper(ns)[k] == n[j];
    assert ns[k] in ns;
  }

  lemma AcceptedFromValid(name: string)
    requires ValidateName(Normalize(name))
    ensures NameAccepted(name)
  {
    var n := Normalize(name);
    NonSpaceMembers(n);
    forall i | 0 <= i < |name|
      ensures IsLetter(name[i]) || IsSpace(name[i])
    {
      if !IsSpace(name[i]) {
        RawCharSurvives(name, i);
        var j :| 0 <= j < |n| && n[j] == ToUpper(name[i]);
        assert j == 0 || IsNameChar(n[j]);
      }
    }
    NormalizedCharOrigin(name, 0);
    var d :| d in name && !IsSpace(d) && ToUpper(d) == n[0];
    var i :| 0 <= i < |name| && name[i] == d;
  }

  lemma ValidFromAccepted(name: string)
    requires NameAccepted(name)
    ensures ValidateName(Normalize(name))
  {
    var n := Normalize(name);
    var i :| 0 <= i < |name| && !IsSpace(name[i]);
    RawCharSurvives(name, i);
    NonSpaceMembers(n);
    forall j | 0 <= j < |n|
      ensures IsUpper(n[j]) || (j > 0 && IsSpace(n[j]))
    {
      if !IsSpace(n[j]) {
        NormalizedCharOrigin(name, j);
      }
    }
  }

  /** The check sequence of the handler. Exactly one outcome applies, and the
      reported error is that of the first failing check in the order name,
      age, marks. */
  function Validate(name: string, age: int, marks: map<string, int>): (r: Response)
    ensures r == NoError <==> NameAccepted(name) && AgeInRange(age) && MarksInRange(marks)
    ensures r == Error(NameError) <==> !NameAccepted(name)
    ensures r == Error(AgeError) <==> NameAccepted(name) && !AgeInRange(age)
    ensures r == Error(MarksError) <==> NameAccepted(name) && AgeInRange(age) && !MarksInRange(marks)
  {
    NormalizedNameAccepted(name);
    if !ValidateName(Normalize(name)) then Error(NameError)
    else if age < MinAge || age > MaxAge then Error(AgeError)
    else if exists subject :: subject in marks && (marks[subject] < MinMark || marks[subject] > MaxMark) then Error(MarksError)
    else NoError
  }

  /** The default name `""`, and any name made only of whitespace, is
      rejected with the name error whatever the age and marks. */
  lemma BlankNameRejected(name: string, age: int, marks: map<string, int>)
    requires forall i :: 0 <= i < |name| ==> IsSpace(name[i])
    ensures Validate(name, age, marks) == Error(NameError)
  {
  }
}
