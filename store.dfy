/**
 * The record store: StudentManagementSystem's list of students and the
 * operations that change it in place (add, update one field, delete, sort).
 * Every operation keeps roll numbers pairwise distinct when they were
 * distinct before, and keeps every record valid when every record was
 * valid before; neither is assumed, because a loaded file may break both.
 */
module Store {
  import opened Text
  import opened Seqs
  import opened Records
  import opened Sorting

  /** Which validation the add path stopped at, in the order the fields are
      prompted for (name, roll number, age, CGPA). */
  datatype AddOutcome = Added | InvalidName | InvalidRollNumber | InvalidAge | InvalidCgpa

  /** The new value for the one field the operator chose to update; the
      name is given as typed and stripped before it is checked. */
  datatype FieldUpdate = NewName(typed: string) | NewAge(age: int) | NewCgpa(cgpa: real)

  /** The new value passes the validator of its field. */
  predicate Acceptable(u: FieldUpdate) {
    match u
    case NewName(typed) => ValidName(Strip(typed))
    case NewAge(age) => ValidAge(age)
    case NewCgpa(cgpa) => ValidCgpa(cgpa)
  }

  /** The record with the chosen field overwritten. */
  function Apply(st: Student, u: FieldUpdate): Student {
    match u
    case NewName(typed) => st.(name := Strip(typed))
    case NewAge(age) => st.(age := age)
    case NewCgpa(cgpa) => st.(cgpa := cgpa)
  }

  /** An update keeps the roll number and changes no field other than the
      one chosen, which takes the new value (a name stripped). */
  lemma ApplyTouchesOneField(st: Student, u: FieldUpdate)
    ensures Apply(st, u).rollNumber == st.rollNumber
    ensures u.NewName? ==> Apply(st, u).name == Strip(u.typed)
    ensures u.NewAge? ==> Apply(st, u).age == u.age
    ensures u.NewCgpa? ==> Apply(st, u).cgpa == u.cgpa
    ensures !u.NewName? ==> Apply(st, u).name == st.name
    ensures !u.NewAge? ==> Apply(st, u).age == st.age
    ensures !u.NewCgpa? ==> Apply(st, u).cgpa == st.cgpa
  {
  }

  /** An accepted new value keeps a valid record valid. */
  lemma ApplyKeepsValid(st: Student, u: FieldUpdate)
    requires ValidFields(st) && Acceptable(u)
    ensures ValidFields(Apply(st, u))
  {
    if u.NewName? {
      StripKeepsVerdict(u.typed);
      StripKeepsVerdict(Strip(u.typed));
    }
  }

  /** Replacing the record at position index by one with the same roll
      number keeps every roll number where it was, so distinct roll numbers
      stay distinct. */
  lemma ReplaceKeepsRolls(s: seq<Student>, index: nat, st: Student)
    requires index < |s| && st.rollNumber == s[index].rollNumber
    ensures forall j :: 0 <= j < |s| ==> s[index := st][j].rollNumber == s[j].rollNumber
    ensures UniqueRolls(s) ==> UniqueRolls(s[index := st])
  {
    var t := s[index := st];
    assert forall j :: 0 <= j < |s| ==> t[j].rollNumber == s[j].rollNumber;
  }

  /** Overwriting a field with an accepted value keeps every record valid. */
  lemma UpdateKeepsValid(s: seq<Student>, index: nat, u: FieldUpdate)
    requires index < |s| && AllValid(s) && Acceptable(u)
    ensures AllValid(s[index := Apply(s[index], u)])
  {
    var t := s[index := Apply(s[index], u)];
    ApplyKeepsValid(s[index], u);
    forall j | 0 <= j < |t| ensures ValidFields(t[j]) {
      if j != index {
        assert t[j] == s[j];
      }
    }
  }

  /** list.remove of the record at position index takes out the first
      record equal to it, which is the one at index itself when roll
      numbers are distinct; distinct roll numbers then stay distinct and
      the deleted roll number is gone. */
  lemma DeleteKeepsRolls(s: seq<Student>, index: nat)
    requires index < |s|
    ensures exists i :: 0 <= i <= index && s[i] == s[index] &&
                        RemoveFirst(s, s[index]) == s[..i] + s[i + 1..]
    ensures UniqueRolls(s) ==> RemoveFirst(s, s[index]) == s[..index] + s[index + 1..]
    ensures UniqueRolls(s) ==> UniqueRolls(RemoveFirst(s, s[index]))
    ensures UniqueRolls(s) ==> !HasRoll(RemoveFirst(s, s[index]), s[index].rollNumber)
  {
    var i := IndexOf(s, s[index]);
    RemoveFirstAt(s, s[index], i);
    if UniqueRolls(s) {
      assert i == index;
      RemoveAtKeepsUnique(s, i);
    }
  }

  /** Deleting keeps every remaining record valid. */
  lemma DeleteKeepsValid(s: seq<Student>, target: Student)
    requires AllValid(s)
    ensures AllValid(RemoveFirst(s, target))
  {
    var t := RemoveFirst(s, target);
    RemoveFirstMultiset(s, target);
    forall j | 0 <= j < |t| ensures ValidFields(t[j]) {
      assert t[j] in multiset(t);
      assert t[j] in multiset(s);
    }
  }

  class StudentManagementSystem {
    var students: seq<Student>

    /** The store over the records load_students returned (possibly none). */
    constructor (loaded: seq<Student>)
      ensures students == loaded
    {
      students := loaded;
    }

    /** add_student with the four values the operator typed: the name is
        stripped, then the fields are checked in prompt order; when all pass
        the new record is appended at the end. */
    method AddStudent(typedName: string, rollNumber: int, age: int, cgpa: real) returns (outcome: AddOutcome)
      modifies this
      ensures outcome == Added <==>
                ValidName(Strip(typedName)) && ValidRollNumber(old(students), rollNumber) &&
                ValidAge(age) && ValidCgpa(cgpa)
      ensures outcome == InvalidName <==> !ValidName(Strip(typedName))
      ensures outcome == InvalidRollNumber <==>
                ValidName(Strip(typedName)) && !ValidRollNumber(old(students), rollNumber)
      ensures outcome == InvalidAge <==>
                ValidName(Strip(typedName)) && ValidRollNumber(old(students), rollNumber) && !ValidAge(age)
      ensures outcome == InvalidCgpa <==>
                ValidName(Strip(typedName)) && ValidRollNumber(old(students), rollNumber) && ValidAge(age) &&
                !ValidCgpa(cgpa)
      ensures outcome == Added ==>
                students == old(students) + [Student(rollNumber, Strip(typedName), age, cgpa)]
      ensures outcome != Added ==> students == old(students)
      ensures UniqueRolls(old(students)) ==> UniqueRolls(students)
      ensures AllValid(old(students)) ==> AllValid(students)
    {
      var name := Strip(typedName);
      if !ValidName(name) {
        return InvalidName;
      }
      if !ValidRollNumber(students, rollNumber) {
        return InvalidRollNumber;
      }
      if !ValidAge(age) {
        return InvalidAge;
      }
      if !ValidCgpa(cgpa) {
        return InvalidCgpa;
      }
      var st := Student(rollNumber, name, age, cgpa);
      if UniqueRolls(students) {
        AppendKeepsUnique(students, st);
      }
      if AllValid(students) {
        AppendKeepsValid(students, st);
      }
      students := students + [st];
      return Added;
    }

    /** update_student on the record at position index (the one the search
        returned): the chosen field is overwritten only when the new value
        passes its validator; otherwise nothing changes. */
    method UpdateStudent(index: nat, u: FieldUpdate) returns (updated: bool)
      requires index < |students|
      modifies this
      ensures updated <==> Acceptable(u)
      ensures updated ==> students == old(students)[index := Apply(old(students)[index], u)]
      ensures !updated ==> students == old(students)
      ensures |students| == |old(students)|
      ensures forall j :: 0 <= j < |students| ==> students[j].rollNumber == old(students)[j].rollNumber
      ensures UniqueRolls(old(students)) ==> UniqueRolls(students)
      ensures AllValid(old(students)) ==> AllValid(students)
    {
      updated := Acceptable(u);
      if updated {
        ApplyTouchesOneField(students[index], u);
        ReplaceKeepsRolls(students, index, Apply(students[index], u));
        if AllValid(students) {
          UpdateKeepsValid(students, index, u);
        }
        students := students[index := Apply(students[index], u)];
      }
    }

    /** delete_student on the record at position index (the one the search
        returned, the operator having confirmed): list.remove takes out the
        first record equal to it. */
    method DeleteStudent(index: nat)
      requires index < |students|
      modifies this
      ensures students == RemoveFirst(old(students), old(students)[index])
      ensures |students| == |old(students)| - 1
      ensures multiset(students) == multiset(old(students)) - multiset{old(students)[index]}
      ensures exists i :: 0 <= i <= index && old(students)[i] == old(students)[index] &&
                          students == old(students)[..i] + old(students)[i + 1..]
      ensures UniqueRolls(old(students)) ==> students == old(students)[..index] + old(students)[index + 1..]
      ensures UniqueRolls(old(students)) ==> UniqueRolls(students)
      ensures UniqueRolls(old(students)) ==> !HasRoll(students, old(students)[index].rollNumber)
      ensures AllValid(old(students)) ==> AllValid(students)
    {
      var target := students[index];
      DeleteKeepsRolls(students, index);
      RemoveFirstMultiset(students, target);
      if AllValid(students) {
        DeleteKeepsValid(students, target);
      }
      students := RemoveFirst(students, target);
    }

    /** sort_students: the list reordered, stably, by the chosen key. */
    method SortStudents(key: SortKey)
      modifies this
      ensures students == SortBy(old(students), key)
      ensures Sorted(students, key) && multiset(students) == multiset(old(students))
      ensures forall y :: Filter(students, SameKeyAs(key, y)) == Filter(old(students), SameKeyAs(key, y))
      ensures UniqueRolls(old(students)) ==> UniqueRolls(students)
      ensures AllValid(old(students)) ==> AllValid(students)
    {
      var sorted := SortBy(students, key);
      forall y ensures Filter(sorted, SameKeyAs(key, y)) == Filter(students, SameKeyAs(key, y)) {
        SortStable(students, key, y);
      }
      if UniqueRolls(students) {
        SortKeepsUnique(students, key);
      }
      if AllValid(students) {
        forall j | 0 <= j < |sorted| ensures ValidFields(sorted[j]) {
          assert sorted[j] in multiset(students);
        }
      }
      students := sorted;
    }
  }
}
