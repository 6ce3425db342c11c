/**
 * The student record and the four field validators of the record store.
 */
module Records {
  import opened Text
  import opened Seqs

  /** One student: the JSON object {"roll_number", "name", "age", "cgpa"}. */
  datatype Student = Student(rollNumber: int, name: string, age: int, cgpa: real)

  const MinAge: int := 5
  const MaxAge: int := 120
  const MinCgpa: real := 0.0
  const MaxCgpa: real := 4.0

  /** validate_name: not blank after stripping, and made of letters and
      whitespace only. */
  predicate ValidName(name: string) {
    Strip(name) != [] && forall k :: 0 <= k < |name| ==> IsAlpha(name[k]) || IsSpace(name[k])
  }

  /** validate_age: inclusive bounds. */
  predicate ValidAge(age: int) {
    MinAge <= age <= MaxAge
  }

  /** validate_cgpa: inclusive bounds. */
  predicate ValidCgpa(cgpa: real) {
    MinCgpa <= cgpa <= MaxCgpa
  }

  /** `any(student['roll_number'] == roll for student in students)`. */
  function HasRoll(students: seq<Student>, roll: int): (b: bool)
    ensures b <==> exists i :: 0 <= i < |students| && students[i].rollNumber == roll
  {
    if students == [] then false
    else students[0].rollNumber == roll || HasRoll(students[1..], roll)
  }

  /** validate_roll_number: positive and not yet used by any record. */
  predicate ValidRollNumber(students: seq<Student>, roll: int) {
    roll > 0 && !HasRoll(students, roll)
  }

  /** A record every field of which passes its validator. */
  predicate ValidFields(st: Student) {
    st.rollNumber > 0 && ValidName(st.name) && ValidAge(st.age) && ValidCgpa(st.cgpa)
  }

  ghost predicate AllValid(students: seq<Student>) {
    forall i :: 0 <= i < |students| ==> ValidFields(students[i])
  }

  /** No two records share a roll number. */
  ghost predicate UniqueRolls(students: seq<Student>) {
    forall i, j :: 0 <= i < j < |students| ==> students[i].rollNumber != students[j].rollNumber
  }

  /** validate_name accepts exactly the strings that hold a character other
      than whitespace and hold only letters and whitespace. */
  lemma ValidNameIff(name: string)
    ensures ValidName(name) <==>
              (exists k :: 0 <= k < |name| && !IsSpace(name[k])) &&
              (forall k :: 0 <= k < |name| ==> IsAlpha(name[k]) || IsSpace(name[k]))
  {
    StripEmptyIff(name);
  }

  /** Strip(name) is the block of name starting at some offset, with only
      whitespace around it; its ends are not whitespace. */
  lemma StripSlice(name: string) returns (off: nat)
    ensures off + |Strip(name)| <= |name|
    ensures Strip(name) == name[off..off + |Strip(name)|]
    ensures forall k :: 0 <= k < |name| && !(off <= k < off + |Strip(name)|) ==> IsSpace(name[k])
    ensures Strip(name) != [] ==> !IsSpace(Strip(name)[0]) && !IsSpace(Strip(name)[|Strip(name)| - 1])
  {
    var t := TrimStart(name);
    var r := Strip(name);
    off := |name| - |t|;
    assert t == name[off..];
    assert r == t[..|r|];
    if r != [] {
      assert r[0] == t[0];
    }
  }

  /** Stripping an accepted name keeps it accepted. */
  lemma StripKeepsValid(name: string)
    requires ValidName(name)
    ensures ValidName(Strip(name))
  {
    var r := Strip(name);
    var off := StripSlice(name);
    forall k | 0 <= k < |r| ensures IsAlpha(r[k]) || IsSpace(r[k]) {
      assert r[k] == name[off + k];
    }
    StripEmptyIff(r);
    assert !IsSpace(r[0]);
  }

  /** A name whose stripped form is accepted is itself accepted. */
  lemma StrippedValidGivesValid(name: string)
    requires ValidName(Strip(name))
    ensures ValidName(name)
  {
    var r := Strip(name);
    var off := StripSlice(name);
    assert r != [] by {
      assert |TrimStart(r)| <= |r|;
      assert |Strip(r)| <= |TrimStart(r)|;
    }
    forall k | 0 <= k < |name| ensures IsAlpha(name[k]) || IsSpace(name[k]) {
      if off <= k < off + |r| {
        assert name[k] == r[k - off];
        assert IsAlpha(r[k - off]) || IsSpace(r[k - off]);
      } else {
        assert IsSpace(name[k]);
      }
    }
  }

  /** The add and update paths strip the typed name before validating it;
      stripping never changes the verdict, and a stripped valid name has no
      whitespace at either end. */
  lemma StripKeepsVerdict(name: string)
    ensures ValidName(Strip(name)) <==> ValidName(name)
    ensures ValidName(Strip(name)) ==> !IsSpace(Strip(name)[0]) && !IsSpace(Strip(name)[|Strip(name)| - 1])
  {
    var off := StripSlice(name);
    if ValidName(name) {
      StripKeepsValid(name);
    }
    if ValidName(Strip(name)) {
      StrippedValidGivesValid(name);
      StripEmptyIff(Strip(name));
    }
  }

  /** The boundary values of the age and CGPA validators: 5, 120, 0.0 and 4.0
      are accepted; 4, 121, -0.01 and 4.01 are not. */
  lemma ValidatorBoundaries()
    ensures ValidAge(5) && ValidAge(120) && !ValidAge(4) && !ValidAge(121)
    ensures ValidCgpa(0.0) && ValidCgpa(4.0) && !ValidCgpa(-0.01) && !ValidCgpa(4.01)
  {
  }

  /** Appending a record whose roll number passes validate_roll_number keeps
      roll numbers pairwise distinct. */
  lemma AppendKeepsUnique(students: seq<Student>, st: Student)
    requires UniqueRolls(students) && ValidRollNumber(students, st.rollNumber)
    ensures UniqueRolls(students + [st])
  {
    var t := students + [st];
    forall i, j | 0 <= i < j < |t| ensures t[i].rollNumber != t[j].rollNumber {
      if j == |students| {
        assert t[i] == students[i];
      }
    }
  }

  /** Appending a valid record to a list of valid records. */
  lemma AppendKeepsValid(students: seq<Student>, st: Student)
    requires AllValid(students) && ValidFields(st)
    ensures AllValid(students + [st])
  {
    var t := students + [st];
    forall i | 0 <= i < |t| ensures ValidFields(t[i]) {
      if i < |students| {
        assert t[i] == students[i];
      }
    }
  }

  /** A list with a head keeps roll numbers distinct iff its tail does and
      the head's roll number does not occur in the tail. */
  lemma UniqueCons(e: Student, w: seq<Student>)
    ensures UniqueRolls([e] + w) <==> UniqueRolls(w) && !HasRoll(w, e.rollNumber)
  {
    var t := [e] + w;
    assert forall i :: 0 <= i < |w| ==> t[i + 1] == w[i];
    if UniqueRolls(w) && !HasRoll(w, e.rollNumber) {
      forall i, j | 0 <= i < j < |t| ensures t[i].rollNumber != t[j].rollNumber {
        if i > 0 {
          assert t[i] == w[i - 1] && t[j] == w[j - 1];
        } else {
          assert t[j] == w[j - 1];
        }
      }
    }
    if UniqueRolls(t) {
      forall i, j | 0 <= i < j < |w| ensures w[i].rollNumber != w[j].rollNumber {
        assert t[i + 1] == w[i] && t[j + 1] == w[j];
      }
      forall i | 0 <= i < |w| ensures w[i].rollNumber != e.rollNumber {
        assert t[i + 1] == w[i] && t[0] == e;
      }
    }
  }

  /** Taking one record out keeps roll numbers distinct, and its roll number
      is then gone. */
  lemma RemoveAtKeepsUnique(s: seq<Student>, i: nat)
    requires UniqueRolls(s) && i < |s|
    ensures UniqueRolls(s[..i] + s[i + 1..])
    ensures !HasRoll(s[..i] + s[i + 1..], s[i].rollNumber)
  {
    var t := s[..i] + s[i + 1..];
    assert forall j :: 0 <= j < |t| ==> t[j] == if j < i then s[j] else s[j + 1];
  }

  /** Lists with the same elements hold the same roll numbers. */
  lemma HasRollPermutation(a: seq<Student>, b: seq<Student>, roll: int)
    requires multiset(a) == multiset(b)
    ensures HasRoll(a, roll) == HasRoll(b, roll)
  {
    if HasRoll(a, roll) {
      var i :| 0 <= i < |a| && a[i].rollNumber == roll;
      assert a[i] in multiset(b);
    }
    if HasRoll(b, roll) {
      var i :| 0 <= i < |b| && b[i].rollNumber == roll;
      assert b[i] in multiset(a);
    }
  }

  /** Reordering records never breaks the distinctness of roll numbers. */
  lemma {:induction false} PermutationKeepsUnique(s: seq<Student>, t: seq<Student>)
    requires UniqueRolls(s) && multiset(s) == multiset(t)
    ensures UniqueRolls(t)
  {
    if t != [] {
      var e, tail := t[0], t[1..];
      assert t == [e] + tail;
      assert e in multiset(s);
      var i := IndexOf(s, e);
      var rest := s[..i] + s[i + 1..];
      RemoveFirstAt(s, e, i);
      RemoveFirstMultiset(s, e);
      RemoveAtKeepsUnique(s, i);
      assert multiset(rest) == multiset(tail);
      PermutationKeepsUnique(rest, tail);
      HasRollPermutation(rest, tail, e.rollNumber);
      UniqueCons(e, tail);
    }
  }
}
