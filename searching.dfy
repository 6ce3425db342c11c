/**
 * The four lookups of the record store's search: first match by roll
 * number, and case-insensitive name substring, inclusive age range and
 * inclusive CGPA range as filters.
 */
module Searching {
  import opened Text
  import opened Seqs
  import opened Records

  /** The search criterion the operator chose, with its already-parsed input. */
  datatype Query =
    | ByRoll(roll: int)
    | ByName(text: string)
    | ByAgeRange(minAge: int, maxAge: int)
    | ByCgpaRange(minCgpa: real, maxCgpa: real)

  /** Whether one record answers the query. */
  predicate Matches(q: Query, st: Student) {
    match q
    case ByRoll(roll) => st.rollNumber == roll
    case ByName(text) => IsSubstring(Lower(text), Lower(st.name))
    case ByAgeRange(lo, hi) => lo <= st.age <= hi
    case ByCgpaRange(lo, hi) => lo <= st.cgpa <= hi
  }

  function Criterion(q: Query): Student -> bool {
    st => Matches(q, st)
  }

  /** The list the name, age and CGPA searches build and display. */
  function Results(students: seq<Student>, q: Query): seq<Student> {
    Filter(students, Criterion(q))
  }

  /** The search results are exactly the matching records, each as often as
      it is stored, in stored order. */
  lemma ResultsExact(students: seq<Student>, q: Query)
    ensures forall st :: st in Results(students, q) <==> st in students && Matches(q, st)
    ensures forall st :: multiset(Results(students, q))[st] ==
              if Matches(q, st) then multiset(students)[st] else 0
    ensures forall a, b :: Results(a + b, q) == Results(a, q) + Results(b, q)
  {
    FilterMembers(students, Criterion(q));
    FilterMultiset(students, Criterion(q));
    forall a, b ensures Results(a + b, q) == Results(a, q) + Results(b, q) {
      FilterConcat(a, b, Criterion(q));
    }
  }

  /** The results are the single record at index i exactly when no other
      index holds a matching record. */
  lemma SingleResult(students: seq<Student>, q: Query, i: nat)
    requires i < |students| && Matches(q, students[i])
    ensures Results(students, q) == [students[i]] <==>
              forall j :: 0 <= j < |students| && j != i ==> !Matches(q, students[j])
  {
    FilterOne(students, Criterion(q), i);
  }

  /** Two name queries that differ only in letter case find the same
      records, and a stored name found by a query is still found when its
      letters change case. */
  lemma NameQueryCaseInsensitive(t1: string, t2: string, st: Student, other: string)
    requires |t1| == |t2| && forall i :: 0 <= i < |t1| ==> SameIgnoringCase(t1[i], t2[i])
    requires |other| == |st.name| && forall i :: 0 <= i < |other| ==> SameIgnoringCase(other[i], st.name[i])
    ensures Matches(ByName(t1), st) == Matches(ByName(t2), st)
    ensures Matches(ByName(t1), st.(name := other)) == Matches(ByName(t1), st)
  {
    LowerIgnoresCase(t1, t2);
    LowerIgnoresCase(other, st.name);
  }

  /** Lower-casing the query or the stored name beforehand does not change
      a name match: a string and its lower-cased form differ only in letter
      case, so this is an instance of NameQueryCaseInsensitive. */
  lemma NameSearchIgnoresCase(text: string, st: Student)
    ensures Matches(ByName(Lower(text)), st) == Matches(ByName(text), st)
    ensures Matches(ByName(text), st.(name := Lower(st.name))) == Matches(ByName(text), st)
  {
    LowerSameIgnoringCase(text);
    LowerSameIgnoringCase(st.name);
    NameQueryCaseInsensitive(Lower(text), text, st, Lower(st.name));
    NameQueryCaseInsensitive(text, text, st, Lower(st.name));
  }

  /** The record search_student hands back, as an index into the list: for a
      roll-number query the first record with that roll number; for the other
      queries the one record of the results when there is exactly one, and
      nothing when there are none or several. An empty list yields nothing. */
  method SearchStudent(students: seq<Student>, q: Query) returns (selected: Option<nat>)
    ensures students == [] ==> selected.None?
    ensures selected.Some? ==> selected.value < |students| && Matches(q, students[selected.value])
    ensures q.ByRoll? && selected.Some? ==>
              forall j :: 0 <= j < selected.value ==> !Matches(q, students[j])
    ensures q.ByRoll? && selected.None? ==>
              forall j :: 0 <= j < |students| ==> !Matches(q, students[j])
    ensures !q.ByRoll? ==> (selected.Some? <==> |Results(students, q)| == 1)
    ensures !q.ByRoll? && selected.Some? ==> Results(students, q) == [students[selected.value]]
  {
    if students == [] {
      return None;
    }
    if q.ByRoll? {
      selected := FindFirst(students, Criterion(q));
    } else {
      var matches := Filter(students, Criterion(q));
      FilterMembers(students, Criterion(q));
      if |matches| == 1 {
        assert matches[0] in matches;
        var k :| 0 <= k < |students| && students[k] == matches[0];
        selected := FindFirst(students, Criterion(q));
        var i := selected.value;
        assert students[i] in matches;
        assert matches == [students[i]];
      } else {
        selected := None;
      }
    }
  }
}
