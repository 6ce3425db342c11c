/**
 * The four orders of the record store's sort and a stable sort by each.
 * Python's list.sort is stable, also with reverse=True; SortBy is a stable
 * insertion sort, and SortByUnique shows that it is the only ordering that
 * is sorted and stable, so it is the list Python's sort produces.
 */
module Sorting {
  import opened Text
  import opened Seqs
  import opened Records

  /** The sort the operator chose. */
  datatype SortKey = ByRollNumber | ByName | ByAge | ByCgpaDescending

  /** a may stand before b in the order chosen: roll number ascending, the
      lower-cased name ascending, age ascending, CGPA descending. */
  predicate KeyLe(k: SortKey, a: Student, b: Student) {
    match k
    case ByRollNumber => a.rollNumber <= b.rollNumber
    case ByName => LexLe(Lower(a.name), Lower(b.name))
    case ByAge => a.age <= b.age
    case ByCgpaDescending => b.cgpa <= a.cgpa
  }

  /** a and b have equal sort keys. */
  predicate SameKey(k: SortKey, a: Student, b: Student) {
    KeyLe(k, a, b) && KeyLe(k, b, a)
  }

  function SameKeyAs(k: SortKey, x: Student): Student -> bool {
    y => SameKey(k, y, x)
  }

  lemma KeyLeTotal(k: SortKey, a: Student, b: Student)
    ensures KeyLe(k, a, b) || KeyLe(k, b, a)
  {
    if k == ByName {
      LexLeTotal(Lower(a.name), Lower(b.name));
    }
  }

  lemma KeyLeRefl(k: SortKey, a: Student)
    ensures KeyLe(k, a, a)
  {
    KeyLeTotal(k, a, a);
  }

  lemma KeyLeTrans(k: SortKey, a: Student, b: Student, c: Student)
    requires KeyLe(k, a, b) && KeyLe(k, b, c)
    ensures KeyLe(k, a, c)
  {
    if k == ByName {
      LexLeTrans(Lower(a.name), Lower(b.name), Lower(c.name));
    }
  }

  /** Two records are tied exactly when the key the sort uses is equal. */
  lemma SameKeyIff(k: SortKey, a: Student, b: Student)
    ensures SameKey(k, a, b) <==> match k
      case ByRollNumber => a.rollNumber == b.rollNumber
      case ByName => Lower(a.name) == Lower(b.name)
      case ByAge => a.age == b.age
      case ByCgpaDescending => a.cgpa == b.cgpa
  {
    if k == ByName {
      if SameKey(k, a, b) {
        LexLeAntisym(Lower(a.name), Lower(b.name));
      } else {
        LexLeTotal(Lower(a.name), Lower(a.name));
      }
    }
  }

  /** The name sort ignores case: records whose names differ only in the
      case of their letters are tied. */
  lemma NameSortIgnoresCase(a: Student, b: Student)
    requires |a.name| == |b.name| && forall i :: 0 <= i < |a.name| ==> SameIgnoringCase(a.name[i], b.name[i])
    ensures SameKey(ByName, a, b)
  {
    LowerIgnoresCase(a.name, b.name);
    KeyLeRefl(ByName, a);
  }

  ghost predicate Sorted(s: seq<Student>, k: SortKey) {
    forall i, j :: 0 <= i < j < |s| ==> KeyLe(k, s[i], s[j])
  }

  /** Keeping the head h of a sorted list in front of u, a sorted list of
      the head's successors and x, where h may stand before x, is sorted. */
  lemma ConsSorted(k: SortKey, h: Student, rest: seq<Student>, x: Student, u: seq<Student>)
    requires Sorted([h] + rest, k) && KeyLe(k, h, x) && Sorted(u, k)
    requires multiset(u) == multiset(rest) + multiset{x}
    ensures Sorted([h] + u, k)
  {
    var t := [h] + u;
    forall j | 0 < j < |t| ensures KeyLe(k, h, t[j]) {
      assert t[j] == u[j - 1];
      assert u[j - 1] in multiset(rest) + multiset{x};
      if u[j - 1] != x {
        assert u[j - 1] in multiset(rest);
        var m :| 0 <= m < |rest| && rest[m] == u[j - 1];
        var hr := [h] + rest;
        assert hr[0] == h && hr[1 + m] == rest[m];
        assert KeyLe(k, hr[0], hr[1 + m]);
      }
    }
  }

  /** x put in front of a sorted list whose head must not stand before x
      gives a sorted list. */
  lemma FrontSorted(k: SortKey, x: Student, r: seq<Student>)
    requires Sorted(r, k) && r != [] && !KeyLe(k, r[0], x)
    ensures Sorted([x] + r, k)
  {
    var t := [x] + r;
    KeyLeTotal(k, r[0], x);
    forall j | 0 < j < |t| ensures KeyLe(k, x, t[j]) {
      if j > 1 {
        KeyLeTrans(k, x, r[0], t[j]);
      }
    }
  }

  /** Puts x after every element of the sorted list r that is not greater. */
  function Insert(k: SortKey, x: Student, r: seq<Student>): (t: seq<Student>)
    ensures |t| == |r| + 1
    ensures multiset(t) == multiset(r) + multiset{x}
    ensures Sorted(r, k) ==> Sorted(t, k)
  {
    if r == [] then [x]
    else if KeyLe(k, r[0], x) then
      var u := Insert(k, x, r[1..]);
      assert r == [r[0]] + r[1..];
      assert Sorted(r, k) ==> Sorted([r[0]] + u, k) by {
        if Sorted(r, k) {
          assert Sorted(r[1..], k);
          ConsSorted(k, r[0], r[1..], x, u);
        }
      }
      [r[0]] + u
    else
      assert Sorted(r, k) ==> Sorted([x] + r, k) by {
        if Sorted(r, k) {
          FrontSorted(k, x, r);
        }
      }
      [x] + r
  }

  /** Stable sort by k: the elements of s inserted one after another, each
      after the equal-keyed ones inserted before it. */
  function SortBy(s: seq<Student>, k: SortKey): (r: seq<Student>)
    ensures |r| == |s|
    ensures multiset(r) == multiset(s)
    ensures Sorted(r, k)
  {
    if s == [] then []
    else
      assert s == s[..|s| - 1] + [s[|s| - 1]];
      Insert(k, s[|s| - 1], SortBy(s[..|s| - 1], k))
  }

  /** Inserting x extends the run of records tied with any y by x exactly
      when x is tied with y. */
  lemma {:induction false} InsertStable(k: SortKey, x: Student, r: seq<Student>, y: Student)
    requires Sorted(r, k)
    ensures Filter(Insert(k, x, r), SameKeyAs(k, y)) ==
            Filter(r, SameKeyAs(k, y)) + if SameKey(k, x, y) then [x] else []
  {
    var p := SameKeyAs(k, y);
    if r == [] {
      FilterSingleton(x, p);
    } else if KeyLe(k, r[0], x) {
      var tail := r[1..];
      assert Sorted(tail, k);
      InsertStable(k, x, tail, y);
      assert Insert(k, x, r) == [r[0]] + Insert(k, x, tail);
      assert r == [r[0]] + tail;
      FilterBehindHead(r[0], tail, Insert(k, x, tail), p, if SameKey(k, x, y) then [x] else []);
    } else {
      InsertFrontStable(k, x, r, y);
    }
  }

  /** A common head does not disturb a filter identity on the tails. */
  lemma FilterBehindHead(h: Student, tail: seq<Student>, u: seq<Student>, p: Student -> bool, xs: seq<Student>)
    requires Filter(u, p) == Filter(tail, p) + xs
    ensures Filter([h] + u, p) == Filter([h] + tail, p) + xs
  {
    FilterConcat([h], u, p);
    FilterConcat([h], tail, p);
    ConcatAssoc(Filter([h], p), Filter(tail, p), xs);
  }

  /** x put in front of the sorted list r extends the run of records tied
      with y by x exactly when x is tied with y. */
  lemma InsertFrontStable(k: SortKey, x: Student, r: seq<Student>, y: Student)
    requires Sorted(r, k) && r != [] && !KeyLe(k, r[0], x)
    ensures Filter([x] + r, SameKeyAs(k, y)) ==
            Filter(r, SameKeyAs(k, y)) + if SameKey(k, x, y) then [x] else []
  {
    var p := SameKeyAs(k, y);
    FilterConcat([x], r, p);
    FilterSingleton(x, p);
    if SameKey(k, x, y) {
      InsertAfterTies(k, x, r, y);
      FilterEmpty(r, p);
    }
  }

  /** When x goes in front of the sorted list r, nothing in r is tied with x. */
  lemma InsertAfterTies(k: SortKey, x: Student, r: seq<Student>, y: Student)
    requires Sorted(r, k) && r != [] && !KeyLe(k, r[0], x) && SameKey(k, x, y)
    ensures forall j :: 0 <= j < |r| ==> !SameKey(k, r[j], y)
  {
    forall j | 0 <= j < |r| ensures !SameKey(k, r[j], y) {
      if SameKey(k, r[j], y) {
        KeyLeTrans(k, r[j], y, x);
        if j > 0 {
          KeyLeTrans(k, r[0], r[j], x);
        }
      }
    }
  }

  /** Stability: for every key value, the records with that key appear in
      SortBy(s, k) in the same order as in s. */
  lemma {:induction false} SortStable(s: seq<Student>, k: SortKey, y: Student)
    ensures Filter(SortBy(s, k), SameKeyAs(k, y)) == Filter(s, SameKeyAs(k, y))
  {
    if s != [] {
      var init, last := s[..|s| - 1], s[|s| - 1];
      var p := SameKeyAs(k, y);
      SortStable(init, k, y);
      InsertStable(k, last, SortBy(init, k), y);
      assert SortBy(s, k) == Insert(k, last, SortBy(init, k));
      SplitLast(s);
      FilterConcat(init, [last], p);
      FilterSingleton(last, p);
    }
  }

  /** The first element of a sorted list comes no later than any other. */
  lemma SortedHeadLe(t: seq<Student>, k: SortKey, x: Student)
    requires Sorted(t, k) && x in t
    ensures KeyLe(k, t[0], x)
  {
    var j :| 0 <= j < |t| && t[j] == x;
    if j == 0 {
      KeyLeRefl(k, x);
    }
  }

  /** Two sorted lists that agree on the runs of the records tied with their
      heads start with the same record. */
  lemma SortedStableHead(t: seq<Student>, u: seq<Student>, k: SortKey)
    requires Sorted(t, k) && Sorted(u, k) && t != [] && u != []
    requires Filter(t, SameKeyAs(k, t[0])) == Filter(u, SameKeyAs(k, t[0]))
    requires Filter(t, SameKeyAs(k, u[0])) == Filter(u, SameKeyAs(k, u[0]))
    ensures t[0] == u[0]
  {
    var a, b := t[0], u[0];
    KeyLeRefl(k, a);
    KeyLeRefl(k, b);
    FilterMembers(u, SameKeyAs(k, a));
    FilterMembers(t, SameKeyAs(k, b));
    assert a in Filter(t, SameKeyAs(k, a));
    assert b in Filter(u, SameKeyAs(k, b));
    SortedHeadLe(u, k, a);
    SortedHeadLe(t, k, b);
    assert SameKeyAs(k, a)(b);
    FilterCons(t, SameKeyAs(k, a));
    FilterCons(u, SameKeyAs(k, a));
    assert Filter(t, SameKeyAs(k, a))[0] == a;
    assert Filter(u, SameKeyAs(k, a))[0] == b;
  }

  /** Two sorted lists that agree on the order of every run of tied records
      are the same list. */
  lemma {:induction false} SortedStableEqual(t: seq<Student>, u: seq<Student>, k: SortKey)
    requires Sorted(t, k) && Sorted(u, k)
    requires forall y :: Filter(t, SameKeyAs(k, y)) == Filter(u, SameKeyAs(k, y))
    ensures t == u
  {
    if t == [] || u == [] {
      if t != [] {
        KeyLeRefl(k, t[0]);
        FilterCons(t, SameKeyAs(k, t[0]));
      }
      if u != [] {
        KeyLeRefl(k, u[0]);
        FilterCons(u, SameKeyAs(k, u[0]));
      }
    } else {
      SortedStableHead(t, u, k);
      forall y ensures Filter(t[1..], SameKeyAs(k, y)) == Filter(u[1..], SameKeyAs(k, y)) {
        var p := SameKeyAs(k, y);
        var h := if p(t[0]) then [t[0]] else [];
        FilterCons(t, p);
        FilterCons(u, p);
        assert Filter(t, p) == Filter(u, p);
        assert Filter(t[1..], p) == Filter(t, p)[|h|..];
        assert Filter(u[1..], p) == Filter(u, p)[|h|..];
      }
      SortedStableEqual(t[1..], u[1..], k);
      assert t == [t[0]] + t[1..];
      assert u == [u[0]] + u[1..];
    }
  }

  /** Any ordering of s that is sorted by k and keeps every run of tied
      records in the order of s is SortBy(s, k). */
  lemma SortByUnique(s: seq<Student>, k: SortKey, t: seq<Student>)
    requires Sorted(t, k)
    requires forall y :: Filter(t, SameKeyAs(k, y)) == Filter(s, SameKeyAs(k, y))
    ensures t == SortBy(s, k)
  {
    forall y ensures Filter(t, SameKeyAs(k, y)) == Filter(SortBy(s, k), SameKeyAs(k, y)) {
      SortStable(s, k, y);
    }
    SortedStableEqual(t, SortBy(s, k), k);
  }

  /** Reordering never changes which roll numbers are present, so sorting
      keeps roll numbers pairwise distinct. */
  lemma SortKeepsUnique(s: seq<Student>, k: SortKey)
    requires UniqueRolls(s)
    ensures UniqueRolls(SortBy(s, k))
  {
    PermutationKeepsUnique(s, SortBy(s, k));
  }
}
