/**
 * The bucket counting of show_statistics: how many students fall in each of
 * four age groups and each of four CGPA groups.
 */
module Stats {
  import opened Seqs
  import opened Records

  /** One of the four groups of a distribution, lowest first. */
  datatype Band = Band1 | Band2 | Band3 | Band4

  /** The age groups "<18", "18-22", "23-25" and ">25". */
  function AgeBand(age: int): (b: Band)
    ensures b == Band1 <==> age < 18
    ensures b == Band2 <==> 18 <= age <= 22
    ensures b == Band3 <==> 23 <= age <= 25
    ensures b == Band4 <==> age > 25
  {
    if age < 18 then Band1
    else if 18 <= age <= 22 then Band2
    else if 23 <= age <= 25 then Band3
    else Band4
  }

  /** The CGPA groups labelled "<2.0", "2.0-2.9", "3.0-3.5" and ">3.5";
      the third is half-open and the last takes 3.5 itself. */
  function CgpaBand(cgpa: real): (b: Band)
    ensures b == Band1 <==> cgpa < 2.0
    ensures b == Band2 <==> 2.0 <= cgpa < 3.0
    ensures b == Band3 <==> 3.0 <= cgpa < 3.5
    ensures b == Band4 <==> cgpa >= 3.5
  {
    if cgpa < 2.0 then Band1
    else if 2.0 <= cgpa < 3.0 then Band2
    else if 3.0 <= cgpa < 3.5 then Band3
    else Band4
  }

  /** The counters of one distribution (the dict of four groups). */
  datatype Histogram = Histogram(band1: nat, band2: nat, band3: nat, band4: nat) {
    function Get(b: Band): nat {
      match b
      case Band1 => band1
      case Band2 => band2
      case Band3 => band3
      case Band4 => band4
    }

    /** One more in group b, the other groups unchanged. */
    function Bump(b: Band): (r: Histogram)
      ensures forall c :: r.Get(c) == Get(c) + if c == b then 1 else 0
      ensures r.Total() == Total() + 1
    {
      match b
      case Band1 => this.(band1 := band1 + 1)
      case Band2 => this.(band2 := band2 + 1)
      case Band3 => this.(band3 := band3 + 1)
      case Band4 => this.(band4 := band4 + 1)
    }

    function Total(): nat {
      band1 + band2 + band3 + band4
    }
  }

  function InBand<T>(bandOf: T -> Band, b: Band): T -> bool {
    x => bandOf(x) == b
  }

  /** The values that fall in group b, in their original order. */
  function Members<T(!new)>(xs: seq<T>, bandOf: T -> Band, b: Band): seq<T> {
    Filter(xs, InBand(bandOf, b))
  }

  /** The four groups partition the values: every value is counted in
      exactly one group, so the group sizes add up to the number of values. */
  lemma {:induction false} BandsPartition<T(!new)>(xs: seq<T>, bandOf: T -> Band)
    ensures |Members(xs, bandOf, Band1)| + |Members(xs, bandOf, Band2)| +
            |Members(xs, bandOf, Band3)| + |Members(xs, bandOf, Band4)| == |xs|
  {
    if xs != [] {
      BandsPartition(xs[1..], bandOf);
    }
  }

  /** Extending the prefix by one value adds it to its own group only. */
  lemma MembersStep<T(!new)>(xs: seq<T>, bandOf: T -> Band, b: Band, i: nat)
    requires i < |xs|
    ensures |Members(xs[..i + 1], bandOf, b)| ==
            |Members(xs[..i], bandOf, b)| + if b == bandOf(xs[i]) then 1 else 0
  {
    assert xs[..i + 1] == xs[..i] + [xs[i]];
    FilterConcat(xs[..i], [xs[i]], InBand(bandOf, b));
    FilterSingleton(xs[i], InBand(bandOf, b));
  }

  /** The counters after a pass over xs, bumping the group of each value. */
  function Counts<T>(xs: seq<T>, bandOf: T -> Band): Histogram {
    if xs == [] then Histogram(0, 0, 0, 0)
    else Counts(xs[..|xs| - 1], bandOf).Bump(bandOf(xs[|xs| - 1]))
  }

  /** Each counter holds the size of its group, and the counters add up to
      the number of values. */
  lemma {:induction false} CountsCorrect<T(!new)>(xs: seq<T>, bandOf: T -> Band)
    ensures forall b :: Counts(xs, bandOf).Get(b) == |Members(xs, bandOf, b)|
    ensures Counts(xs, bandOf).Total() == |xs|
  {
    if xs != [] {
      var n := |xs| - 1;
      CountsCorrect(xs[..n], bandOf);
      forall b ensures Counts(xs, bandOf).Get(b) == |Members(xs, bandOf, b)| {
        MembersStep(xs, bandOf, b, n);
        assert xs[..n + 1] == xs;
      }
    }
  }

  /** The counting loop: one pass, one counter bumped per value. */
  method Tally<T(!new)>(xs: seq<T>, bandOf: T -> Band) returns (h: Histogram)
    ensures forall b :: h.Get(b) == |Members(xs, bandOf, b)|
    ensures h.Total() == |xs|
  {
    h := Histogram(0, 0, 0, 0);
    var i := 0;
    while i < |xs|
      invariant 0 <= i <= |xs|
      invariant h == Counts(xs[..i], bandOf)
    {
      assert xs[..i + 1][..i] == xs[..i];
      assert Counts(xs[..i + 1], bandOf) == Counts(xs[..i], bandOf).Bump(bandOf(xs[i]));
      h := h.Bump(bandOf(xs[i]));
      i := i + 1;
    }
    assert xs[..i] == xs;
    CountsCorrect(xs, bandOf);
  }

  function Ages(students: seq<Student>): seq<int> {
    seq(|students|, i requires 0 <= i < |students| => students[i].age)
  }

  function Cgpas(students: seq<Student>): seq<real> {
    seq(|students|, i requires 0 <= i < |students| => students[i].cgpa)
  }

  /** What show_statistics reports besides averages and percentages. */
  datatype Summary = Summary(total: nat, ageGroups: Histogram, cgpaGroups: Histogram)

  /** show_statistics: nothing on an empty list; otherwise the total and the
      two distributions, each group holding exactly the students whose age
      (CGPA) falls in it, and each distribution adding up to the total. */
  method ShowStatistics(students: seq<Student>) returns (r: Option<Summary>)
    ensures r.None? <==> students == []
    ensures r.Some? ==> r.value.total == |students|
    ensures r.Some? ==> r.value.ageGroups.Total() == |students| && r.value.cgpaGroups.Total() == |students|
    ensures r.Some? ==> forall b :: r.value.ageGroups.Get(b) == |Members(Ages(students), AgeBand, b)|
    ensures r.Some? ==> forall b :: r.value.cgpaGroups.Get(b) == |Members(Cgpas(students), CgpaBand, b)|
  {
    if students == [] {
      return None;
    }
    var ages := Ages(students);
    var cgpas := Cgpas(students);
    var ageGroups := Tally(ages, AgeBand);
    var cgpaGroups := Tally(cgpas, CgpaBand);
    r := Some(Summary(|students|, ageGroups, cgpaGroups));
  }
}
