/**
 The performance report of the student manager. It is refused on an empty
 roster; otherwise it gives the number of students, the total of their
 marks (the average is this total over the count), the highest and lowest
 marks, how many students fall into each grade band, and every row that
 attains the highest marks, ties included.
 */
module Reporting {
  import opened Options
  import opened Seqs
  import opened Grade
  import opened Records

  /** Every band, so that a count per band can be collected over a finite domain. */
  const AllBands: set<Band> := {Fail, ThirdClass, SecondClass, FirstClass, Distinction}

  /** The report's figures. `classCounts` lists only bands that occur, as a value count does. */
  datatype Summary = Summary(
    total: nat,
    sum: int,
    highest: int,
    lowest: int,
    classCounts: map<Band, nat>,
    top: Roster)

  /** The highest marks on a non-empty roster: attained by some row and reached by none. */
  function Highest(r: Roster): (m: int)
    requires |r| > 0
    ensures forall i :: 0 <= i < |r| ==> r[i].marks <= m
    ensures exists i :: 0 <= i < |r| && r[i].marks == m
  {
    if |r| == 1 then r[0].marks
    else
      var rest := Highest(r[1..]);
      assert forall i :: 1 <= i < |r| ==> r[i] == r[1..][i - 1];
      if r[0].marks >= rest then r[0].marks else rest
  }

  /** The lowest marks on a non-empty roster: attained by some row and undercut by none. */
  function Lowest(r: Roster): (m: int)
    requires |r| > 0
    ensures forall i :: 0 <= i < |r| ==> m <= r[i].marks
    ensures exists i :: 0 <= i < |r| && r[i].marks == m
  {
    if |r| == 1 then r[0].marks
    else
      var rest := Lowest(r[1..]);
      assert forall i :: 1 <= i < |r| ==> r[i] == r[1..][i - 1];
      if r[0].marks <= rest then r[0].marks else rest
  }

  /** The total of all marks. */
  function SumMarks(r: Roster): int {
    if r == [] then 0 else r[0].marks + SumMarks(r[1..])
  }

  /** When every mark lies in lo..hi, the total lies between |r| * lo and |r| * hi; so the average lies between the lowest and highest marks. */
  lemma {:induction false} SumBetween(r: Roster, lo: int, hi: int)
    requires forall i :: 0 <= i < |r| ==> lo <= r[i].marks <= hi
    ensures |r| * lo <= SumMarks(r) <= |r| * hi
  {
    if r != [] {
      assert forall i :: 0 <= i < |r[1..]| ==> r[1..][i] == r[i + 1];
      SumBetween(r[1..], lo, hi);
      assert |r| * lo == (|r| - 1) * lo + lo;
      assert |r| * hi == (|r| - 1) * hi + hi;
    }
  }

  function WithMarks(m: int): Student -> bool {
    (s: Student) => s.marks == m
  }

  /** How many rows the classifier puts into band `b`. */
  function CountBand(r: Roster, b: Band): (n: nat)
    ensures n <= |r|
    ensures n > 0 <==> exists i :: 0 <= i < |r| && Classify(r[i].marks) == b
  {
    if r == [] then 0
    else
      assert forall i :: 1 <= i < |r| ==> r[i] == r[1..][i - 1];
      (if Classify(r[0].marks) == b then 1 else 0) + CountBand(r[1..], b)
  }

  /** Every row lands in exactly one band, so the five band counts add up to the roster size. */
  lemma {:induction false} BandCountsSum(r: Roster)
    ensures CountBand(r, Fail) + CountBand(r, ThirdClass) + CountBand(r, SecondClass)
          + CountBand(r, FirstClass) + CountBand(r, Distinction) == |r|
  {
    if r != [] {
      BandCountsSum(r[1..]);
      var c := Classify(r[0].marks);
      assert CountBand(r, c) == 1 + CountBand(r[1..], c);
      forall b | b != c
        ensures CountBand(r, b) == CountBand(r[1..], b)
      {
      }
    }
  }

  /** The count a band map gives `b`, zero for a band it omits. */
  function CountOf(m: map<Band, nat>, b: Band): nat {
    if b in m then m[b] else 0
  }

  /** The sum of a band map's counts over all five bands. */
  function Tally(m: map<Band, nat>): nat {
    CountOf(m, Fail) + CountOf(m, ThirdClass) + CountOf(m, SecondClass)
    + CountOf(m, FirstClass) + CountOf(m, Distinction)
  }

  /**
   The per-band counts: a band is listed exactly when some row falls into
   it, with the number of rows that do.
   */
  function ClassCounts(r: Roster): (m: map<Band, nat>)
    ensures forall b :: b in m <==> exists i :: 0 <= i < |r| && Classify(r[i].marks) == b
    ensures forall b :: b in m ==> m[b] == CountBand(r, b) > 0
    ensures Tally(m) == |r|
  {
    var m := map b | b in AllBands && CountBand(r, b) > 0 :: CountBand(r, b);
    forall b
      ensures b in AllBands
    {
      assert b.Fail? || b.ThirdClass? || b.SecondClass? || b.FirstClass? || b.Distinction?;
    }
    BandCountsSum(r);
    assert forall b :: CountOf(m, b) == CountBand(r, b);
    m
  }

  /** The rows attaining the given marks, in roster order, each as often as it occurs. */
  function TopPerformers(r: Roster, best: int): (top: Roster)
    ensures forall i :: 0 <= i < |top| ==> top[i] in r && top[i].marks == best
    ensures forall i :: 0 <= i < |r| && r[i].marks == best ==> r[i] in top
    ensures SubseqOf(top, r)
    ensures forall x :: multiset(top)[x] == if x.marks == best then multiset(r)[x] else 0
  {
    var top := Filter(r, WithMarks(best));
    assert forall x :: multiset(top)[x] == if x.marks == best then multiset(r)[x] else 0 by {
      forall x
        ensures multiset(top)[x] == if x.marks == best then multiset(r)[x] else 0
      {
        FilterCount(r, WithMarks(best), x);
      }
    }
    top
  }

  /**
   The report. Refused exactly on an empty roster. Otherwise: the count is
   the roster size, every row's marks lie between the lowest and the highest
   and both are attained, the total lies between count times lowest and
   count times highest, the band counts are those of the classifier and
   add up to the count, and the top performers are exactly the rows with
   the highest marks, in roster order and with repeated rows kept, never
   none.
   */
  function Generate(r: Roster): (res: Result<Summary, Error>)
    ensures res.Failure? <==> r == []
    ensures res.Failure? ==> res.error == EmptyRoster
    ensures res.Success? ==>
              var s := res.value;
              && s.total == |r|
              && s.sum == SumMarks(r)
              && (forall i :: 0 <= i < |r| ==> s.lowest <= r[i].marks <= s.highest)
              && (exists i :: 0 <= i < |r| && r[i].marks == s.highest)
              && (exists i :: 0 <= i < |r| && r[i].marks == s.lowest)
              && s.total * s.lowest <= s.sum <= s.total * s.highest
              && (forall b :: b in s.classCounts <==> exists i :: 0 <= i < |r| && Classify(r[i].marks) == b)
              && (forall b :: b in s.classCounts ==> s.classCounts[b] == CountBand(r, b))
              && Tally(s.classCounts) == s.total
              && |s.top| > 0
              && (forall i :: 0 <= i < |s.top| ==> s.top[i] in r && s.top[i].marks == s.highest)
              && (forall i :: 0 <= i < |r| && r[i].marks == s.highest ==> r[i] in s.top)
              && SubseqOf(s.top, r)
              && (forall x :: multiset(s.top)[x] == if x.marks == s.highest then multiset(r)[x] else 0)
  {
    if r == [] then Failure(EmptyRoster)
    else
      var hi := Highest(r);
      var lo := Lowest(r);
      SumBetween(r, lo, hi);
      var top := TopPerformers(r, hi);
      var k :| 0 <= k < |r| && r[k].marks == hi;
      assert r[k] in top;
      Success(Summary(|r|, SumMarks(r), hi, lo, ClassCounts(r), top))
  }

  /** A worked report: two students, one with Distinction and one with Third Class. */
  lemma TwoStudentReport()
    ensures Generate([Student(1, "Alice", 90), Student(2, "Bob", 40)])
         == Success(Summary(2, 130, 90, 40, map[Distinction := 1, ThirdClass := 1], [Student(1, "Alice", 90)]))
  {
    var alice, bob := Student(1, "Alice", 90), Student(2, "Bob", 40);
    var r := [alice, bob];
    assert r[1..] == [bob];
    assert [bob][1..] == [];
    assert SumMarks([bob]) == 40;
    assert Highest(r) == 90 && Lowest(r) == 40 && SumMarks(r) == 130;
    CountsOfTwo(alice, bob);
    TopOfTwo(alice, bob);
    GenerateFigures(r);
  }

  /** With marks 90 and 40, one row is a Distinction and one a Third Class. */
  lemma CountsOfTwo(alice: Student, bob: Student)
    requires alice.marks == 90 && bob.marks == 40
    ensures ClassCounts([alice, bob]) == map[Distinction := 1, ThirdClass := 1]
  {
    var r := [alice, bob];
    assert r[1..] == [bob];
    assert [bob][1..] == [];
    assert Classify(90) == Distinction && Classify(40) == ThirdClass;
    var counts := ClassCounts(r);
    assert CountBand(r, Distinction) == 1 && CountBand(r, ThirdClass) == 1;
    assert counts.Keys == {Distinction, ThirdClass};
  }

  /** With marks 90 and 40, only the first row attains 90. */
  lemma TopOfTwo(alice: Student, bob: Student)
    requires alice.marks == 90 && bob.marks == 40
    ensures TopPerformers([alice, bob], 90) == [alice]
  {
    var r := [alice, bob];
    assert r[1..] == [bob];
    assert [bob][1..] == [];
    assert Filter([bob], WithMarks(90)) == [];
    assert Filter(r, WithMarks(90)) == [alice];
  }

  /** The figures of a report on a non-empty roster. */
  lemma GenerateFigures(r: Roster)
    requires r != []
    ensures Generate(r) == Success(Summary(|r|, SumMarks(r), Highest(r), Lowest(r), ClassCounts(r), TopPerformers(r, Highest(r))))
  {
  }
}
