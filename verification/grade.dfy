/**
 The grade classifier of the student manager. Marks are binned with
 left-closed, right-open intervals over the edges 0, 35, 50, 60, 75, 101
 (pandas `cut` with `right=False`), each bin carrying one of five labels; a
 value outside every bin is labelled Fail, so the classifier is total.
 */
module Grade {
  import opened Options

  datatype Band = Fail | ThirdClass | SecondClass | FirstClass | Distinction

  /** The bin edges: bin i is the half-open interval [Edges[i], Edges[i + 1]). */
  const Edges: seq<int> := [0, 35, 50, 60, 75, 101]

  /** The label of each bin, in bin order. */
  const Labels: seq<Band> := [Fail, ThirdClass, SecondClass, FirstClass, Distinction]

  /** The text the report shows for a band. */
  function Name(b: Band): string {
    match b
    case Fail => "Fail"
    case ThirdClass => "Third Class"
    case SecondClass => "Second Class"
    case FirstClass => "First Class"
    case Distinction => "Distinction"
  }

  /** Position of a band in the label list: a higher rank is a better grade. */
  function Rank(b: Band): (k: nat)
    ensures k < |Labels| && Labels[k] == b
  {
    match b
    case Fail => 0
    case ThirdClass => 1
    case SecondClass => 2
    case FirstClass => 3
    case Distinction => 4
  }

  predicate StrictlyIncreasing(edges: seq<int>) {
    forall i, j :: 0 <= i < j < |edges| ==> edges[i] < edges[j]
  }

  /**
   The first bin of `edges` that holds `x`, as `pd.cut` with `right=False`
   finds it; None when `x` lies in no bin.
   */
  function BinIndex(edges: seq<int>, x: int): (r: Option<nat>)
    ensures r.Some? ==> r.value + 1 < |edges| && edges[r.value] <= x < edges[r.value + 1]
    ensures r.None? ==> forall i :: 0 <= i < |edges| - 1 ==> !(edges[i] <= x < edges[i + 1])
  {
    if |edges| < 2 then None
    else if edges[0] <= x < edges[1] then Some(0)
    else match BinIndex(edges[1..], x)
      case None => None
      case Some(i) => Some(i + 1)
  }

  /** With increasing edges the bins do not overlap, so the bin that holds `x` is the one found. */
  lemma {:induction false} BinIndexExact(edges: seq<int>, x: int, i: nat)
    requires StrictlyIncreasing(edges)
    requires i + 1 < |edges| && edges[i] <= x < edges[i + 1]
    ensures BinIndex(edges, x) == Some(i)
  {
    if i > 0 {
      assert edges[1] <= edges[i];
      BinIndexExact(edges[1..], x, i - 1);
    }
  }

  /**
   The label of `marks`. Each band is exactly its half-open interval, so
   35, 50, 60 and 75 start the higher band, 100 is Distinction, and negative
   marks or marks of 101 and above are Fail.
   */
  function Classify(marks: int): (b: Band)
    ensures b == Fail <==> marks < 35 || 101 <= marks
    ensures b == ThirdClass <==> 35 <= marks < 50
    ensures b == SecondClass <==> 50 <= marks < 60
    ensures b == FirstClass <==> 60 <= marks < 75
    ensures b == Distinction <==> 75 <= marks < 101
  {
    match BinIndex(Edges, marks)
    case None =>
      assert !(Edges[0] <= marks < Edges[1]) && !(Edges[1] <= marks < Edges[2]);
      assert !(Edges[2] <= marks < Edges[3]) && !(Edges[3] <= marks < Edges[4]);
      assert !(Edges[4] <= marks < Edges[5]);
      Fail
    case Some(i) => Labels[i]
  }

  /** Within the valid range, more marks never give a lower band. */
  lemma ClassifyMonotone(m1: int, m2: int)
    requires 0 <= m1 <= m2 <= 100
    ensures Rank(Classify(m1)) <= Rank(Classify(m2))
  {
  }

  /** Distinct bands are shown with distinct names, so counting by name is counting by band. */
  lemma NameInjective(b1: Band, b2: Band)
    ensures Name(b1) == Name(b2) ==> b1 == b2
  {
  }

  /** The boundary marks of every band. */
  lemma Boundaries()
    ensures Classify(-1) == Fail && Classify(0) == Fail && Classify(34) == Fail
    ensures Classify(35) == ThirdClass && Classify(49) == ThirdClass
    ensures Classify(50) == SecondClass && Classify(59) == SecondClass
    ensures Classify(60) == FirstClass && Classify(74) == FirstClass
    ensures Classify(75) == Distinction && Classify(100) == Distinction
    ensures Classify(101) == Fail
  {
  }
}
