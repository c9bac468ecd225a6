/**
 The roster of the student manager and its record operations: add, search,
 update and delete. The roster is an ordered sequence of rows; each
 operation receives the answers the operator has already typed and returns
 the new roster together with whether it changed (and was therefore
 saved) or was refused and left as it was.

 Roll-number uniqueness is checked only when a row is added; a roster read
 back from the spreadsheet may hold repeated roll numbers, so search,
 update and delete act on every row with the given roll number and assume
 nothing. Uniqueness, marks within 0..100 and stripped non-empty names are
 stated as an invariant (`Valid`) that every operation preserves.
 */
module Records {
  import opened Options
  import opened Seqs
  import Text
  import Input

  /** The bounds the marks prompt enforces when adding or updating. */
  const LowestMarks: int := 0
  const HighestMarks: int := 100

  datatype Student = Student(rollNo: int, name: string, marks: int)

  type Roster = seq<Student>

  /** Why an operation left the roster unchanged. */
  datatype Error =
    | EmptyName        // the name is empty once surrounding whitespace is stripped
    | DuplicateRoll    // the roll number is already on the roster
    | MarksOutOfRange  // the marks lie outside LowestMarks..HighestMarks
    | NotFound         // no row has the roll number
    | InvalidChoice    // the update menu answer is neither "1" nor "2"
    | EmptyRoster      // a report was requested on an empty roster

  datatype Status = Changed | Rejected(reason: Error)

  /** The roster after an operation and what happened to it. */
  datatype Outcome = Outcome(roster: Roster, status: Status)

  predicate HasRoll(r: Roster, roll: int) {
    exists i :: 0 <= i < |r| && r[i].rollNo == roll
  }

  predicate UniqueRolls(r: Roster) {
    forall i, j :: 0 <= i < j < |r| ==> r[i].rollNo != r[j].rollNo
  }

  predicate MarksInRange(r: Roster) {
    forall i :: 0 <= i < |r| ==> LowestMarks <= r[i].marks <= HighestMarks
  }

  predicate NamesStripped(r: Roster) {
    forall i :: 0 <= i < |r| ==> r[i].name != [] && Text.Trimmed(r[i].name)
  }

  /** The invariant of a roster built only through add, update and delete. */
  predicate Valid(r: Roster) {
    UniqueRolls(r) && MarksInRange(r) && NamesStripped(r)
  }

  /** The marks prompt of add and update accepts `marks`. */
  predicate MarksAccepted(marks: int) {
    Input.Judge(Input.Number(marks), Some(LowestMarks), Some(HighestMarks)).Accepted?
  }

  function WithRoll(roll: int): Student -> bool {
    (s: Student) => s.rollNo == roll
  }

  function WithoutRoll(roll: int): Student -> bool {
    (s: Student) => s.rollNo != roll
  }

  // ---------------------------------------------------------------- add

  /**
   Adds a student. The name is checked first (empty after stripping is
   refused), then the roll number (one already present is refused), then
   the marks (outside 0..100 is refused). When all pass, exactly one row,
   holding the stripped name, is appended after the unchanged existing rows.
   */
  function Add(r: Roster, rawName: string, roll: int, marks: int): (o: Outcome)
    ensures o.status.Rejected? ==> o.roster == r
    ensures o.status == Rejected(EmptyName) <==> Text.Blank(rawName)
    ensures o.status == Rejected(DuplicateRoll) <==> !Text.Blank(rawName) && HasRoll(r, roll)
    ensures o.status == Rejected(MarksOutOfRange) <==>
              !Text.Blank(rawName) && !HasRoll(r, roll) && !(LowestMarks <= marks <= HighestMarks)
    ensures o.status == Changed <==>
              !Text.Blank(rawName) && !HasRoll(r, roll) && LowestMarks <= marks <= HighestMarks
    ensures o.status == Changed ==>
              |o.roster| == |r| + 1 && o.roster[..|r|] == r &&
              o.roster[|r|] == Student(roll, Text.Strip(rawName), marks)
  {
    Text.StripEmptyIffBlank(rawName);
    var name := Text.Strip(rawName);
    if name == [] then Outcome(r, Rejected(EmptyName))
    else if HasRoll(r, roll) then Outcome(r, Rejected(DuplicateRoll))
    else if !MarksAccepted(marks) then Outcome(r, Rejected(MarksOutOfRange))
    else Outcome(r + [Student(roll, name, marks)], Changed)
  }

  /** Adding keeps roll numbers unique, marks in range and names stripped. */
  lemma AddPreservesValid(r: Roster, rawName: string, roll: int, marks: int)
    requires Valid(r)
    ensures Valid(Add(r, rawName, roll, marks).roster)
  {
    var o := Add(r, rawName, roll, marks);
    if o.status == Changed {
      var s := Student(roll, Text.Strip(rawName), marks);
      assert o.roster == r + [s];
      forall i, j | 0 <= i < j < |o.roster|
        ensures o.roster[i].rollNo != o.roster[j].rollNo
      {
        if j == |r| {
          assert o.roster[i] == r[i];
        }
      }
    }
  }

  /** After a successful add, searching the new roll number finds exactly the new row. */
  lemma AddThenSearch(r: Roster, rawName: string, roll: int, marks: int)
    requires !Text.Blank(rawName) && !HasRoll(r, roll) && LowestMarks <= marks <= HighestMarks
    ensures Search(Add(r, rawName, roll, marks).roster, roll) == [Student(roll, Text.Strip(rawName), marks)]
  {
    var o := Add(r, rawName, roll, marks);
    assert o.roster == r + [o.roster[|r|]];
    FilterConcat(r, [o.roster[|r|]], WithRoll(roll));
  }

  // ---------------------------------------------------------------- search

  /**
   The rows with the given roll number, in roster order: every such row and
   nothing else. The result is empty exactly when the roll number is absent.
   */
  function Search(r: Roster, roll: int): (found: Roster)
    ensures forall i :: 0 <= i < |found| ==> found[i] in r && found[i].rollNo == roll
    ensures forall i :: 0 <= i < |r| && r[i].rollNo == roll ==> r[i] in found
    ensures found == [] <==> !HasRoll(r, roll)
    ensures SubseqOf(found, r)
  {
    var found := Filter(r, WithRoll(roll));
    assert found != [] ==> found[0] in r;
    found
  }

  /** A search returns each row with the roll number exactly as often as the roster holds it. */
  lemma SearchKeepsDuplicates(r: Roster, roll: int, x: Student)
    ensures multiset(Search(r, roll))[x] == if x.rollNo == roll then multiset(r)[x] else 0
  {
    FilterCount(r, WithRoll(roll), x);
  }

  /** On a roster with unique roll numbers a search finds at most one row. */
  lemma {:induction false} SearchAtMostOne(r: Roster, roll: int)
    requires UniqueRolls(r)
    ensures |Search(r, roll)| <= 1
  {
    if r != [] {
      if r[0].rollNo == roll {
        assert forall i :: 0 <= i < |r[1..]| ==> r[1..][i].rollNo != roll by {
          forall i | 0 <= i < |r[1..]|
            ensures r[1..][i].rollNo != roll
          {
            assert r[1..][i] == r[i + 1];
          }
        }
        FilterNone(r[1..], WithRoll(roll));
      } else {
        SearchAtMostOne(r[1..], roll);
      }
    }
  }

  // ---------------------------------------------------------------- update

  /** `r` with `f` applied to the rows that have the roll number, every other row untouched. */
  function Rewrite(r: Roster, roll: int, f: Student -> Student): (r': Roster)
    ensures |r'| == |r|
    ensures forall i :: 0 <= i < |r| ==> r'[i] == (if r[i].rollNo == roll then f(r[i]) else r[i])
  {
    if r == [] then []
    else [if r[0].rollNo == roll then f(r[0]) else r[0]] + Rewrite(r[1..], roll, f)
  }

  /** The answer to the update menu: "1" picks the name, "2" the marks, anything else nothing. */
  datatype Choice = NameField | MarksField | NoField

  /** The menu answer is compared as typed, without stripping. */
  function ParseChoice(answer: string): (c: Choice)
    ensures c == NameField <==> answer == "1"
    ensures c == MarksField <==> answer == "2"
  {
    if answer == "1" then NameField
    else if answer == "2" then MarksField
    else NoField
  }

  function Renamed(name: string): Student -> Student {
    (s: Student) => s.(name := name)
  }

  function Remarked(marks: int): Student -> Student {
    (s: Student) => s.(marks := marks)
  }

  /**
   Updates the name (NameField) or the marks (MarksField) of every row
   with the roll number. An absent roll number is refused before the menu
   is shown; then an empty stripped name, marks outside 0..100 and any other
   menu answer are refused. On success only the chosen field of the
   matching rows changes; every other field and every other row is kept.
   */
  function Update(r: Roster, roll: int, choice: Choice, rawName: string, newMarks: int): (o: Outcome)
    ensures o.status.Rejected? ==> o.roster == r
    ensures !HasRoll(r, roll) ==> o.status == Rejected(NotFound)
    ensures HasRoll(r, roll) && choice == NameField && Text.Blank(rawName) ==> o.status == Rejected(EmptyName)
    ensures HasRoll(r, roll) && choice == MarksField && !(LowestMarks <= newMarks <= HighestMarks) ==>
              o.status == Rejected(MarksOutOfRange)
    ensures HasRoll(r, roll) && choice == NoField ==> o.status == Rejected(InvalidChoice)
    ensures o.status == Changed <==>
              HasRoll(r, roll) &&
              ((choice == NameField && !Text.Blank(rawName)) ||
               (choice == MarksField && LowestMarks <= newMarks <= HighestMarks))
    ensures o.status == Changed ==>
              |o.roster| == |r| &&
              forall i :: 0 <= i < |r| ==>
                && (r[i].rollNo != roll ==> o.roster[i] == r[i])
                && (r[i].rollNo == roll && choice == NameField ==> o.roster[i] == r[i].(name := Text.Strip(rawName)))
                && (r[i].rollNo == roll && choice == MarksField ==> o.roster[i] == r[i].(marks := newMarks))
  {
    Text.StripEmptyIffBlank(rawName);
    if !HasRoll(r, roll) then Outcome(r, Rejected(NotFound))
    else if choice == NameField then
      var name := Text.Strip(rawName);
      if name == [] then Outcome(r, Rejected(EmptyName))
      else Outcome(Rewrite(r, roll, Renamed(name)), Changed)
    else if choice == MarksField then
      if !MarksAccepted(newMarks) then Outcome(r, Rejected(MarksOutOfRange))
      else Outcome(Rewrite(r, roll, Remarked(newMarks)), Changed)
    else Outcome(r, Rejected(InvalidChoice))
  }

  /** Updating keeps roll numbers unique, marks in range and names stripped. */
  lemma UpdatePreservesValid(r: Roster, roll: int, choice: Choice, rawName: string, newMarks: int)
    requires Valid(r)
    ensures Valid(Update(r, roll, choice, rawName, newMarks).roster)
  {
    var o := Update(r, roll, choice, rawName, newMarks);
    if o.status == Changed {
      forall i, j | 0 <= i < j < |o.roster|
        ensures o.roster[i].rollNo != o.roster[j].rollNo
      {
        assert o.roster[i].rollNo == r[i].rollNo && o.roster[j].rollNo == r[j].rollNo;
      }
    }
  }

  /** A rewrite that keeps roll numbers finds as many rows per roll number, and the same rows for other roll numbers. */
  lemma {:induction false} RewriteThenSearch(r: Roster, roll: int, f: Student -> Student, k: int)
    requires forall s :: f(s).rollNo == s.rollNo
    ensures |Search(Rewrite(r, roll, f), k)| == |Search(r, k)|
    ensures k != roll ==> Search(Rewrite(r, roll, f), k) == Search(r, k)
  {
    if r != [] {
      var w := Rewrite(r, roll, f);
      assert w[1..] == Rewrite(r[1..], roll, f);
      RewriteThenSearch(r[1..], roll, f, k);
    }
  }

  /** The row rewrite a successful update performs. */
  function UpdateEffect(choice: Choice, rawName: string, newMarks: int): Student -> Student {
    if choice == NameField then Renamed(Text.Strip(rawName)) else Remarked(newMarks)
  }

  /** A successful update is the rewrite of the matching rows by its effect. */
  lemma UpdateIsRewrite(r: Roster, roll: int, choice: Choice, rawName: string, newMarks: int)
    requires Update(r, roll, choice, rawName, newMarks).status == Changed
    ensures Update(r, roll, choice, rawName, newMarks).roster == Rewrite(r, roll, UpdateEffect(choice, rawName, newMarks))
    ensures forall s :: UpdateEffect(choice, rawName, newMarks)(s).rollNo == s.rollNo
  {
  }

  /**
   After a successful update, a search for the roll number finds as many
   rows as before, each carrying the new value; a search for any other roll
   number finds the same rows as before.
   */
  lemma UpdateThenSearch(r: Roster, roll: int, choice: Choice, rawName: string, newMarks: int, k: int)
    requires Update(r, roll, choice, rawName, newMarks).status == Changed
    ensures var found := Search(Update(r, roll, choice, rawName, newMarks).roster, roll);
            && |found| == |Search(r, roll)| > 0
            && (choice == NameField ==> forall i :: 0 <= i < |found| ==> found[i].name == Text.Strip(rawName))
            && (choice == MarksField ==> forall i :: 0 <= i < |found| ==> found[i].marks == newMarks)
    ensures k != roll ==> Search(Update(r, roll, choice, rawName, newMarks).roster, k) == Search(r, k)
  {
    var o := Update(r, roll, choice, rawName, newMarks);
    var found := Search(o.roster, roll);
    var f := UpdateEffect(choice, rawName, newMarks);
    UpdateIsRewrite(r, roll, choice, rawName, newMarks);
    RewriteThenSearch(r, roll, f, roll);
    RewriteThenSearch(r, roll, f, k);
    forall i | 0 <= i < |found|
      ensures choice == NameField ==> found[i].name == Text.Strip(rawName)
      ensures choice == MarksField ==> found[i].marks == newMarks
    {
      assert found[i] in o.roster;
      var j :| 0 <= j < |o.roster| && o.roster[j] == found[i];
      assert r[j].rollNo == o.roster[j].rollNo == roll;
      assert o.roster[j] == f(r[j]);
    }
  }

  // ---------------------------------------------------------------- delete

  /** Rows kept by a selection over a roster with unique roll numbers still have unique roll numbers. */
  lemma {:induction false} FilterKeepsUnique(r: Roster, p: Student -> bool)
    requires UniqueRolls(r)
    ensures UniqueRolls(Filter(r, p))
  {
    if r != [] {
      var tail := r[1..];
      var rest := Filter(tail, p);
      assert UniqueRolls(tail) by {
        forall i, j | 0 <= i < j < |tail|
          ensures tail[i].rollNo != tail[j].rollNo
        {
          assert tail[i] == r[i + 1] && tail[j] == r[j + 1];
        }
      }
      FilterKeepsUnique(tail, p);
      forall j | 0 <= j < |rest|
        ensures rest[j].rollNo != r[0].rollNo
      {
        assert rest[j] in tail;
        var k :| 0 <= k < |tail| && tail[k] == rest[j];
        assert r[k + 1] == rest[j];
      }
      var f := Filter(r, p);
      if p(r[0]) {
        assert f == [r[0]] + rest;
        forall i, j | 0 <= i < j < |f|
          ensures f[i].rollNo != f[j].rollNo
        {
          assert f[j] == rest[j - 1];
          if i > 0 {
            assert f[i] == rest[i - 1];
          }
        }
      } else {
        assert f == rest;
      }
    }
  }

  /**
   Deletes every row with the roll number. An absent roll number is
   refused. Otherwise the rows with that roll number, and only they, are
   removed; the remaining rows keep their original order, and together with
   the removed rows they make up the old roster exactly.
   */
  function Delete(r: Roster, roll: int): (o: Outcome)
    ensures o.status.Rejected? ==> o.roster == r
    ensures o.status == Rejected(NotFound) <==> !HasRoll(r, roll)
    ensures o.status == Changed <==> HasRoll(r, roll)
    ensures o.status == Changed ==>
              && !HasRoll(o.roster, roll)
              && (forall i :: 0 <= i < |o.roster| ==> o.roster[i] in r)
              && (forall i :: 0 <= i < |r| && r[i].rollNo != roll ==> r[i] in o.roster)
              && SubseqOf(o.roster, r)
              && multiset(o.roster) + multiset(Search(r, roll)) == multiset(r)
              && |o.roster| == |r| - |Search(r, roll)|
  {
    if !HasRoll(r, roll) then Outcome(r, Rejected(NotFound))
    else
      var kept := Filter(r, WithoutRoll(roll));
      FilterPartition(r, WithoutRoll(roll), WithRoll(roll));
      Outcome(kept, Changed)
  }

  /** After a delete, a search for the deleted roll number finds nothing. */
  lemma DeleteThenSearch(r: Roster, roll: int)
    ensures Search(Delete(r, roll).roster, roll) == []
  {
  }

  /** Deleting keeps roll numbers unique, marks in range and names stripped. */
  lemma DeletePreservesValid(r: Roster, roll: int)
    requires Valid(r)
    ensures Valid(Delete(r, roll).roster)
  {
    FilterKeepsUnique(r, WithoutRoll(roll));
  }
}
