/**
 A run of the student manager as a sequence of mutating operations, each
 applied to the roster left by the one before. It states the roster
 invariant "no two rows share a roll number, every mark is within 0..100,
 every name is stripped and non-empty" at every point of a run that starts
 from a roster satisfying it, such as the empty roster.
 */
module Session {
  import opened Records

  /** One mutating operation with the answers already collected, the update menu answer as typed. */
  datatype Command =
    | AddCmd(rawName: string, roll: int, marks: int)
    | UpdateCmd(roll: int, answer: string, rawName: string, newMarks: int)
    | DeleteCmd(roll: int)

  function Step(r: Roster, c: Command): Outcome {
    match c
    case AddCmd(name, roll, marks) => Add(r, name, roll, marks)
    case UpdateCmd(roll, answer, name, marks) => Update(r, roll, ParseChoice(answer), name, marks)
    case DeleteCmd(roll) => Delete(r, roll)
  }

  /** The roster after every command has run in order. */
  function Run(r: Roster, cs: seq<Command>): Roster
    decreases |cs|
  {
    if cs == [] then r else Run(Step(r, cs[0]).roster, cs[1..])
  }

  /** Each operation keeps the roster invariant. */
  lemma StepPreservesValid(r: Roster, c: Command)
    requires Valid(r)
    ensures Valid(Step(r, c).roster)
  {
    match c
    case AddCmd(name, roll, marks) => AddPreservesValid(r, name, roll, marks);
    case UpdateCmd(roll, answer, name, marks) => UpdatePreservesValid(r, roll, ParseChoice(answer), name, marks);
    case DeleteCmd(roll) => DeletePreservesValid(r, roll);
  }

  /** A run from a valid roster, in particular from the empty one, never breaks the invariant. */
  lemma {:induction false} RunPreservesValid(r: Roster, cs: seq<Command>)
    requires Valid(r)
    ensures Valid(Run(r, cs))
    decreases |cs|
  {
    if cs != [] {
      StepPreservesValid(r, cs[0]);
      RunPreservesValid(Step(r, cs[0]).roster, cs[1..]);
    }
  }

  /** Roll numbers stay unique throughout any run that starts from an empty roster. */
  lemma FromEmptyUnique(cs: seq<Command>)
    ensures UniqueRolls(Run([], cs))
  {
    RunPreservesValid([], cs);
  }
}
