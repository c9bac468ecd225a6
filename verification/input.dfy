/**
 The acceptance rule of the student manager's integer prompt. One answer
 to the prompt is either a whole number or text that does not parse as
 one; a number is accepted when it respects the optional lower and upper
 bound, the lower bound being checked first. The prompt itself re-asks
 until an answer is accepted; here each answer is judged on its own.
 */
module Input {
  import opened Options

  /** One answer to the prompt, after the attempt to parse it as an integer. */
  datatype Answer = Number(n: int) | NotANumber

  /** Why an answer was accepted or refused, matching the prompt's three messages. */
  datatype Verdict = Accepted(value: int) | NotWhole | BelowMin(min: int) | AboveMax(max: int)

  /** `v` respects each bound that is given. */
  predicate InBounds(v: int, lo: Option<int>, hi: Option<int>) {
    (lo.None? || lo.value <= v) && (hi.None? || v <= hi.value)
  }

  /**
   Judges one answer. A number is accepted exactly when it is within the
   given bounds, and the accepted value is the number itself; text that is
   not a whole number is refused; a number under the lower bound is refused
   for that bound even if it also exceeds the upper one.
   */
  function Judge(a: Answer, lo: Option<int>, hi: Option<int>): (r: Verdict)
    ensures r.Accepted? <==> a.Number? && InBounds(a.n, lo, hi)
    ensures r.Accepted? ==> r.value == a.n
    ensures r.NotWhole? <==> a.NotANumber?
    ensures r.BelowMin? <==> a.Number? && lo.Some? && a.n < lo.value
    ensures r.BelowMin? ==> r.min == lo.value
    ensures r.AboveMax? ==> hi.Some? && r.max == hi.value && hi.value < a.n
  {
    match a
    case NotANumber => NotWhole
    case Number(v) =>
      if lo.Some? && v < lo.value then BelowMin(lo.value)
      else if hi.Some? && v > hi.value then AboveMax(hi.value)
      else Accepted(v)
  }

  /** Any value the prompt hands back lies within the bounds it was given. */
  lemma AcceptedWithinBounds(a: Answer, lo: int, hi: int)
    requires Judge(a, Some(lo), Some(hi)).Accepted?
    ensures lo <= Judge(a, Some(lo), Some(hi)).value <= hi
  {
  }

  /** Without bounds, every whole number is accepted as it is. */
  lemma UnboundedAcceptsEveryNumber(v: int)
    ensures Judge(Number(v), None, None) == Accepted(v)
  {
  }
}
