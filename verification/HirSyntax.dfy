/** The high-level representation (rustmatch/src/hir.rs:51-65) and its shape conditions. */
module HirSyntax {
  import opened Base
  import opened Assertions
  import opened Predicates

  datatype Hir =
    | Never
    | Epsilon
    | Assert(assertion: Assertion)
    | Symbol(unit: U16)
    | Predicate(allowed: CanonicalPredicate)
    | Sequence(items: seq<Hir>)
    | Alternation(branches: seq<Hir>)
    | Repeat(body: Hir, min: U16, max: Option<U16>)

  /** The compiled form of the expression has a way back into its own entry state. */
  predicate Reentrant(h: Hir) {
    match h
    case Sequence(items) => items != [] && Reentrant(items[0])
    case Alternation(branches) => exists b :: b in branches && Reentrant(b)
    case Repeat(body, min, max) => (min == 0 && max.None?) || ((min > 0 || max != Some(0)) && Reentrant(body))
    case _ => false
  }

  /**
   Sharing an entry or an exit is harmless: no alternation of two or more branches has a
   re-entrant branch, and no repeat that may stop early has a re-entrant body.
   */
  predicate WellShaped(h: Hir) {
    match h
    case Sequence(items) => forall i :: i in items ==> WellShaped(i)
    case Alternation(branches) =>
      && (forall b :: b in branches ==> WellShaped(b))
      && (|branches| >= 2 ==> forall b :: b in branches ==> !Reentrant(b))
    case Repeat(body, min, max) => WellShaped(body) && (max != Some(min) ==> !Reentrant(body))
    case _ => true
  }

  /** Holds of everything the constructors of hir.rs build: no empty `Sequence` node. */
  predicate NoEmptySequence(h: Hir) {
    match h
    case Sequence(items) => items != [] && forall i :: i in items ==> NoEmptySequence(i)
    case Alternation(branches) => forall b :: b in branches ==> NoEmptySequence(b)
    case Repeat(body, _, _) => NoEmptySequence(body)
    case _ => true
  }

  const MAX_COUNTED_REPETITION: U16 := 1000

  /**
   The normal form that the constructors and the parser build: rows and choices of two or more,
   nothing empty or impossible inside them, nothing nested that could be flattened, counts in
   order and at most 1,000.
   */
  predicate Regular(h: Hir) {
    match h
    case Sequence(items) =>
      |items| >= 2 && forall i :: i in items ==> Regular(i) && !i.Never? && !i.Epsilon? && !i.Sequence?
    case Alternation(branches) =>
      |branches| >= 2 && forall b :: b in branches ==> Regular(b) && !b.Never? && !b.Alternation?
    case Repeat(body, min, max) =>
      && Regular(body) && !body.Never? && !body.Epsilon?
      && min <= MAX_COUNTED_REPETITION
      && (max.Some? ==> min <= max.value <= MAX_COUNTED_REPETITION && max.value > 0)
      && !(min == 1 && max == Some(1))
    case _ => true
  }

  lemma {:induction false} RegularHasNoEmptySequence(h: Hir)
    requires Regular(h)
    ensures NoEmptySequence(h)
  {
    match h
    case Sequence(items) => forall i | i in items ensures NoEmptySequence(i) { RegularHasNoEmptySequence(i); }
    case Alternation(branches) => forall b | b in branches ensures NoEmptySequence(b) { RegularHasNoEmptySequence(b); }
    case Repeat(body, _, _) => RegularHasNoEmptySequence(body);
    case _ =>
  }

  predicate UsesAssertions(h: Hir) {
    match h
    case Assert(_) => true
    case Sequence(items) => exists i :: i in items && UsesAssertions(i)
    case Alternation(branches) => exists b :: b in branches && UsesAssertions(b)
    case Repeat(body, _, _) => UsesAssertions(body)
    case _ => false
  }
}
